/** The error numbers the system calls use (libc/include/errno.h). */
module Errno {
  const ENOENT := 2
  const E2BIG := 7
  const ENOEXEC := 8
  const EBADF := 9
  const EAGAIN := 11
  const ENOMEM := 12
  const EFAULT := 14
  const EINVAL := 22
  const ENFILE := 23
  const EMFILE := 24
}
