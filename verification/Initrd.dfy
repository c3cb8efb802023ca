/** The initial ram disk: a ustar archive read in place (kernel/arch/i386/initrd.c; ustar Interchange Format of the
    POSIX.1 pax utility). */
module Initrd {
  import opened Arith
  import opened Words
  import opened Reads
  import opened Numbers

  const MAX_FILES: nat := 64
  const BLOCK: nat := 512
  const NAME_SIZE: nat := 100

  /** A member of an archive: a regular file, or a directory entry without data. */
  datatype Entry = File(name: seq<Byte>, content: seq<Byte>) | Folder(name: seq<Byte>)

  /** A node of the flat file system: its name, its length, and where its bytes are. */
  datatype Node = Node(name: seq<Byte>, length: int, inode: int)

  function Content(e: Entry): seq<Byte>
  {
    if e.File? then e.content else []
  }

  function Chars(s: seq<Byte>): (r: seq<char>)
    ensures |r| == |s| && forall i :: 0 <= i < |s| ==> r[i] == s[i] as char
  {
    seq(|s|, i requires 0 <= i < |s| => s[i] as char)
  }

  /** The bytes up to the first NUL. */
  function CString(s: seq<Byte>): (r: seq<Byte>)
    ensures |r| <= |s| && r <= s && (|r| < |s| ==> s[|r|] == 0) && 0 !in r
  {
    if s == [] || s[0] == 0 then [] else [s[0]] + CString(s[1..])
  }

  // ---- the archive format -------------------------------------------------------------------------------------

  const USTAR: seq<Byte> := [0x75, 0x73, 0x74, 0x61, 0x72]

  /** A header block for an entry: its name, its size as eleven octal digits and a terminator, the magic, its type. */
  ghost predicate Header(h: seq<Byte>, e: Entry)
  {
    && |h| == BLOCK
    && 0 < |e.name| < NAME_SIZE && 0 !in e.name
    && h[..NAME_SIZE] == e.name + seq(NAME_SIZE - |e.name|, _ => 0)
    && SizeField(Chars(h[124..136]), |Content(e)|)
    && h[257..262] == USTAR
    && (e.File? <==> h[156] == 0x30 || h[156] == 0)
  }

  ghost predicate SizeField(f: seq<char>, size: nat)
  {
    && size < WORD && |Text(size, 8, false)| <= 11 && |f| == 12 && !Octal(f[11])
    && f == seq(11 - |Text(size, 8, false)|, _ => '0') + Text(size, 8, false) + [f[11]]
  }

  function Padded(size: nat): nat
  {
    (size + 511) / 512 * 512
  }

  /** The entries lie in the archive one after the other from `at` on, and then comes a block that is none. */
  ghost predicate Laid(ar: seq<Byte>, at: nat, es: seq<Entry>)
    decreases |es|
  {
    if es == [] then at < |ar| && ar[at] == 0
    else
      var size := |Content(es[0])|;
      && at + BLOCK + Padded(size) <= |ar|
      && Header(ar[at..at + BLOCK], es[0])
      && ar[at + BLOCK..at + BLOCK + size] == Content(es[0])
      && Laid(ar, at + BLOCK + Padded(size), es[1..])
  }

  /** The regular files, in archive order. */
  function Files(es: seq<Entry>): seq<Entry>
  {
    if es == [] then [] else (if es[0].File? then [es[0]] else []) + Files(es[1..])
  }

  /** The files initrd_initialize has room for. */
  function Found(es: seq<Entry>): seq<Entry>
  {
    if |Files(es)| <= MAX_FILES then Files(es) else Files(es)[..MAX_FILES]
  }

  lemma {:induction false} FilesAppend(a: seq<Entry>, b: seq<Entry>)
    ensures Files(a + b) == Files(a) + Files(b)
  {
    hide Files;
    if a == [] {
      FilesNone(a);
      assert a + b == b;
    } else {
      assert (a + b)[1..] == a[1..] + b;
      FilesHead(a);
      FilesHead(a + b);
      FilesAppend(a[1..], b);
    }
  }

  lemma FilesNone(es: seq<Entry>)
    requires es == []
    ensures Files(es) == []
  {
  }

  lemma FilesHead(es: seq<Entry>)
    requires es != []
    ensures Files(es) == (if es[0].File? then [es[0]] else []) + Files(es[1..])
  {
  }

  /** File data is padded to whole blocks of 512 bytes, and no further. */
  lemma PaddedCovers(size: nat)
    ensures size <= Padded(size) < size + 512 && Padded(size) % 512 == 0
  {
  }

  /** What the walk sees in a header block. */
  lemma HeaderFacts(h: seq<Byte>, e: Entry)
    requires Header(h, e)
    ensures h[0] != 0 && h[257..262] == USTAR && Chars(h[257..262]) == "ustar" && CString(h[..NAME_SIZE]) == e.name
    ensures Value(OctalPrefix(Chars(h[124..136]), 12), 8) % WORD == |Content(e)|
    ensures h[156] == 0x30 || h[156] == 0 <==> e.File?
  {
    hide Text, Value, OctalPrefix, CString, Octal;
    var size := |Content(e)|;
    assert h[0] == h[..NAME_SIZE][0] == e.name[0];
    assert e.name[0] in e.name;
    assert Chars(h[257..262]) == "ustar";
    NamePadded(e.name, NAME_SIZE - |e.name|);
    OctalRoundTrip(size, 11 - |Text(size, 8, false)|, Chars(h[124..136])[11], 12);
  }

  lemma {:induction false} NamePadded(name: seq<Byte>, k: nat)
    requires 0 !in name
    ensures CString(name + seq(k, _ => 0)) == name
  {
    if name == [] {
      assert name + seq(k, _ => 0) == seq(k, _ => 0);
    } else {
      assert (name + seq(k, _ => 0))[1..] == name[1..] + seq(k, _ => 0);
      assert forall i :: 0 <= i < |name[1..]| ==> name[1..][i] == name[i + 1];
      NamePadded(name[1..], k);
    }
  }

  // ---- writing an archive ---------------------------------------------------------------------------------------

  function Padding(k: nat): (z: seq<Byte>)
    ensures |z| == k && forall i :: 0 <= i < k ==> z[i] == 0
  {
    seq(k, _ => 0)
  }

  /** A size as eleven octal digits and a NUL. */
  function SizeChars(size: nat): (f: seq<char>)
    requires |Text(size, 8, false)| <= 11
    ensures |f| == 12
  {
    seq(11 - |Text(size, 8, false)|, _ => '0') + Text(size, 8, false) + ['\0']
  }

  function Bytes(f: seq<char>): (r: seq<Byte>)
    requires forall i :: 0 <= i < |f| ==> f[i] < 256 as char
    ensures |r| == |f| && Chars(r) == f
  {
    var r: seq<Byte> := seq(|f|, i requires 0 <= i < |f| => f[i] as int);
    assert Chars(r) == f;
    r
  }

  predicate Archivable(e: Entry)
  {
    0 < |e.name| < NAME_SIZE && 0 !in e.name && |Content(e)| < WORD
  }

  function HeaderOf(e: Entry): (h: seq<Byte>)
    requires Archivable(e)
    ensures Header(h, e)
  {
    SizeFits(|Content(e)|);
    var kind: Byte := if e.File? then 0x30 else 0x35;
    var h := e.name + Padding(NAME_SIZE - |e.name|) + Padding(24) + Bytes(SizeChars(|Content(e)|)) + Padding(20)
      + [kind]
             + Padding(100) + USTAR + Padding(250);
    HeaderParts(e, h, kind);
    h
  }

  lemma EightPower()
    ensures Pow8(11) == 0x2_0000_0000
  {
    assert Pow8(4) == 4096;
    assert Pow8(8) == 4096 * 4096;
  }

  lemma SizeFits(size: nat)
    requires size < WORD
    ensures |Text(size, 8, false)| <= 11
    ensures forall i :: 0 <= i < 12 ==> SizeChars(size)[i] < 256 as char
  {
    hide Text, Pow8, Low;
    EightPower();
    LowLength(size, 8, false, 11);
    TextLength(size);
    TextOctal(size);
    var t, k := Text(size, 8, false), 11 - |Text(size, 8, false)|;
    forall i | 0 <= i < 12
      ensures SizeChars(size)[i] < 256 as char
    {
      assert k <= i < 11 ==> SizeChars(size)[i] == t[i - k];
    }
  }

  lemma TextLength(size: nat)
    ensures |Text(size, 8, false)| == if size == 0 then 1 else |Low(size, 8, false)|
  {
    if size > 0 {
      ReversedLow(size, 8, false);
    }
  }

  lemma HeaderParts(e: Entry, h: seq<Byte>, kind: Byte)
    requires Archivable(e) && kind == (if e.File? then 0x30 else 0x35) && |Text(|Content(e)|, 8, false)| <= 11
    requires forall i :: 0 <= i < 12 ==> SizeChars(|Content(e)|)[i] < 256 as char
    requires h ==
      e.name + Padding(NAME_SIZE - |e.name|) + Padding(24) + Bytes(SizeChars(|Content(e)|)) + Padding(20) + [kind]
             + Padding(100) + USTAR + Padding(250)
    ensures Header(h, e)
  {
    hide Text, SizeChars, Bytes, Padding, Chars;
    var f := Bytes(SizeChars(|Content(e)|));
    assert h[..NAME_SIZE] == e.name + Padding(NAME_SIZE - |e.name|);
    ZerosAre(NAME_SIZE - |e.name|);
    assert h[124..136] == f;
    assert h[156] == kind;
    assert h[257..262] == USTAR;
    SizeFieldOf(|Content(e)|);
  }

  lemma ZerosAre(k: nat)
    ensures Padding(k) == seq(k, _ => 0)
  {
  }

  lemma SizeFieldOf(size: nat)
    requires size < WORD && |Text(size, 8, false)| <= 11
    ensures SizeField(SizeChars(size), size)
  {
    hide Text;
  }

  /** The archive of a list of entries, in order. */
  function Archive(es: seq<Entry>): seq<Byte>
    requires forall e :: e in es ==> Archivable(e)
  {
    if es == [] then Padding(BLOCK)
    else
      var size := |Content(es[0])|;
      PaddedCovers(size);
      HeaderOf(es[0]) + Content(es[0]) + Padding(Padded(size) - size) + Archive(es[1..])
  }

  /** Every archive written this way has the layout the walk relies on. */
  lemma {:induction false} ArchiveLaid(before: seq<Byte>, es: seq<Entry>)
    requires forall e :: e in es ==> Archivable(e)
    ensures Laid(before + Archive(es), |before|, es)
    decreases |es|
  {
    hide Header, Padded, HeaderOf, Laid, Archivable, Padding, Archive;
    if es == [] {
      EmptyArchive(before);
    } else {
      var h, c := HeaderOf(es[0]), Content(es[0]);
      PaddedCovers(|c|);
      HeaderLength(h, es[0]);
      var pad := Padding(Padded(|c|) - |c|);
      ArchiveUnfolds(es);
      ArchiveLaid(before + h + c + pad, es[1..]);
      Slices(before, h, c, pad, Archive(es[1..]));
      LaidFolds(before + Archive(es), |before|, es);
    }
  }

  lemma EmptyArchive(before: seq<Byte>)
    ensures Laid(before + Archive([]), |before|, [])
  {
  }

  lemma ArchiveUnfolds(es: seq<Entry>)
    requires es != [] && forall e :: e in es ==> Archivable(e)
    ensures |Content(es[0])| <= Padded(|Content(es[0])|)
    ensures Archive(es) ==
      HeaderOf(es[0]) + Content(es[0]) + Padding(Padded(|Content(es[0])|) - |Content(es[0])|) + Archive(es[1..])
  {
    PaddedCovers(|Content(es[0])|);
  }

  lemma Slices(before: seq<Byte>, h: seq<Byte>, c: seq<Byte>, pad: seq<Byte>, rest: seq<Byte>)
    ensures var ar := before + (h + c + pad + rest);
      && ar == before + h + c + pad + rest
      && ar[|before|..|before| + |h|] == h
      && ar[|before| + |h|..|before| + |h| + |c|] == c
  {
    var ar := before + (h + c + pad + rest);
    assert ar == before + h + c + pad + rest;
    assert ar[|before|..|before| + |h|] == h;
    assert ar[|before| + |h|..|before| + |h| + |c|] == c;
  }

  lemma LaidFolds(ar: seq<Byte>, at: nat, es: seq<Entry>)
    requires es != [] && at + BLOCK + Padded(|Content(es[0])|) <= |ar| && |Content(es[0])| <= Padded(|Content(es[0])|)
    requires Header(ar[at..at + BLOCK], es[0])
    requires ar[at + BLOCK..at + BLOCK + |Content(es[0])|] == Content(es[0])
    requires Laid(ar, at + BLOCK + Padded(|Content(es[0])|), es[1..])
    ensures Laid(ar, at, es)
  {
  }

  lemma HeaderLength(h: seq<Byte>, e: Entry)
    requires Header(h, e)
    ensures |h| == BLOCK
  {
  }

  // ---- the file system ------------------------------------------------------------------------------------------

  /** Node k stands for the k-th file: its name, its length, and its bytes in the archive. */
  ghost predicate Stands(ar: seq<Byte>, n: Node, data: int, e: Entry, k: int)
  {
    && e.File? && n == Node(e.name, |e.content|, k)
    && 0 <= data && data + |e.content| <= |ar| && ar[data..data + |e.content|] == e.content
  }

  class Disk {
    const archive: seq<Byte>
    const nodes: array<Node>
    const data: array<int>
    var count: nat

    constructor (archive: seq<Byte>)
      ensures this.archive == archive && count == 0 && nodes.Length == MAX_FILES && data.Length == MAX_FILES
      ensures fresh(nodes) && fresh(data)
    {
      this.archive := archive;
      nodes := new Node[MAX_FILES](_ => Node([], 0, 0));
      data := new int[MAX_FILES](_ => 0);
      count := 0;
    }

    /** The nodes stand for these files. */
    ghost predicate Holds(files: seq<Entry>)
      reads this, nodes, data
    {
      && nodes.Length == MAX_FILES && data.Length == MAX_FILES
      && count == |files| <= MAX_FILES
      && (forall k :: 0 <= k < |files| ==> Stands(archive, nodes[k], data[k], files[k], k))
    }

    /** initrd_initialize: the walk ends, having found exactly the regular files, or the first 64 of them. */
    method Initialize(ghost es: seq<Entry>)
      requires nodes.Length == MAX_FILES && data.Length == MAX_FILES && count == 0
      requires Laid(archive, 0, es)
      modifies `count, nodes, data
      ensures Holds(Found(es))
    {
      hide Header, Text, Value, Stands, Padded, Laid, Files, OctalPrefix, CString, Chars;
      var ptr: nat := 0;
      ghost var i := 0;
      assert es[0..] == es && Files(es[..0]) == [] by { NoFiles(es); }
      while count < MAX_FILES
        invariant 0 <= i <= |es| && Laid(archive, ptr, es[i..]) && Holds(Files(es[..i]))
        decreases |es| - i
      {
        LaidInside(archive, ptr, es[i..]);
        if archive[ptr] == 0 {
          EndOnly(archive, ptr, es[i..]);
          FoundAll(es, i);
          return;
        }
        LaidFacts(archive, ptr, es[i..]);
        var h := archive[ptr..ptr + BLOCK];
        HeaderFacts(h, es[i]);
        if h[257..262] != USTAR {
          return;
        }
        var size := OctalToInt(Chars(h[124..136]), 12);
        FilesStep(es, i);
        if h[156] == 0x30 || h[156] == 0 {
          nodes[count] := Node(CString(h[..NAME_SIZE]), size, count);
          data[count] := ptr + BLOCK;
          StandsNow(archive, nodes[count], data[count], es[i], count);
          count := count + 1;
        }
        ptr := ptr + BLOCK + Padded(size);
        i := i + 1;
      }
      FoundFull(es, i);
    }

    /** initrd_finddir: the first node of that name. */
    method FindDir(name: seq<Byte>) returns (inode: int)
      requires nodes.Length == MAX_FILES && count <= MAX_FILES
      ensures inode == -1 <==> forall k :: 0 <= k < count ==> nodes[k].name != name
      ensures inode != -1 ==>
        0 <= inode < count && nodes[inode].name == name && forall k :: 0 <= k < inode ==> nodes[k].name != name
    {
      for k := 0 to count
        invariant forall j :: 0 <= j < k ==> nodes[j].name != name
      {
        if nodes[k].name == name {
          return k;
        }
      }
      return -1;
    }

    /** initrd_read: the bytes it copies. */
    method Read(inode: int, offset: int, size: int, ghost files: seq<Entry>) returns (bytes: seq<Byte>)
      requires Holds(files) && 0 <= inode < count && 0 <= offset < WORD && 0 <= size < WORD
      requires InBounds(|Content(files[inode])|, offset, size)
      ensures bytes == Chunk(Content(files[inode]), offset, size)
    {
      assert Stands(archive, nodes[inode], data[inode], files[inode], inode);
      var n := ReadSize(nodes[inode].length, offset, size);
      if n == 0 {
        return [];
      }
      bytes := archive[data[inode] + offset..data[inode] + offset + n];
      PartOfPart(archive, data[inode], nodes[inode].length, offset, n);
    }
  }

  /** How many bytes initrd_read copies, with its 32-bit addition. */
  function ReadSize(length: int, offset: int, size: int): int
  {
    if offset >= length then 0
    else if (offset + size) % WORD > length then length - offset
    else size
  }

  /** A read stays inside its file. */
  predicate InBounds(length: int, offset: int, size: int)
  {
    ReadSize(length, offset, size) == 0 || offset + ReadSize(length, offset, size) <= length
  }

  /** initrd_read stays inside the file, and returns what it should, exactly when it starts past the end or offset
      plus size does not wrap around. */
  lemma InBoundsIff(length: int, offset: int, size: int)
    requires 0 <= length < WORD && 0 <= offset < WORD && 0 <= size < WORD
    ensures InBounds(length, offset, size) <==> offset >= length || offset + size < WORD
  {
    if offset < length && offset + size >= WORD {
      assert (offset + size) % WORD == offset + size - WORD;
    }
  }

  /** A file of two bytes, read from its second byte on with a size of 2^32 - 1: the sum is 0, and the copy runs on. */
  lemma ReadLeavesFile()
    ensures !InBounds(2, 1, 0xFFFF_FFFF) && ReadSize(2, 1, 0xFFFF_FFFF) == 0xFFFF_FFFF
  {
    InBoundsIff(2, 1, 0xFFFF_FFFF);
  }

  /** A part of a part. */
  lemma PartOfPart<B>(a: seq<B>, from: int, length: int, offset: int, n: int)
    requires 0 <= from && 0 <= offset && 0 <= n && offset + n <= length && from + length <= |a|
    ensures a[from..from + length][offset..offset + n] == a[from + offset..from + offset + n]
  {
    var part := a[from..from + length];
    var x, y := part[offset..offset + n], a[from + offset..from + offset + n];
    forall k | 0 <= k < n
      ensures x[k] == y[k]
    {
      assert part[offset + k] == a[from + offset + k];
    }
  }

  // ---- facts about the walk ---------------------------------------------------------------------------------------

  lemma LaidInside(ar: seq<Byte>, at: nat, es: seq<Entry>)
    requires Laid(ar, at, es)
    ensures at < |ar|
  {
  }

  lemma EndOnly(ar: seq<Byte>, at: nat, es: seq<Entry>)
    requires Laid(ar, at, es) && at < |ar| && ar[at] == 0
    ensures es == []
  {
    hide Header, Padded;
    if es != [] {
      HeaderFacts(ar[at..at + BLOCK], es[0]);
    }
  }

  lemma LaidFacts(ar: seq<Byte>, at: nat, es: seq<Entry>)
    requires Laid(ar, at, es) && at < |ar| && ar[at] != 0
    ensures es != [] && at + BLOCK + Padded(|Content(es[0])|) <= |ar| && Header(ar[at..at + BLOCK], es[0])
    ensures |Content(es[0])| <= Padded(|Content(es[0])|)
    ensures ar[at + BLOCK..at + BLOCK + |Content(es[0])|] == Content(es[0])
    ensures Laid(ar, at + BLOCK + Padded(|Content(es[0])|), es[1..])
  {
    if es != [] {
      PaddedCovers(|Content(es[0])|);
    }
  }

  lemma FilesStep(es: seq<Entry>, i: nat)
    requires i < |es|
    ensures es[i..][1..] == es[i + 1..]
    ensures Files(es[..i + 1]) == Files(es[..i]) + (if es[i].File? then [es[i]] else [])
    ensures Files(es[i..]) == (if es[i].File? then [es[i]] else []) + Files(es[i + 1..])
  {
    assert es[..i + 1] == es[..i] + [es[i]];
    FilesAppend(es[..i], [es[i]]);
    assert es[i..][1..] == es[i + 1..];
    assert Files([es[i]]) == (if es[i].File? then [es[i]] else []) + Files([]);
  }

  lemma NoFiles(es: seq<Entry>)
    ensures es[0..] == es && Files(es[..0]) == []
  {
  }

  lemma FoundAll(es: seq<Entry>, i: nat)
    requires i <= |es| && es[i..] == [] && |Files(es[..i])| <= MAX_FILES
    ensures Files(es[..i]) == Found(es)
  {
    assert es[..i] == es;
  }

  lemma FoundFull(es: seq<Entry>, i: nat)
    requires i <= |es| && |Files(es[..i])| == MAX_FILES
    ensures Files(es[..i]) == Found(es)
  {
    FilesAppend(es[..i], es[i..]);
    assert es[..i] + es[i..] == es;
  }

  lemma StandsNow(ar: seq<Byte>, n: Node, data: int, e: Entry, k: int)
    requires e.File? && n == Node(e.name, |Content(e)|, k)
    requires 0 <= data && data + |Content(e)| <= |ar| && ar[data..data + |Content(e)|] == Content(e)
    ensures Stands(ar, n, data, e, k)
  {
  }

  ghost predicate DistinctNames(files: seq<Entry>)
  {
    forall i, j {:trigger files[i], files[j]} :: 0 <= i < j < |files| ==> files[i].name != files[j].name
  }

  /** The archive round trip: archive the entries, let initrd_initialize walk the archive, find the k-th file by its
      name and read it whole; what comes back is the bytes that were archived. */
  method RoundTrip(es: seq<Entry>, k: nat) returns (inode: int, bytes: seq<Byte>)
    requires (forall e :: e in es ==> Archivable(e)) && |Files(es)| <= MAX_FILES && DistinctNames(Files(es))
    requires k < |Files(es)|
    ensures inode == k && bytes == Content(Files(es)[k])
  {
    hide Laid, Files, Archive, Archivable;
    ArchiveLaid([], es);
    var ar := Archive(es);
    assert [] + ar == ar;
    var d := new Disk(ar);
    d.Initialize(es);
    var e := Files(es)[k];
    FilesAre(es, k);
    inode := d.FindDir(e.name);
    assert Stands(ar, d.nodes[k], d.data[k], Files(es)[k], k);
    assert inode != -1;
    assert Stands(ar, d.nodes[inode], d.data[inode], Files(es)[inode], inode);
    var length := |Content(e)|;
    InBoundsIff(length, 0, length);
    bytes := d.Read(inode, 0, length, Files(es));
  }

  lemma {:induction false} FilesAre(es: seq<Entry>, k: nat)
    requires k < |Files(es)| && forall e :: e in es ==> Archivable(e)
    ensures Files(es)[k] in es && Files(es)[k].File? && |Content(Files(es)[k])| < WORD
  {
    if es[0].File? && k == 0 {
    } else {
      FilesAre(es[1..], if es[0].File? then k - 1 else k);
    }
  }
}
