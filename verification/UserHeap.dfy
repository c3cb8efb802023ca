/** The user heap of a process of the machine: sbrk as malloc meets it, and the heap over whole runs
    (libc/stdlib/malloc.c on kernel/arch/i386/syscall.c). */
module UserHeap {
  import opened Arith
  import opened Words
  import opened Paging
  import opened Pages
  import opened UserSpace
  import opened ElfFormat
  import opened Scheduler
  import opened World
  import opened Runs
  import opened Blocks
  import opened Malloc
  import opened Spaces
  import opened Steps
  import B = Sbrk
  import E = Exec
  import T = Table
  import L = Lifecycle

  // ---- sbrk as malloc meets it ------------------------------------------------------------------------------------

  /** The libc wrapper: the old break, or -1 for any error. */
  function Wrapped(ret: int): int
  {
    if ret < 0 then -1 else ret
  }

  /** The system call does to the caller's memory what Heap.Sbrk promises malloc, for the page-aligned breaks and whole
      pages that malloc uses: a refusal leaves everything below the break alone, a growth adds the bytes asked for. */
  lemma SbrkServes(s: Space, n: Space, D: int, was: int, inc: int, ret: int, brk: int)
    requires Inv(s) && D in s.dirs && B.Answers(s, n, D, was, inc, ret, brk)
    requires 0 < was < INT_LIMIT && 0 < inc && was % PAGE == 0 && inc % PAGE == 0
    ensures var a, b := Image(s.mem, D), Image(n.mem, D);
      && (Wrapped(ret) == -1 ==> SameBelow(a, b, was) && brk == was)
      && (Wrapped(ret) != -1 ==> Wrapped(ret) == was && brk == was + inc && Extends(a, b, was, brk))
  {
    hide Inv, Image, B.FramesAfter, B.Shrunk, Pte, B.NewEntry, B.BytesGrown;
    var a, b := Image(s.mem, D), Image(n.mem, D);
    ImageRange(s.mem, D);
    ImageRange(n.mem, D);
    Aligned(was);
    Aligned(was + inc);
    if was + inc <= B.USER_BRK_LIMIT {
      if B.FramesAfter(s, D, RoundDown(was), was + inc) >= 0 {
        GrownAbove(a, b, was, brk);
      } else {
        var reached :| B.StoppedAt(s, n, D, RoundDown(was), was + inc, reached);
        GrownAbove(a, b, was, reached);
      }
    }
  }

  lemma Aligned(x: int)
    requires x % PAGE == 0
    ensures RoundDown(x) == x == RoundUp(x)
  {
  }

  lemma GrownAbove(a: Img, b: Img, was: int, to: int)
    requires B.BytesGrown(a, b, was, to) && was % PAGE == 0 && to % PAGE == 0
    requires forall va {:trigger va in b} :: va in b ==> 0 <= va < WORD
    requires forall va {:trigger va in a} :: va in a ==> 0 <= va < WORD
    requires to <= WORD && 0 <= was
    ensures SameBelow(a, b, was) && Extends(a, b, was, to)
  {
    forall va | va in b
      ensures va in a || was <= va < to
      ensures va in a ==> b[va] == a[va]
    {
      RoundDownBetween(va, was, to);
    }
    forall va | was <= va < to
      ensures va in b
    {
      RoundDownBetween(va, was, to);
    }
  }

  lemma RoundDownBetween(va: int, from: int, to: int)
    requires from % PAGE == 0 && to % PAGE == 0
    ensures from <= RoundDown(va) < to <==> from <= va < to
  {
  }

  // ---- the heap in the memory of a process ------------------------------------------------------------------------

  /** What Heap.Ready says of the bytes of [start, top). */
  ghost predicate HeapIn(img: Img, start: int, top: int, blocks: seq<Block>, live: map<int, seq<Byte>>)
  {
    && 0 < start <= top
    && Tiled(blocks, start, top) && Backed(img, start, top) && Headers(img, blocks) && Granted(img, blocks, live)
  }

  lemma HeapStays(a: Img, b: Img, start: int, top: int, blocks: seq<Block>, live: map<int, seq<Byte>>)
    requires HeapIn(a, start, top, blocks, live) && SameWithin(a, b, start, top)
    ensures HeapIn(b, start, top, blocks, live)
  {
    hide Tiled, Headers, HeaderAt, Granted, SameWithin, Backed;
    WithinKept(a, b, blocks, start, top);
    StillGranted(a, b, blocks, live, start, top);
  }

  /** A process holds these pieces in a heap at [start, top) of its memory. */
  ghost predicate HeapOf(w: World, v: int, start: int, top: int, blocks: seq<Block>, live: map<int, seq<Byte>>)
  {
    IsRun(w.sys.t.procs, v) && HeapIn(Image(w.space.mem, DirOfProc(w.sys.t.procs, v)), start, top, blocks, live)
  }

  /** An operation of the process itself that does not write into [start, top) or give it up. */
  ghost predicate Spares(w: World, op: Op, start: int, top: int)
  {
    match op
    case Store(va, b) => !(start <= va < top)
    case Sbrk(brk) => top <= brk
    case Read(fd, buf, len, bytes) => buf + |bytes| <= start || top <= buf
    case Take =>
      var p := w.queue.running;
      p < |w.status| && (w.status[p] == 0 || w.status[p] + 4 <= start || top <= w.status[p])
    case Load(brk, program) => false
    case Exec(C, brk, program) => false
    case Exit(code) => false
    case _ => true
  }

  // ---- one step ---------------------------------------------------------------------------------------------------

  /** The running process's own bytes in [start, top) survive an operation that spares them. */
  lemma OwnBytes(w: World, n: World, op: Op, disk: T.Disk, start: int, top: int)
    requires WorldInv(w, disk) && Effect(w, n, op, disk) && !op.Yield? && Spares(w, op, start, top)
    ensures SameWithin(Image(w.space.mem, w.cr3), Image(n.space.mem, w.cr3), start, top) && n.cr3 == w.cr3
  {
    hide WorldInv, Image, Inv, Reach, L.Possible, L.Next, Deed, TableDoes, StatusDoes, Sound, E.ExecImage, HeapMoves,
         NoLoose;
    if op.Sbrk? {
      ImageRange(w.space.mem, w.cr3);
      HeapMovesKeep(Image(w.space.mem, w.cr3), Image(n.space.mem, w.cr3), w.sys.t.procs[w.queue.running].brk, op.brk,
                    start, top);
    } else if op.Fork? {
      ForkSpares(w, n, op.C, disk);
    }
  }

  lemma HeapMovesKeep(a: Img, b: Img, was: int, brk: int, start: int, top: int)
    requires HeapMoves(a, b, was, brk) && top <= brk && forall va {:trigger va in a} :: va in a ==> 0 <= va < WORD
    ensures SameWithin(a, b, start, top)
  {
    hide RoundDown, RoundUp;
    forall va | start <= va < top && va in a
      ensures va in b && b[va] == a[va]
    {
      BelowBreak(va, brk);
    }
  }

  lemma BelowBreak(va: int, brk: int)
    requires va < brk
    ensures RoundDown(va) < RoundUp(brk)
  {
  }

  lemma ForkSpares(w: World, n: World, C: int, disk: T.Disk)
    requires WorldInv(w, disk) && Reach(w.space, n.space, {}) && NoLoose(n.space)
    requires C !in w.space.dirs && n.space.dirs == w.space.dirs + {C}
    ensures Image(n.space.mem, w.cr3) == Image(w.space.mem, w.cr3)
  {
    hide WorldInv, Image, Inv, Reach, NoLoose;
    WorldParts(w, disk);
    ReachWider(w.space, n.space, {}, {C});
    ReachElsewhere(w.space, n.space, {C});
    SeesTheSame(w.space, n.space, {C}, w.cr3);
  }

  /** An operation of v itself that spares the heap keeps it. */
  lemma OwnStep(w: World, n: World, op: Op, disk: T.Disk, start: int, top: int, blocks: seq<Block>,
                live: map<int, seq<Byte>>)
    requires WorldInv(w, disk) && Effect(w, n, op, disk) && !op.Yield? && Spares(w, op, start, top)
    requires HeapOf(w, w.queue.running, start, top, blocks, live)
    ensures HeapOf(n, w.queue.running, start, top, blocks, live)
  {
    hide WorldInv, Effect, Image, HeapIn, SameWithin, DirOfProc, Spares;
    WorldTask(w, op, disk, n);
    OwnBytes(w, n, op, disk, start, top);
    EffectKeeps(w, n, op, disk);
    NotExit(w, op, start, top);
    StillRunning(w, n, op, disk);
    RunsNow(w, disk);
    RunsNow(n, disk);
    HeapStays(Image(w.space.mem, w.cr3), Image(n.space.mem, w.cr3), start, top, blocks, live);
  }

  lemma WorldTask(w: World, op: Op, disk: T.Disk, n: World)
    requires Effect(w, n, op, disk) && !op.Yield?
    ensures w.queue.running in w.queue.ring
  {
    hide TableDoes, MemoryDoes, StatusDoes;
  }

  lemma NotExit(w: World, op: Op, start: int, top: int)
    requires Spares(w, op, start, top)
    ensures !op.Exit?
  {
  }

  /** What others do keeps it anyway. */
  lemma OthersStep(w: World, n: World, op: Op, disk: T.Disk, v: int, start: int, top: int, blocks: seq<Block>,
                   live: map<int, seq<Byte>>)
    requires WorldInv(w, disk) && Effect(w, n, op, disk) && (op.Yield? || w.queue.running != v)
    requires HeapOf(w, v, start, top, blocks, live)
    ensures HeapOf(n, v, start, top, blocks, live)
  {
    hide WorldInv, Effect, Image, HeapIn, DirOfProc, Unnoticed;
    EffectKeeps(w, n, op, disk);
    var p := if op.Yield? then -1 else w.queue.running as int;
    assert Unnoticed(w, n, p, disk);
    StayIntact(w, n, p, disk, v);
    WorldParts(w, disk);
    IntactDir(w, n, v);
  }

  lemma IntactDir(w: World, n: World, v: int)
    requires Intact(w, n, v) && IsRun(w.sys.t.procs, v)
    ensures IsRun(n.sys.t.procs, v) && DirOfProc(n.sys.t.procs, v) == DirOfProc(w.sys.t.procs, v)
    ensures Image(n.space.mem, DirOfProc(n.sys.t.procs, v)) == Image(w.space.mem, DirOfProc(w.sys.t.procs, v))
  {
    hide Image;
  }

  // ---- whole runs -------------------------------------------------------------------------------------------------

  /** From state j to state k, process v itself spares [start, top). The others may do as they like. */
  ghost predicate Careful(ws: seq<World>, ops: seq<Op>, v: int, j: nat, k: nat, start: int, top: int)
    requires |ws| > |ops| && k <= |ops|
  {
    forall i {:trigger ops[i]} :: j <= i < k ==>
      ops[i].Yield? || ws[i].queue.running != v || Spares(ws[i], ops[i], start, top)
  }

  /** The heap of a process is intact over any run of the machine in which the process itself does not write into it or
      give it up: every piece it holds is there, with its bytes, and so is the block list that the next malloc walks. */
  lemma {:induction false} HeapIntact(ws: seq<World>, ops: seq<Op>, disk: T.Disk, v: int, j: nat, k: nat, start: int,
                                      top: int, blocks: seq<Block>, live: map<int, seq<Byte>>)
    requires Runs.Run(ws, ops, disk) && WorldInv(ws[0], disk) && j <= k <= |ops|
    requires HeapOf(ws[j], v, start, top, blocks, live) && Careful(ws, ops, v, j, k, start, top)
    ensures HeapOf(ws[k], v, start, top, blocks, live)
    decreases k - j
  {
    hide WorldInv, Effect, HeapOf, Spares;
    if k > j {
      HeapIntact(ws, ops, disk, v, j, k - 1, start, top, blocks, live);
      RunInv(ws, ops, disk, k - 1);
      assert Effect(ws[k - 1], ws[k], ops[k - 1], disk);
      if ops[k - 1].Yield? || ws[k - 1].queue.running != v {
        OthersStep(ws[k - 1], ws[k], ops[k - 1], disk, v, start, top, blocks, live);
      } else {
        OwnStep(ws[k - 1], ws[k], ops[k - 1], disk, start, top, blocks, live);
      }
    }
  }
}
