/** The round-robin ring of tasks (kernel/arch/i386/task.c). Task 0 is main_task; task i is the one inside process
    slot i. */
module Scheduler {

  const MAX_TASKS: nat := 16

  /** The running task and the ring it heads. A task that has just been removed runs on until its next yield,
      outside the ring. */
  datatype Queue = Queue(running: nat, ring: seq<nat>)

  predicate Distinct(s: seq<nat>)
  {
    forall i, j {:trigger s[i], s[j]} :: 0 <= i < j < |s| ==> s[i] != s[j]
  }

  predicate Sound(q: Queue)
  {
    && 0 in q.ring
    && Distinct(q.ring)
    && q.running < MAX_TASKS
    && (forall i :: 0 <= i < |q.ring| ==> q.ring[i] < MAX_TASKS)
    && (q.running in q.ring ==> q.ring[0] == q.running)
  }

  /** The tasks in the order in which they will run next. */
  function Waiting(q: Queue): seq<nat>
  {
    if q.running in q.ring && q.ring[0] == q.running then q.ring[1..] else q.ring
  }

  /** How many yields it takes until task t runs. */
  function Distance(q: Queue, t: nat): (d: nat)
    requires t in Waiting(q)
    ensures 0 < d <= |Waiting(q)| && Waiting(q)[d - 1] == t
  {
    Position(Waiting(q), t) + 1
  }

  function Position(s: seq<nat>, t: nat): (k: nat)
    requires t in s
    ensures k < |s| && s[k] == t
  {
    if s[0] == t then 0 else Position(s[1..], t) + 1
  }

  lemma {:induction false} PositionOf(s: seq<nat>, k: nat)
    requires Distinct(s) && k < |s|
    ensures Position(s, s[k]) == k
  {
    if k > 0 {
      assert s[1..][k - 1] == s[k];
      PositionOf(s[1..], k - 1);
    }
  }

  function Remove(s: seq<nat>, t: nat): (r: seq<nat>)
    ensures t !in s ==> r == s
  {
    if s == [] then []
    else if s[0] == t then s[1..]
    else [s[0]] + Remove(s[1..], t)
  }

  lemma {:induction false} RemoveAt(s: seq<nat>, k: nat)
    requires Distinct(s) && k < |s|
    ensures Remove(s, s[k]) == s[..k] + s[k + 1..]
  {
    if k > 0 {
      assert s[1..][k - 1] == s[k];
      RemoveAt(s[1..], k - 1);
    }
  }

  // ---- the three ways the ring moves ----------------------------------------------------------------------

  function AfterYield(q: Queue): Queue
    requires Sound(q)
  {
    if q.running !in q.ring then Queue(q.ring[0], q.ring)
    else if |q.ring| == 1 then q
    else Queue(q.ring[1], q.ring[1..] + [q.ring[0]])
  }

  function AfterAdd(q: Queue, t: nat): Queue
    requires Sound(q)
  {
    Queue(q.running, [q.ring[0], t] + q.ring[1..])
  }

  function AfterRemove(q: Queue, t: nat): Queue
    requires Sound(q)
  {
    if |q.ring| == 1 then q else Queue(q.running, Remove(q.ring, t))
  }

  datatype Event = Switch | Added(t: nat) | Left

  /** Tasks are added by a running member of the ring, and only a running task other than main_task leaves it. */
  predicate Possible(q: Queue, e: Event)
  {
    match e
    case Switch => true
    case Added(t) => q.running in q.ring && t !in q.ring && t < MAX_TASKS
    case Left => q.running in q.ring && q.running != 0
  }

  function After(q: Queue, e: Event): Queue
    requires Sound(q)
  {
    match e
    case Switch => AfterYield(q)
    case Added(t) => AfterAdd(q, t)
    case Left => AfterRemove(q, q.running)
  }

  /** The ring stays one cycle through main_task, and its members change only as the event says. */
  lemma AfterSound(q: Queue, e: Event)
    requires Sound(q) && Possible(q, e)
    ensures Sound(After(q, e))
    ensures forall t :: t in After(q, e).ring <==>
      (t in q.ring && !(e.Left? && t == q.running)) || (e.Added? && t == e.t)
    ensures e.Left? ==> After(q, e).running == q.running && After(q, e).running !in After(q, e).ring
    ensures e.Switch? ==> After(q, e).running in After(q, e).ring
  {
    if e.Left? {
      assert |q.ring| > 1;
      RemoveAt(q.ring, 0);
      assert After(q, e).ring == q.ring[1..];
    }
  }

  lemma WaitingIs(q: Queue)
    requires Sound(q)
    ensures Waiting(q) == if q.running in q.ring then q.ring[1..] else q.ring
  {
  }

  /** The waiting tasks in order: a yield takes the first and puts a running member last, an addition goes in front,
      and a departure leaves them alone. */
  lemma WaitingLaw(q: Queue, e: Event)
    requires Sound(q) && Possible(q, e)
    ensures e.Switch? && Waiting(q) != [] ==>
      && After(q, e).running == Waiting(q)[0]
      && Waiting(After(q, e)) == Waiting(q)[1..] + (if q.running in q.ring then [q.running] else [])
    ensures e.Added? ==> Waiting(After(q, e)) == [e.t] + Waiting(q)
    ensures e.Left? ==> Waiting(After(q, e)) == Waiting(q)
  {
    hide Waiting, Distinct, Sound, Remove;
    AfterSound(q, e);
    RingHead(q);
    WaitingIs(q);
    WaitingIs(After(q, e));
    if e.Left? {
      RemoveAt(q.ring, 0);
    }
  }

  lemma WaitingDistinct(q: Queue)
    requires Sound(q)
    ensures Distinct(Waiting(q))
  {
  }

  /** A task that waits stays in the ring; each yield brings it one closer, each addition sets it back by one, and a
      departure leaves it where it is. */
  lemma DistanceLaw(q: Queue, e: Event, t: nat)
    requires Sound(q) && Possible(q, e) && t in Waiting(q)
    ensures e.Switch? && Distance(q, t) == 1 ==> After(q, e).running == t
    ensures !(e.Switch? && Distance(q, t) == 1) ==> t in Waiting(After(q, e))
    ensures e.Switch? && Distance(q, t) > 1 ==> Distance(After(q, e), t) == Distance(q, t) - 1
    ensures e.Added? ==> Distance(After(q, e), t) == Distance(q, t) + 1
    ensures e.Left? ==> Distance(After(q, e), t) == Distance(q, t)
  {
    hide Sound, Waiting, After, Possible, Distinct, Position;
    WaitingLaw(q, e);
    AfterSound(q, e);
    WaitingDistinct(After(q, e));
    var d, w, v := Distance(q, t), Waiting(q), Waiting(After(q, e));
    if e.Switch? && d > 1 {
      assert v[d - 2] == t;
      PositionOf(v, d - 2);
    } else if e.Added? {
      assert v[d] == t;
      PositionOf(v, d);
    }
  }

  // ---- whole runs ------------------------------------------------------------------------------------------

  /** The queue after each event in turn, as long as each is possible when it comes. */
  ghost predicate Run(q: Queue, es: seq<Event>)
    requires Sound(q)
    decreases |es|
  {
    es == [] || (Possible(q, es[0]) && Sound(After(q, es[0])) && Run(After(q, es[0]), es[1..]))
  }

  ghost function Reached(q: Queue, es: seq<Event>): Queue
    requires Sound(q) && Run(q, es)
    decreases |es|
  {
    if es == [] then q else Reached(After(q, es[0]), es[1..])
  }

  function Yields(es: seq<Event>): nat
  {
    if es == [] then 0 else (if es[0].Switch? then 1 else 0) + Yields(es[1..])
  }

  function Additions(es: seq<Event>): nat
  {
    if es == [] then 0 else (if es[0].Added? then 1 else 0) + Additions(es[1..])
  }

  /** Progress: a task at distance d runs within d yields plus one for every task added meanwhile. */
  lemma {:induction false} Progress(q: Queue, es: seq<Event>, t: nat) returns (k: nat)
    requires Sound(q) && Run(q, es) && t in Waiting(q)
    requires Yields(es) >= Distance(q, t) + Additions(es)
    ensures 0 < k <= |es| && Run(q, es[..k]) && Reached(q, es[..k]).running == t
    decreases |es|
  {
    hide Sound, Waiting, After, Possible, Distance;
    var n := After(q, es[0]);
    DistanceLaw(q, es[0], t);
    assert es[..1] == [es[0]] && Run(n, []);
    if es[0].Switch? && Distance(q, t) == 1 {
      k := 1;
    } else {
      var j := Progress(n, es[1..], t);
      k := j + 1;
      assert es[..k][1..] == es[1..][..j];
    }
  }

  /** There are no more waiting tasks than task numbers, less the one that runs. */
  lemma WaitingBound(q: Queue)
    requires Sound(q)
    ensures |Waiting(q)| <= MAX_TASKS
    ensures q.running in q.ring ==> |Waiting(q)| < MAX_TASKS
  {
    hide Waiting;
    WaitingIs(q);
    FewDistinct(q.ring, MAX_TASKS);
  }

  lemma {:induction false} FewDistinct(s: seq<nat>, n: nat)
    requires Distinct(s) && forall i :: 0 <= i < |s| ==> s[i] < n
    ensures |s| <= n
    decreases n
  {
    if s != [] {
      assert s[0] < n;
      if k :| 0 <= k < |s| && s[k] == n - 1 {
        FewDistinct(s[..k] + s[k + 1..], n - 1);
      } else {
        FewDistinct(s, n - 1);
      }
    }
  }

  // ---- the linked ring -------------------------------------------------------------------------------------

  class Ring {
    const next: array<nat>
    var running: nat
    ghost var ring: seq<nat>

    ghost function Q(): Queue
      reads this
    {
      Queue(running, ring)
    }

    ghost predicate Valid()
      reads this, next
    {
      && next.Length == MAX_TASKS
      && Sound(Q())
      && Linked(next[..], ring)
      && (running !in ring ==> next[running] == ring[0])
    }

    /** tasking_initialize */
    constructor ()
      ensures Valid() && fresh(next) && Q() == Queue(0, [0])
    {
      next := new nat[MAX_TASKS](_ => 0);
      running, ring := 0, [0];
    }

    method Yield()
      requires Valid()
      modifies `running, `ring
      ensures Valid() && Q() == AfterYield(old(Q()))
    {
      ghost var q := Q();
      RingHead(q);
      AfterSound(q, Switch);
      running := next[running];
      ring := AfterYield(q).ring;
      if q.running in q.ring && |q.ring| > 1 {
        RotateLinked(next[..], q.ring);
      }
    }

    method TaskAdd(task: nat)
      requires Valid() && Possible(Q(), Added(task))
      modifies `ring, next
      ensures Valid() && Q() == AfterAdd(old(Q()), task)
    {
      ghost var q, links := Q(), next[..];
      RingHead(q);
      AfterSound(q, Added(task));
      next[task] := next[running];
      next[running] := task;
      ring := AfterAdd(q, task).ring;
      AddLinked(links, next[..], q.ring, task);
    }

    /** Terminates for any task, in the ring or not, as long as the running task is in it. */
    method TaskRemove(task: nat)
      requires Valid() && running in ring && task < MAX_TASKS && task != 0
      modifies `ring, next
      ensures Valid() && Q() == AfterRemove(old(Q()), task)
    {
      hide Sound, Linked, Distinct, Remove;
      ghost var q, links := Q(), next[..];
      RingHead(q);
      var prev := running;
      ghost var k := 0;
      LinkAt(links, q.ring, 0);
      while next[prev] != task
        invariant Q() == q && next[..] == links && Linked(links, q.ring)
        invariant 0 <= k < |q.ring| && prev == q.ring[k] < |links| && links[prev] == Succ(q.ring, k)
        invariant forall j :: 0 < j <= k ==> q.ring[j] != task
        decreases |q.ring| - k
      {
        prev := next[prev];
        if prev == running {
          LastLink(q.ring, k);
          NotThere(q.ring, task, k);
          return;
        }
        k := k + 1;
        LinkAt(links, q.ring, k);
      }
      ghost var at := if k + 1 == |q.ring| then 0 else k + 1;
      LinkAt(links, q.ring, at);
      RemovedSound(q, at);
      next[prev] := next[task];
      ring := AfterRemove(q, task).ring;
      RemoveLinked(links, next[..], q.ring, at);
      RemovedHead(q, at);
    }
  }

  function Succ(ring: seq<nat>, k: nat): nat
    requires k < |ring|
  {
    if k + 1 == |ring| then ring[0] else ring[k + 1]
  }

  /** Following the links goes once round the ring. */
  ghost predicate Linked(next: seq<nat>, ring: seq<nat>)
  {
    forall k :: 0 <= k < |ring| ==> ring[k] < |next| && next[ring[k]] == Succ(ring, k)
  }

  lemma RingHead(q: Queue)
    requires Sound(q)
    ensures |q.ring| > 0 && Distinct(q.ring) && 0 in q.ring
    ensures q.running in q.ring ==> q.ring[0] == q.running
  {
  }

  lemma RotateLinked(next: seq<nat>, ring: seq<nat>)
    requires Linked(next, ring) && |ring| > 1
    ensures Linked(next, ring[1..] + [ring[0]])
  {
    var r := ring[1..] + [ring[0]];
    forall k | 0 <= k < |r|
      ensures r[k] < |next| && next[r[k]] == Succ(r, k)
    {
      assert r[k] == if k + 1 == |ring| then ring[0] else ring[k + 1];
    }
  }

  lemma AddLinked(old_: seq<nat>, next: seq<nat>, ring: seq<nat>, t: nat)
    requires Linked(old_, ring) && |ring| > 0 && t !in ring && t < |old_| && Distinct(ring)
    requires next == old_[t := old_[ring[0]]][ring[0] := t]
    ensures Linked(next, [ring[0], t] + ring[1..])
  {
    hide Linked;
    var r := [ring[0], t] + ring[1..];
    LinkAt(old_, ring, 0);
    forall k | 0 <= k < |r|
      ensures r[k] < |next| && next[r[k]] == Succ(r, k)
    {
      if k >= 2 {
        LinkAt(old_, ring, k - 1);
        assert r[k] == ring[k - 1] && ring[k - 1] != ring[0] && ring[k - 1] != t;
      }
    }
    MakeLinked(next, r);
  }

  lemma RemoveLinked(old_: seq<nat>, next: seq<nat>, ring: seq<nat>, at: nat)
    requires Linked(old_, ring) && Distinct(ring) && at < |ring| && |ring| > 1
    requires var k := if at == 0 then |ring| - 1 else at - 1; next == old_[ring[k] := old_[ring[at]]]
    ensures Linked(next, ring[..at] + ring[at + 1..])
    ensures at == 0 ==> next[ring[0]] == ring[1]
  {
    hide Linked;
    var r := ring[..at] + ring[at + 1..];
    forall k | 0 <= k < |r|
      ensures r[k] < |next| && next[r[k]] == Succ(r, k)
    {
      RemoveLinkAt(old_, next, ring, at, k);
    }
    LinkAt(old_, ring, 0);
    LinkAt(old_, ring, at);
    MakeLinked(next, r);
  }

  lemma MakeLinked(next: seq<nat>, r: seq<nat>)
    requires forall k :: 0 <= k < |r| ==> r[k] < |next| && next[r[k]] == Succ(r, k)
    ensures Linked(next, r)
  {
  }

  lemma LinkAt(next: seq<nat>, ring: seq<nat>, k: nat)
    requires Linked(next, ring) && k < |ring|
    ensures ring[k] < |next| && next[ring[k]] == Succ(ring, k)
  {
  }

  lemma RemoveLinkAt(old_: seq<nat>, next: seq<nat>, ring: seq<nat>, at: nat, k: nat)
    requires Linked(old_, ring) && Distinct(ring) && at < |ring| && k < |ring| - 1
    requires var p := if at == 0 then |ring| - 1 else at - 1; next == old_[ring[p] := old_[ring[at]]]
    ensures var r := ring[..at] + ring[at + 1..]; r[k] < |next| && next[r[k]] == Succ(r, k)
  {
    hide Linked;
    var r := ring[..at] + ring[at + 1..];
    var j := if k < at then k else k + 1;
    assert r[k] == ring[j];
    LinkAt(old_, ring, j);
    LinkAt(old_, ring, at);
    var p := if at == 0 then |ring| - 1 else at - 1;
    LinkAt(old_, ring, p);
    assert j != p ==> ring[j] != ring[p];
    assert k + 1 < |r| ==> r[k + 1] == ring[if k + 1 < at then k + 1 else k + 2];
    assert r[0] == ring[if at == 0 then 1 else 0];
    if j == p {
      assert next[r[k]] == Succ(ring, at);
    } else {
      assert next[r[k]] == Succ(ring, j);
    }
  }

  lemma LastLink(ring: seq<nat>, k: nat)
    requires Distinct(ring) && k < |ring| && Succ(ring, k) == ring[0]
    ensures k + 1 == |ring|
  {
  }

  lemma RemovedSound(q: Queue, k: nat)
    requires Sound(q) && q.running in q.ring && k < |q.ring| && q.ring[k] != 0
    ensures |q.ring| > 1 && AfterRemove(q, q.ring[k]) == Queue(q.running, q.ring[..k] + q.ring[k + 1..])
    ensures Sound(AfterRemove(q, q.ring[k]))
  {
    hide Distinct, Remove;
    RemoveAt(q.ring, k);
    var r := q.ring[..k] + q.ring[k + 1..];
    Part(q.ring, r, k);
    if q.running in r {
      RemovedHead(q, k);
      assert r[0] == q.ring[0];
    }
  }

  /** Everything but one element: what is left, where, and that nothing else went. */
  lemma Part(s: seq<nat>, r: seq<nat>, k: nat)
    requires Distinct(s) && k < |s| && r == s[..k] + s[k + 1..]
    ensures |r| == |s| - 1 && Distinct(r)
    ensures forall i :: 0 <= i < |r| ==> r[i] == s[if i < k then i else i + 1]
    ensures forall t :: t in s && t != s[k] ==> t in r
  {
    forall i | 0 <= i < |r|
      ensures r[i] == s[if i < k then i else i + 1]
    {
    }
    DistinctPart(s, r, k);
    forall t | t in s && t != s[k]
      ensures t in r
    {
      var z :| 0 <= z < |s| && s[z] == t;
      assert r[if z < k then z else z - 1] == t;
    }
  }

  lemma DistinctPart(s: seq<nat>, r: seq<nat>, k: nat)
    requires Distinct(s) && k < |s| && |r| == |s| - 1
    requires forall i :: 0 <= i < |r| ==> r[i] == s[if i < k then i else i + 1]
    ensures Distinct(r)
  {
  }

  lemma RemovedHead(q: Queue, k: nat)
    requires Sound(q) && q.running in q.ring && k < |q.ring| && |q.ring| > 1
    ensures q.running in q.ring[..k] + q.ring[k + 1..] <==> k != 0
    ensures k == 0 ==> q.running == q.ring[0] && (q.ring[..k] + q.ring[k + 1..])[0] == q.ring[1]
  {
    var r := q.ring[..k] + q.ring[k + 1..];
    if k == 0 {
      assert forall i :: 0 <= i < |r| ==> r[i] == q.ring[i + 1];
    } else {
      assert r[0] == q.ring[0];
    }
  }

  lemma NotThere(ring: seq<nat>, task: nat, k: nat)
    requires k < |ring| && (forall j :: 0 < j <= k ==> ring[j] != task)
    requires Distinct(ring) && Succ(ring, k) == ring[0] && ring[0] != task
    ensures Remove(ring, task) == ring
  {
    assert k + 1 == |ring|;
  }
}
