/** The round-robin thread scheduler with three priority queues. Which threads are ready is
    decided outside: the set of running threads is a parameter of each call. */
module Scheduler {

  type ThreadId = nat

  datatype Thread = Thread(id: ThreadId, priority: nat)

  datatype Queue = Queue(threads: seq<Thread>, next: nat)

  const PRIORITIES: nat := 3

  // ---- The order in which a queue serves its threads ----

  /** The place where a queue starts to look. */
  function Start(q: Queue): nat { if q.next >= |q.threads| then 0 else q.next }

  /** The threads of a queue in the order in which they are looked at. */
  function Rotated(q: Queue): seq<Thread> { q.threads[Start(q)..] + q.threads[..Start(q)] }

  function Ready(threads: seq<Thread>, running: set<ThreadId>): seq<Thread> {
    if threads == [] then []
    else if threads[0].id in running then [threads[0]] + Ready(threads[1..], running)
    else Ready(threads[1..], running)
  }

  /** The ready threads of a queue, in the order in which they will be served. */
  function Turns(q: Queue, running: set<ThreadId>): seq<Thread> { Ready(Rotated(q), running) }

  lemma {:induction false} ReadyConcat(a: seq<Thread>, b: seq<Thread>, running: set<ThreadId>)
    ensures Ready(a + b, running) == Ready(a, running) + Ready(b, running)
  {
    if a == [] {
      assert a + b == b;
    } else {
      ReadyConcat(a[1..], b, running);
      var c := a + b;
      assert c[0] == a[0] && c[1..] == a[1..] + b;
    }
  }

  /** Nothing in front of the first ready thread is ready. */
  lemma {:induction false} ReadySkips(r: seq<Thread>, d: nat, running: set<ThreadId>)
    requires d <= |r| && forall i :: 0 <= i < d ==> r[i].id !in running
    ensures Ready(r[..d], running) == [] && Ready(r, running) == Ready(r[d..], running)
  {
    if d != 0 {
      ReadySkips(r[1..], d - 1, running);
      assert r[..d][1..] == r[1..][..d - 1] && r[1..][d - 1..] == r[d..];
    }
  }

  /** Every ready thread of a queue has its turns, and no other thread has. */
  lemma {:induction false} ReadyExact(threads: seq<Thread>, running: set<ThreadId>, t: Thread)
    ensures multiset(Ready(threads, running))[t] == if t.id in running then multiset(threads)[t] else 0
  {
    if threads != [] {
      ReadyExact(threads[1..], running, t);
      assert threads == [threads[0]] + threads[1..];
    }
  }

  lemma TurnsExact(q: Queue, running: set<ThreadId>, t: Thread)
    ensures multiset(Turns(q, running))[t] == if t.id in running then multiset(q.threads)[t] else 0
  {
    var s := Start(q);
    ReadyExact(Rotated(q), running, t);
    assert q.threads == q.threads[..s] + q.threads[s..];
  }

  lemma TurnsEmpty(q: Queue, running: set<ThreadId>)
    ensures Turns(q, running) == [] <==> forall i :: 0 <= i < |q.threads| ==> q.threads[i].id !in running
  {
    forall i | 0 <= i < |q.threads| ensures q.threads[i].id in running ==> Turns(q, running) != [] {
      TurnsExact(q, running, q.threads[i]);
      assert q.threads[i] in multiset(q.threads);
    }
    if Turns(q, running) != [] {
      var t := Turns(q, running)[0];
      assert t in multiset(Turns(q, running));
      TurnsExact(q, running, t);
      assert t in q.threads;
    }
  }

  /** The index of the thread at distance `d` from the start, and the one behind it. */
  function IndexAt(q: Queue, d: nat): nat
    requires d < |q.threads|
  {
    if Start(q) + d < |q.threads| then Start(q) + d else Start(q) + d - |q.threads|
  }

  function After(i: nat, n: nat): nat { if i + 1 < n then i + 1 else 0 }

  lemma RotatedOn(q: Queue, d: nat)
    requires d < |q.threads|
    ensures IndexAt(q, d) < |q.threads| && |Rotated(q)| == |q.threads| && q.threads[IndexAt(q, d)] == Rotated(q)[d]
    ensures Rotated(Queue(q.threads, After(IndexAt(q, d), |q.threads|))) == Rotated(q)[d + 1..] + Rotated(q)[..d + 1]
  {
    var r, n, q' := Rotated(q), |q.threads|, Queue(q.threads, After(IndexAt(q, d), |q.threads|));
    var x, y := Rotated(q'), r[d + 1..] + r[..d + 1];
    RotatedAt(q, d);
    forall j | 0 <= j < n ensures x[j] == y[j] {
      var m := if j < n - (d + 1) then j + d + 1 else j - (n - (d + 1));
      RotatedAt(q', j);
      RotatedAt(q, m);
      assert IndexAt(q', j) == IndexAt(q, m);
      hide Rotated, IndexAt;
      assert y[j] == r[m];
    }
  }

  lemma RotatedAt(q: Queue, j: nat)
    requires j < |q.threads|
    ensures IndexAt(q, j) < |q.threads| && |Rotated(q)| == |q.threads| && Rotated(q)[j] == q.threads[IndexAt(q, j)]
  {
  }

  /** The thread at distance `d` from the start is the first that is ready. */
  ghost predicate FirstReady(q: Queue, running: set<ThreadId>, d: nat) {
    && d < |q.threads| && |Rotated(q)| == |q.threads| && Rotated(q)[d].id in running
    && forall i :: 0 <= i < d ==> Rotated(q)[i].id !in running
  }

  /** `q'` has the threads of `q`, and looks next behind the thread at distance `d`. */
  ghost predicate TurnedTo(q: Queue, q': Queue, d: nat) {
    && q'.threads == q.threads && d < |Rotated(q)|
    && Rotated(q') == Rotated(q)[d + 1..] + Rotated(q)[..d + 1]
  }

  /** Serving the thread at distance `d` from the start: it goes to the back of the turns. */
  lemma Served(q: Queue, running: set<ThreadId>, d: nat)
    requires FirstReady(q, running, d)
    ensures IndexAt(q, d) < |q.threads| && q.threads[IndexAt(q, d)] == Rotated(q)[d]
    ensures Turns(q, running) != [] && Turns(q, running)[0] == Rotated(q)[d]
    ensures var q' := Queue(q.threads, After(IndexAt(q, d), |q.threads|));
            Turns(q', running) == Turns(q, running)[1..] + [Rotated(q)[d]] && TurnedTo(q, q', d)
  {
    RotatedOn(q, d);
    hide Rotated, IndexAt, After;
    var r := Rotated(q);
    ReadySkips(r, d, running);
    assert r[d..] == [r[d]] + r[d + 1..];
    assert r[..d + 1] == r[..d] + [r[d]];
    ReadyConcat(r[d + 1..], r[..d + 1], running);
    ReadyConcat(r[..d], [r[d]], running);
  }

  // ---- The scheduler ----

  /** The queue that the scheduler looks at: the first that is not empty. */
  ghost function FirstNonEmpty(queues: seq<Queue>): (k: nat)
    ensures k <= |queues|
    ensures forall i :: 0 <= i < k ==> queues[i].threads == []
    ensures k < |queues| ==> queues[k].threads != []
  {
    if queues == [] then 0
    else if queues[0].threads != [] then 0
    else 1 + FirstNonEmpty(queues[1..])
  }

  lemma FirstIs(queues: seq<Queue>, k: nat)
    requires k < |queues| && queues[k].threads != [] && forall i :: 0 <= i < k ==> queues[i].threads == []
    ensures FirstNonEmpty(queues) == k
  {
  }

  /** The turns that are left before the round is over. */
  ghost function AllTurns(queues: seq<Queue>, running: set<ThreadId>): seq<Thread> {
    var k := FirstNonEmpty(queues);
    if k < |queues| then Turns(queues[k], running) else []
  }

  lemma StepIndex(i: nat, n: nat)
    requires i < n
    ensures (i + 1) % n == After(i, n)
  {
  }

  class ThreadScheduler {
    var queues: seq<Queue>
    var currentThread: Thread

    ghost predicate Valid()
      reads this
    {
      |queues| == PRIORITIES
    }

    constructor (idle: Thread)
      ensures Valid() && queues == [Queue([], 0), Queue([], 0), Queue([idle], 0)] && currentThread == idle
    {
      queues := [Queue([], 0), Queue([], 0), Queue([idle], 0)];
      currentThread := idle;
    }

    /** `schedule_next_thread`: the next turn of the first queue that has threads. It fails, by the
        underflow of its skip count or by its last panic, exactly when that queue has no ready thread
        or all queues are empty; queues of lower priority are not considered then. Otherwise the queue
        goes on behind the thread served, which is the first ready one. */
    method ScheduleNext(running: set<ThreadId>) returns (ok: bool, ghost d: nat)
      requires Valid()
      modifies this`queues, this`currentThread
      ensures Valid() && ok == (old(AllTurns(queues, running)) != [])
      ensures !ok ==> currentThread == old(currentThread)
      ensures ok ==>
        && currentThread == old(AllTurns(queues, running))[0] && currentThread.id in running
        && AllTurns(queues, running) == old(AllTurns(queues, running))[1..] + [currentThread]
        && var k := FirstNonEmpty(old(queues));
           && k < PRIORITIES && FirstReady(old(queues)[k], running, d) && currentThread == Rotated(old(queues)[k])[d]
           && TurnedTo(old(queues)[k], queues[k], d) && queues == old(queues)[k := queues[k]]
      ensures forall i :: 0 <= i < PRIORITIES ==> queues[i].threads == old(queues)[i].threads
    {
      hide Turns, Rotated, FirstReady, TurnedTo;
      var k := 0;
      d := 0;
      while k < |queues|
        invariant 0 <= k <= |queues| && queues == old(queues) && currentThread == old(currentThread)
        invariant forall i :: 0 <= i < k ==> queues[i].threads == []
      {
        if queues[k].threads == [] {
          k := k + 1;
          continue;
        }
        FirstIs(queues, k);
        ok, d := ServeQueue(k, running);
        FirstIs(queues, k);
        return;
      }
      ok := false;
    }

    /** `add_thread` */
    method AddThread(thread: Thread)
      requires Valid() && thread.priority < PRIORITIES
      modifies this`queues
      ensures Valid() && queues == old(queues)[thread.priority := queues[thread.priority]]
      ensures var q := old(queues)[thread.priority]; queues[thread.priority] == Queue(q.threads + [thread], q.next)
      ensures old(Placed(queues)) ==> Placed(queues)
    {
      var q := queues[thread.priority];
      queues := queues[thread.priority := Queue(q.threads + [thread], q.next)];
    }

    /** `remove_thread`: when the thread was current, another one is scheduled. */
    method RemoveThread(thread: Thread, running: set<ThreadId>) returns (ok: bool)
      requires Valid() && thread.priority < PRIORITIES
      modifies this`queues, this`currentThread
      ensures Valid()
      ensures forall k :: 0 <= k < PRIORITIES ==>
        queues[k].threads == if k == thread.priority then Without(old(queues)[k].threads, thread.id) else old(queues)[k].threads
      ensures thread.id != old(currentThread).id ==> ok && currentThread == old(currentThread)
      ensures thread.id == old(currentThread).id ==>
        var q := old(queues)[thread.priority];
        var turns := AllTurns(old(queues)[thread.priority := Queue(Without(q.threads, thread.id), q.next)], running);
        ok == (turns != []) && (ok ==> currentThread == turns[0])
    {
      var q := queues[thread.priority];
      queues := queues[thread.priority := Queue(Without(q.threads, thread.id), q.next)];
      ok := true;
      if thread.id == currentThread.id {
        ghost var d;
        ok, d := ScheduleNext(running);
      }
    }

    /** The skip loop over a queue that is not empty. */
    method ServeQueue(k: nat, running: set<ThreadId>) returns (ok: bool, ghost d: nat)
      requires Valid() && k < |queues| && queues[k].threads != []
      modifies this`queues, this`currentThread
      ensures Valid() && ok == (old(Turns(queues[k], running)) != [])
      ensures !ok ==> currentThread == old(currentThread)
      ensures ok ==>
        && currentThread == old(Turns(queues[k], running))[0] && currentThread.id in running
        && Turns(queues[k], running) == old(Turns(queues[k], running))[1..] + [currentThread]
        && FirstReady(old(queues)[k], running, d) && currentThread == Rotated(old(queues)[k])[d]
        && TurnedTo(old(queues)[k], queues[k], d)
      ensures queues == old(queues)[k := queues[k]] && queues[k].threads == old(queues)[k].threads
    {
      hide Rotated, Turns, TurnedTo;
      ghost var q := queues[k];
      var threads, next := queues[k].threads, queues[k].next;
      if next >= |threads| {
        next := 0;
      }
      var skips := |threads|;
      ghost var r := Rotated(q);
      d := 0;
      RotatedAt(q, 0);
      while threads[next].id !in running
        invariant queues == old(queues) && currentThread == old(currentThread)
        invariant 0 <= d <= |threads| && skips == |threads| - d
        invariant next == if Start(q) + d < |threads| then Start(q) + d else Start(q) + d - |threads|
        invariant forall i :: 0 <= i < d ==> r[i].id !in running
        invariant d < |threads| ==> threads[next] == r[d]
        decreases skips
      {
        if skips == 0 {
          // the decrement underflows
          AllSkipped(q, running);
          queues := queues[k := Queue(threads, next)];
          return false, d;
        }
        skips := skips - 1;
        StepIndex(next, |threads|);
        next := (next + 1) % |threads|;
        d := d + 1;
        if d < |threads| { RotatedAt(q, d); }
      }
      if d == |threads| {
        WrappedAround(q, running);
      }
      assert skips > 0;
      Served(q, running, d);
      currentThread := threads[next];
      StepIndex(next, |threads|);
      next := (next + 1) % |threads|;
      queues := queues[k := Queue(threads, next)];
      ok := true;
    }
  }

  /** `Vec::retain` with a thread's id. */
  function Without(threads: seq<Thread>, id: ThreadId): seq<Thread> {
    if threads == [] then []
    else if threads[0].id == id then Without(threads[1..], id)
    else [threads[0]] + Without(threads[1..], id)
  }

  lemma {:induction false} WithoutExact(threads: seq<Thread>, id: ThreadId, t: Thread)
    ensures multiset(Without(threads, id))[t] == if t.id == id then 0 else multiset(threads)[t]
  {
    if threads != [] {
      WithoutExact(threads[1..], id, t);
      assert threads == [threads[0]] + threads[1..];
    }
  }

  /** Threads are in the queue of their priority. */
  ghost predicate Placed(queues: seq<Queue>) {
    forall k, t :: 0 <= k < |queues| && t in queues[k].threads ==> t.priority == k
  }

  /** A thread that was removed from the queue of its priority is in no queue. */
  lemma RemovedEverywhere(queues: seq<Queue>, thread: Thread, k: nat, t: Thread)
    requires Placed(queues) && thread.priority < |queues| && k < |queues|
    requires forall j, u :: 0 <= j < |queues| && u in queues[j].threads && u.id == thread.id ==> u.priority == thread.priority
    ensures var q := queues[thread.priority];
            var after := queues[thread.priority := Queue(Without(q.threads, thread.id), q.next)];
            Placed(after) && (t in after[k].threads <==> t in queues[k].threads && t.id != thread.id)
  {
    var q := queues[thread.priority];
    var after := queues[thread.priority := Queue(Without(q.threads, thread.id), q.next)];
    forall u ensures u in Without(q.threads, thread.id) <==> u in q.threads && u.id != thread.id {
      WithoutExact(q.threads, thread.id, u);
      assert u in Without(q.threads, thread.id) <==> u in multiset(Without(q.threads, thread.id));
      assert u in q.threads <==> u in multiset(q.threads);
    }
  }

  lemma AllSkipped(q: Queue, running: set<ThreadId>)
    requires forall i :: 0 <= i < |q.threads| ==> Rotated(q)[i].id !in running
    ensures Turns(q, running) == []
  {
    ReadySkips(Rotated(q), |q.threads|, running);
    assert Rotated(q)[|q.threads|..] == [];
  }

  /** When every thread was skipped, the first one that was looked at is not ready. */
  lemma WrappedAround(q: Queue, running: set<ThreadId>)
    requires q.threads != [] && forall i :: 0 <= i < |q.threads| ==> Rotated(q)[i].id !in running
    ensures q.threads[Start(q)].id !in running
  {
    assert Rotated(q)[0] == q.threads[Start(q)];
  }

  /** Any number of calls up to the number of ready threads serves that many different turns, in
      order; after as many calls as there are ready threads each has run once and the order is the
      same again. The set of running threads does not change meanwhile. */
  method ScheduleMany(s: ThreadScheduler, running: set<ThreadId>, n: nat) returns (picks: seq<Thread>)
    requires s.Valid() && n <= |AllTurns(s.queues, running)|
    modifies s
    ensures s.Valid()
    ensures picks == old(AllTurns(s.queues, running))[..n]
    ensures AllTurns(s.queues, running) == old(AllTurns(s.queues, running))[n..] + picks
  {
    ghost var turns := AllTurns(s.queues, running);
    picks := [];
    hide AllTurns;
    while |picks| < n
      invariant |picks| <= n && s.Valid() && picks == turns[..|picks|]
      invariant AllTurns(s.queues, running) == turns[|picks|..] + turns[..|picks|]
      decreases n - |picks|
    {
      ghost var i := |picks|;
      assert (turns[i..] + turns[..i])[0] == turns[i];
      var ok;
      ghost var d;
      ok, d := s.ScheduleNext(running);
      assert turns[..i + 1] == turns[..i] + [turns[i]];
      assert (turns[i..] + turns[..i])[1..] + [turns[i]] == turns[i + 1..] + turns[..i + 1];
      picks := picks + [s.currentThread];
    }
  }

  /** One call serves a ready thread of the queue, or brings it closer. */
  lemma Closer(q: Queue, q': Queue, running: set<ThreadId>, d: nat, p: nat)
    requires FirstReady(q, running, d) && TurnedTo(q, q', d) && p < |q.threads| && Rotated(q)[p].id in running
    ensures d <= p && |Rotated(q')| == |q.threads|
    ensures d < p ==> Rotated(q')[p - d - 1] == Rotated(q)[p]
  {
    hide Rotated;
  }

  /** Bounded waiting: a thread of the first queue that has threads, and that stays ready, is served
      within as many calls as the queue has threads, whatever happens to the other threads between the
      calls. */
  method ScheduleVarying(s: ThreadScheduler, running: seq<set<ThreadId>>, t: Thread) returns (picks: seq<Thread>)
    requires s.Valid() && forall i :: 0 <= i < |running| ==> t.id in running[i]
    requires var k := FirstNonEmpty(s.queues); k < PRIORITIES && t in s.queues[k].threads
    modifies s
    ensures s.Valid() && |picks| == |running| && forall i :: 0 <= i < |picks| ==> picks[i].id in running[i]
    ensures forall i :: 0 <= i < PRIORITIES ==> s.queues[i].threads == old(s.queues)[i].threads
    ensures var n := |old(s.queues)[FirstNonEmpty(old(s.queues))].threads|;
            |running| >= n ==> exists i :: 0 <= i < n && picks[i] == t
  {
    hide Rotated, Turns, FirstReady, TurnedTo, AllTurns;
    ghost var k := FirstNonEmpty(s.queues);
    ghost var n := |s.queues[k].threads|;
    ghost var p := PlaceOf(s.queues[k], t);
    ghost var at := n;
    picks := [];
    while |picks| < |running|
      invariant s.Valid() && |picks| <= |running| && FirstNonEmpty(s.queues) == k
      invariant forall i :: 0 <= i < |picks| ==> picks[i].id in running[i]
      invariant forall i :: 0 <= i < PRIORITIES ==> s.queues[i].threads == old(s.queues)[i].threads
      invariant 0 <= p < n == |Rotated(s.queues[k])| && Rotated(s.queues[k])[p] == t
      invariant if at < n then 0 <= at < |picks| && picks[at] == t else p + |picks| < n
      decreases |running| - |picks|
    {
      ghost var q := s.queues[k];
      var i := |picks|;
      var ok;
      ghost var d;
      ReadyHasTurn(s.queues, running[i], k, p);
      ok, d := s.ScheduleNext(running[i]);
      Closer(q, s.queues[k], running[i], d, p);
      FirstIs(s.queues, k);
      picks := picks + [s.currentThread];
      if d == p {
        at := if at < n then at else i;
        p := PlaceOf(s.queues[k], t);
      } else {
        p := p - d - 1;
      }
    }
  }

  lemma PlaceOf(q: Queue, t: Thread) returns (p: nat)
    requires t in q.threads
    ensures p < |q.threads| == |Rotated(q)| && Rotated(q)[p] == t
  {
    var i :| 0 <= i < |q.threads| && q.threads[i] == t;
    p := if i >= Start(q) then i - Start(q) else i + |q.threads| - Start(q);
  }

  lemma ReadyHasTurn(queues: seq<Queue>, running: set<ThreadId>, k: nat, p: nat)
    requires k == FirstNonEmpty(queues) < |queues| && p < |queues[k].threads| == |Rotated(queues[k])|
    requires Rotated(queues[k])[p].id in running
    ensures AllTurns(queues, running) != []
  {
    RotatedAt(queues[k], p);
    TurnsEmpty(queues[k], running);
  }

  /** The documentation says that lower priorities are considered when no thread of a queue is
      ready. That is so exactly when no queue that has threads but no ready one comes before the
      first ready thread. */
  lemma FallThroughIff(queues: seq<Queue>, running: set<ThreadId>)
    ensures AllTurns(queues, running) != [] <==>
      exists k :: 0 <= k < |queues| && Turns(queues[k], running) != [] && forall i :: 0 <= i < k ==> queues[i].threads == []
  {
    var k := FirstNonEmpty(queues);
    if j :| 0 <= j < |queues| && Turns(queues[j], running) != [] && forall i :: 0 <= i < j ==> queues[i].threads == [] {
      assert queues[j].threads != [];
      FirstIs(queues, j);
    }
  }

  /** A waiting thread of high priority keeps the idle thread from being scheduled. */
  lemma FallThroughFails()
    ensures var queues := [Queue([Thread(1, 0)], 0), Queue([], 0), Queue([Thread(0, 2)], 0)];
            Turns(queues[2], {0}) == [Thread(0, 2)] && AllTurns(queues, {0}) == []
  {
    var queues := [Queue([Thread(1, 0)], 0), Queue([], 0), Queue([Thread(0, 2)], 0)];
    FirstIs(queues, 0);
    assert Rotated(queues[0]) == [Thread(1, 0)] && Rotated(queues[2]) == [Thread(0, 2)];
  }
}
