/** The queue refines an atomic bounded FIFO, so it is linearizable: each call takes effect in
    one step between its call and its return. */
module SharedQueueRefinement {
  import opened Wrappers
  import opened QueueStamps
  import opened SharedQueue
  import opened SharedQueueProofs

  // ---- The specification: a FIFO whose operations are atomic ----

  datatype Call<T> =
    | Quiet
    | Posting(v: T)
    | Polling
    | Posted(rejected: Option<T>)
    | Polled(result: Option<T>)

  /** `enqueued[dequeued..]` is the content. */
  datatype Fifo<T> = Fifo(capacity: nat, enqueued: seq<T>, dequeued: nat, calls: map<ThreadId, Call<T>>)
  {
    ghost predicate Valid() { dequeued <= |enqueued| <= dequeued + capacity }

    ghost function Content(): seq<T>
      requires Valid()
    {
      enqueued[dequeued..]
    }
  }

  ghost predicate FifoInitial<T>(f: Fifo<T>) {
    && f.enqueued == [] && f.dequeued == 0
    && forall t :: t in f.calls ==> f.calls[t] == Quiet
  }

  /** How the call of one thread may move together with the content: it starts, takes effect
      atomically, returns, or nothing visible happens. */
  ghost predicate FifoEffect<T>(f: Fifo<T>, before: Call<T>, g: Fifo<T>, after: Call<T>)
    requires f.Valid()
  {
    var same := g.enqueued == f.enqueued && g.dequeued == f.dequeued;
    match after
    case Quiet => same && (before.Quiet? || before.Posted? || before.Polled?)
    case Posting(v) => same && (before.Quiet? || before == after)
    case Polling => same && (before.Quiet? || before == after)
    case Posted(rejected) =>
      || (before == after && same)
      || (before.Posting? && rejected == None && |f.Content()| < f.capacity
          && g.enqueued == f.enqueued + [before.v] && g.dequeued == f.dequeued)
      || (before.Posting? && rejected == Some(before.v) && |f.Content()| == f.capacity && same)
    case Polled(result) =>
      || (before == after && same)
      || (before.Polling? && |f.Content()| > 0 && result == Some(f.Content()[0])
          && g.dequeued == f.dequeued + 1 && g.enqueued == f.enqueued)
      || (before.Polling? && result == None && f.Content() == [] && same)
  }

  /** A step of thread `t`: the calls of the other threads stand still. */
  ghost predicate FifoNext<T>(f: Fifo<T>, g: Fifo<T>, t: ThreadId) {
    && f.Valid() && g.Valid() && t in f.calls && t in g.calls
    && g.capacity == f.capacity
    && g.calls == f.calls[t := g.calls[t]]
    && FifoEffect(f, f.calls[t], g, g.calls[t])
  }

  // ---- The abstraction ----

  /** A poll has its answer as soon as its head claim succeeds, before it reads the slot. */
  ghost function AbstractCall<T>(c: Config, m: Memory<T>, th: Thread<T>): Call<T>
    requires Counters(c, m) && ThreadOk(c, m, th)
  {
    match th
    case Idle => Quiet
    case PostLoadTail(v) => Posting(v)
    case PostLoadStamp(v, _) => Posting(v)
    case PostCas(v, _) => Posting(v)
    case PostLoadHead(v, _) => Posting(v)
    case PostWrite(_, _) => Posted(None)
    case PostStamp(_, _) => Posted(None)
    case PostDone(rejected) => Posted(rejected)
    case PollLoadHead => Polling
    case PollLoadStamp(_) => Polling
    case PollCas(_) => Polling
    case PollLoadTail(_) => Polling
    case PollRead(head) => Polled(Some(m.posted[PositionOf(c, head)]))
    case PollStamp(_, msg) => Polled(Some(msg))
    case PollDone(result) => Polled(result)
  }

  ghost function Abstract<T>(c: Config, s: State<T>): Fifo<T>
    requires Inv(c, s)
  {
    Fifo(c.capacity, s.mem.posted, s.mem.polled,
         map t | t in s.threads :: AbstractCall(c, s.mem, s.threads[t]))
  }

  /** `post` fails only at an instant when the queue holds exactly `capacity` values. */
  lemma RejectionIsExact<T>(c: Config, m: Memory<T>, th: Thread<T>)
    requires Counters(c, m) && ThreadOk(c, m, th) && th.PostLoadHead?
    requires PostStep(c, m, th, false).1.PostDone?
    ensures |m.posted| == m.polled + c.capacity
  {
    var p := PositionOf(c, th.tail);
    assert Stamp(c, m.polled + c.capacity) == m.head + c.oneLap;
    StampInjective(c, p, m.polled + c.capacity);
  }

  /** `poll` answers `None` only at an instant when the queue is empty. */
  lemma EmptinessIsExact<T>(c: Config, m: Memory<T>, th: Thread<T>)
    requires Counters(c, m) && ThreadOk(c, m, th) && th.PollLoadTail?
    requires PollStep(c, m, th, false).1.PollDone?
    ensures |m.posted| == m.polled
  {
    StampInjective(c, PositionOf(c, th.head), |m.posted|);
  }

  lemma SameMeaning<T>(c: Config, m: Memory<T>, m': Memory<T>, th: Thread<T>)
    requires Counters(c, m) && ThreadOk(c, m, th) && Counters(c, m') && ThreadOk(c, m', th)
    requires m.posted <= m'.posted
    ensures AbstractCall(c, m', th) == AbstractCall(c, m, th)
  {
  }

  /** The effect of one step of `post`: it takes effect at its tail claim, or at the load of the
      head that finds the queue full. */
  lemma PostEffect<T>(c: Config, m: Memory<T>, th: Thread<T>, weak: bool)
    requires MemoryOk(c, m) && ThreadOk(c, m, th) && th.InPost()
    requires var (m', th') := PostStep(c, m, th, weak); Counters(c, m') && ThreadOk(c, m', th')
    ensures var (m', th') := PostStep(c, m, th, weak);
            m.posted <= m'.posted && Effect(c, m, th, m', th')
  {
    if th.PostLoadHead? {
      if PostStep(c, m, th, weak).1.PostDone? { RejectionIsExact(c, m, th); }
    } else if th.PostCas? {
      if m.tail == th.tail && !weak { TailClaimFindsRoom(c, m, th); }
    }
  }

  lemma HeadClaimEffect<T>(c: Config, m: Memory<T>, th: Thread<T>)
    requires MemoryOk(c, m) && ThreadOk(c, m, th) && th.PollCas? && m.head == th.head
    requires var (m', th') := PollStep(c, m, th, false); Counters(c, m') && ThreadOk(c, m', th')
    ensures var (m', th') := PollStep(c, m, th, false); Effect(c, m, th, m', th')
  {
    HeadClaimFindsValue(c, m, th);
  }

  /** The effect of one step of `poll`: it takes effect at its head claim, or at the load of the
      tail that finds the queue empty. */
  lemma PollEffect<T>(c: Config, m: Memory<T>, th: Thread<T>, weak: bool)
    requires MemoryOk(c, m) && ThreadOk(c, m, th) && th.InPoll()
    requires var (m', th') := PollStep(c, m, th, weak); Counters(c, m') && ThreadOk(c, m', th')
    ensures var (m', th') := PollStep(c, m, th, weak);
            m.posted == m'.posted && Effect(c, m, th, m', th')
  {
    if th.PollCas? && m.head == th.head && !weak {
      HeadClaimEffect(c, m, th);
    } else if th.PollLoadTail? && m.tail == th.head {
      EmptinessIsExact(c, m, th);
    } else if th.PollRead? {
      StampIndex(c, PositionOf(c, th.head));
    }
  }

  ghost predicate Effect<T>(c: Config, m: Memory<T>, th: Thread<T>, m': Memory<T>, th': Thread<T>)
    requires Counters(c, m) && ThreadOk(c, m, th) && Counters(c, m') && ThreadOk(c, m', th')
  {
    FifoEffect(Fifo(c.capacity, m.posted, m.polled, map[]), AbstractCall(c, m, th),
               Fifo(c.capacity, m'.posted, m'.polled, map[]), AbstractCall(c, m', th'))
  }

  lemma StepEffect<T>(c: Config, m: Memory<T>, th: Thread<T>, a: Action<T>)
    requires MemoryOk(c, m) && ThreadOk(c, m, th)
    ensures var (m', th') := Step(c, m, th, a);
            MemoryOk(c, m') && ThreadOk(c, m', th') && m.posted <= m'.posted && Effect(c, m, th, m', th')
  {
    StepOk(c, m, th, a);
    if a.Run? && th.InPost() {
      PostEffect(c, m, th, a.weakFailure);
    } else if a.Run? && th.InPoll() {
      PollEffect(c, m, th, a.weakFailure);
    }
  }

  /** The calls of the other threads keep their abstract meaning. */
  lemma OtherCallsKept<T>(c: Config, s: State<T>, s': State<T>, t: ThreadId)
    requires Inv(c, s) && Inv(c, s') && t in s.threads && t in s'.threads
    requires s'.threads == s.threads[t := s'.threads[t]] && s.mem.posted <= s'.mem.posted
    ensures Abstract(c, s').calls == Abstract(c, s).calls[t := Abstract(c, s').calls[t]]
  {
    forall u | u in s.threads && u != t
      ensures AbstractCall(c, s'.mem, s'.threads[u]) == AbstractCall(c, s.mem, s.threads[u])
    {
      SameMeaning(c, s.mem, s'.mem, s.threads[u]);
    }
  }

  /** Every step of the queue is a step of the FIFO. */
  lemma NextRefines<T>(c: Config, s: State<T>, t: ThreadId, a: Action<T>)
    requires Inv(c, s) && t in s.threads
    ensures Inv(c, Next(c, s, t, a))
    ensures FifoNext(Abstract(c, s), Abstract(c, Next(c, s, t, a)), t)
  {
    NextInv(c, s, t, a);
    var (m', th') := Step(c, s.mem, s.threads[t], a);
    var s' := State(m', s.threads[t := th']);
    StepEffect(c, s.mem, s.threads[t], a);
    OtherCallsKept(c, s, s', t);
  }

  // ---- Whole runs ----

  /** A schedule says which thread moves next and how. */
  type Schedule<T> = seq<(ThreadId, Action<T>)>

  ghost predicate Schedules<T>(run: Schedule<T>, ids: set<ThreadId>) {
    forall i :: 0 <= i < |run| ==> run[i].0 in ids
  }

  ghost function After<T>(c: Config, ids: set<ThreadId>, run: Schedule<T>): (s: State<T>)
    requires ValidConfig(c) && Schedules(run, ids)
    ensures s.threads.Keys == ids
  {
    if run == [] then Initial(c, ids)
    else Next(c, After(c, ids, run[..|run| - 1]), run[|run| - 1].0, run[|run| - 1].1)
  }

  lemma {:induction false} ReachableInv<T>(c: Config, ids: set<ThreadId>, run: Schedule<T>)
    requires ValidConfig(c) && Schedules(run, ids)
    ensures Inv(c, After(c, ids, run))
  {
    if run == [] {
      InitialInv<T>(c, ids);
    } else {
      var n := |run| - 1;
      ReachableInv(c, ids, run[..n]);
      NextInv(c, After(c, ids, run[..n]), run[n].0, run[n].1);
    }
  }

  /** For any number of threads and any interleaving, the run of the queue is a run of the FIFO:
      it starts empty, and step `i` is a FIFO step of the thread that moved. */
  lemma RunRefinesFifo<T>(c: Config, ids: set<ThreadId>, run: Schedule<T>)
    requires ValidConfig(c) && Schedules(run, ids)
    ensures forall i :: 0 <= i <= |run| ==> Inv(c, After(c, ids, run[..i]))
    ensures FifoInitial(Abstract(c, After(c, ids, run[..0])))
    ensures forall i :: 0 <= i < |run| ==>
      FifoNext(Abstract(c, After(c, ids, run[..i])), Abstract(c, After(c, ids, run[..i + 1])), run[i].0)
  {
    forall i | 0 <= i <= |run| ensures Inv(c, After(c, ids, run[..i])) {
      ReachableInv(c, ids, run[..i]);
    }
    forall i | 0 <= i < |run|
      ensures FifoNext(Abstract(c, After(c, ids, run[..i])), Abstract(c, After(c, ids, run[..i + 1])), run[i].0)
    {
      assert run[..i + 1][..i] == run[..i];
      NextRefines(c, After(c, ids, run[..i]), run[i].0, run[i].1);
    }
  }

  /** In every reachable state no two threads access the same slot, no slot index is out of
      bounds, and a value about to be returned is the one posted at the claimed position. */
  lemma ReachableExclusive<T>(c: Config, ids: set<ThreadId>, run: Schedule<T>, t: ThreadId, u: ThreadId)
    requires ValidConfig(c) && Schedules(run, ids) && t in ids && u in ids && t != u
    ensures var s := After(c, ids, run);
            var x, y := s.threads[t], s.threads[u];
            && !x.Broken?
            && ((Writing(x) || Reading(x)) && (Writing(y) || Reading(y)) ==>
                SlotOf(c, Claim(c, x)) != SlotOf(c, Claim(c, y)))
            && (x.PollStamp? ==> Claim(c, x) < |s.mem.posted| && x.msg == s.mem.posted[Claim(c, x)])
  {
    ReachableInv(c, ids, run);
    var s := After(c, ids, run);
    var x, y := s.threads[t], s.threads[u];
    if (Writing(x) || Reading(x)) && (Writing(y) || Reading(y)) {
      ClaimIsExclusive(c, s.mem, x, y);
    }
  }
}
