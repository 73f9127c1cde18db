/** Every step of every thread keeps the queue invariant, so it holds in every reachable state
    under any interleaving of any number of threads. */
module SharedQueueProofs {
  import opened Wrappers
  import opened QueueStamps
  import opened SharedQueue

  lemma InitialInv<T>(c: Config, ids: set<ThreadId>)
    requires ValidConfig(c)
    ensures Inv(c, Initial<T>(c, ids))
  {
    var m := Initial<T>(c, ids).mem;
    forall p: nat | m.polled <= p < m.polled + c.capacity ensures SlotOk(c, m, p) {
      SlotSmall(c, p);
    }
  }

  /** The position whose slot thread `th` writes or reads, or whose stamp its pending
      compare-exchange relies on. */
  ghost function Reliance<T>(c: Config, m: Memory<T>, th: Thread<T>): Option<nat>
    requires c.oneLap > 0
  {
    if Writing(th) || Reading(th) then Some(Claim(c, th))
    else if th.PostCas? && PositionOf(c, th.tail) == |m.posted| then Some(|m.posted|)
    else if th.PollCas? && PositionOf(c, th.head) == m.polled then Some(m.polled)
    else None
  }

  lemma WriterIsExclusive<T>(c: Config, m: Memory<T>, x: Thread<T>, y: Thread<T>)
    requires MemoryOk(c, m) && ThreadOk(c, m, x) && ThreadOk(c, m, y) && Distinct(c, x, y)
    requires Writing(x) && Reliance(c, m, y).Some?
    ensures SlotOf(c, Reliance(c, m, y).value) != SlotOf(c, Claim(c, x))
  {
    var p, q := Claim(c, x), Reliance(c, m, y).value;
    if SlotOf(c, p) == SlotOf(c, q) {
      if p < q {
        SameSlot(c, p, q);
      } else if q < p {
        SameSlot(c, q, p);
      }
    }
  }

  lemma ReaderIsExclusive<T>(c: Config, m: Memory<T>, x: Thread<T>, y: Thread<T>)
    requires MemoryOk(c, m) && ThreadOk(c, m, x) && ThreadOk(c, m, y) && Distinct(c, x, y)
    requires Reading(x) && Reliance(c, m, y).Some?
    ensures SlotOf(c, Reliance(c, m, y).value) != SlotOf(c, Claim(c, x))
  {
    var p, q := Claim(c, x), Reliance(c, m, y).value;
    if SlotOf(c, p) == SlotOf(c, q) {
      if p < q {
        SameSlot(c, p, q);
      } else if q < p {
        SameSlot(c, q, p);
      }
    }
  }

  /** A thread that holds a claim is the only one with access to the slot of that claim: nobody
      else holds a claim on the slot, and no pending compare-exchange relies on its stamp. */
  lemma ClaimIsExclusive<T>(c: Config, m: Memory<T>, x: Thread<T>, y: Thread<T>)
    requires MemoryOk(c, m) && ThreadOk(c, m, x) && ThreadOk(c, m, y) && Distinct(c, x, y)
    requires Writing(x) || Reading(x)
    requires Reliance(c, m, y).Some?
    ensures SlotOf(c, Reliance(c, m, y).value) != SlotOf(c, Claim(c, x))
  {
    if Writing(x) { WriterIsExclusive(c, m, x, y); } else { ReaderIsExclusive(c, m, x, y); }
  }

  /** How a step of thread `x` must leave any other thread `y`. */
  ghost predicate Undisturbed<T>(c: Config, m: Memory<T>, x: Thread<T>, m': Memory<T>, x': Thread<T>, y: Thread<T>) {
    Counters(c, m) && Counters(c, m') && ThreadOk(c, m, y) && Distinct(c, x, y) ==>
      ThreadOk(c, m', y) && Distinct(c, x', y) && Distinct(c, y, x')
  }

  /** The holder of a claim writes its slot, which is the slot of position `w` of the window. */
  lemma SlotWriteMemory<T>(c: Config, m: Memory<T>, slot: Slot<T>, w: nat)
    requires MemoryOk(c, m)
    requires m.polled <= w < m.polled + c.capacity
    requires SlotOk(c, m.(slots := m.slots[SlotOf(c, w) := slot]), w)
    ensures MemoryOk(c, m.(slots := m.slots[SlotOf(c, w) := slot]))
  {
    var m' := m.(slots := m.slots[SlotOf(c, w) := slot]);
    forall p: nat | m'.polled <= p < m'.polled + c.capacity ensures SlotOk(c, m', p) {
      assert SlotOk(c, m, p);
      if p < w && SlotOf(c, p) == SlotOf(c, w) { SameSlot(c, p, w); }
      if w < p && SlotOf(c, p) == SlotOf(c, w) { SameSlot(c, w, p); }
    }
  }

  /** Other threads do not notice what the holder of a claim writes to its slot. */
  lemma SlotWriteUnnoticed<T>(c: Config, m: Memory<T>, x: Thread<T>, slot: Slot<T>, y: Thread<T>)
    requires MemoryOk(c, m) && ThreadOk(c, m, x) && (Writing(x) || Reading(x))
    requires ThreadOk(c, m, y) && Distinct(c, x, y)
    ensures ThreadOk(c, m.(slots := m.slots[SlotOf(c, Claim(c, x)) := slot]), y)
  {
    if Reliance(c, m, y).Some? {
      ClaimIsExclusive(c, m, x, y);
    }
  }

  /** A successful tail compare-exchange finds a free slot below capacity. */
  lemma TailClaimFindsRoom<T>(c: Config, m: Memory<T>, x: Thread<T>)
    requires MemoryOk(c, m) && ThreadOk(c, m, x) && x.PostCas? && m.tail == x.tail
    ensures |m.posted| < m.polled + c.capacity
    ensures m.slots[SlotOf(c, |m.posted|)].stamp == m.tail
    ensures PositionOf(c, m.tail) == |m.posted|
  {
    PositionOfStamp(c, |m.posted|);
    assert SlotOk(c, m, m.polled);
  }

  lemma TailClaim<T>(c: Config, m: Memory<T>, x: Thread<T>)
    requires MemoryOk(c, m) && ThreadOk(c, m, x) && x.PostCas? && m.tail == x.tail
    ensures var (m', x') := PostStep(c, m, x, false); MemoryOk(c, m') && ThreadOk(c, m', x')
  {
    TailClaimFindsRoom(c, m, x);
    StampAdvance(c, |m.posted|);
    var (m', x') := PostStep(c, m, x, false);
    forall p: nat | m'.polled <= p < m'.polled + c.capacity ensures SlotOk(c, m', p) {
      assert SlotOk(c, m, p);
    }
  }

  lemma TailClaimKeepsThread<T>(c: Config, m: Memory<T>, v: T, tail: nat, y: Thread<T>)
    requires Counters(c, m) && ThreadOk(c, m, y)
    requires m.slots[SlotOf(c, |m.posted|)].stamp == m.tail
    requires Counters(c, m.(tail := tail, posted := m.posted + [v]))
    ensures ThreadOk(c, m.(tail := tail, posted := m.posted + [v]), y)
  {
    if Reading(y) {
      assert Claim(c, y) + c.capacity != |m.posted|;
    }
  }

  lemma TailClaimUnnoticed<T>(c: Config, m: Memory<T>, x: Thread<T>, y: Thread<T>)
    requires MemoryOk(c, m) && ThreadOk(c, m, x) && x.PostCas? && m.tail == x.tail
    ensures var (m', x') := PostStep(c, m, x, false); Undisturbed(c, m, x, m', x', y)
  {
    TailClaimFindsRoom(c, m, x);
    var (m', x') := PostStep(c, m, x, false);
    if Counters(c, m') && ThreadOk(c, m, y) {
      TailClaimKeepsThread(c, m, x.v, m'.tail, y);
    }
  }

  /** A successful head compare-exchange finds a completely written value. */
  lemma HeadClaimFindsValue<T>(c: Config, m: Memory<T>, x: Thread<T>)
    requires MemoryOk(c, m) && ThreadOk(c, m, x) && x.PollCas? && m.head == x.head
    ensures m.polled < |m.posted|
    ensures m.slots[SlotOf(c, m.polled)] == Slot(m.head + 1, Some(m.posted[m.polled]))
    ensures PositionOf(c, m.head) == m.polled
  {
    PositionOfStamp(c, m.polled);
    assert SlotOk(c, m, m.polled);
  }

  lemma HeadClaim<T>(c: Config, m: Memory<T>, x: Thread<T>)
    requires MemoryOk(c, m) && ThreadOk(c, m, x) && x.PollCas? && m.head == x.head
    ensures var (m', x') := PollStep(c, m, x, false); MemoryOk(c, m') && ThreadOk(c, m', x')
  {
    HeadClaimFindsValue(c, m, x);
    StampAdvance(c, m.polled);
    var (m', x') := PollStep(c, m, x, false);
    forall p: nat | m'.polled <= p < m'.polled + c.capacity ensures SlotOk(c, m', p) {
      if p < m.polled + c.capacity { assert SlotOk(c, m, p); }
    }
  }

  lemma HeadClaimKeepsThread<T>(c: Config, m: Memory<T>, head: nat, y: Thread<T>)
    requires Counters(c, m) && ThreadOk(c, m, y)
    requires m.slots[SlotOf(c, m.polled)].stamp == m.head + 1
    requires Counters(c, m.(head := head, polled := m.polled + 1))
    ensures ThreadOk(c, m.(head := head, polled := m.polled + 1), y)
  {
    if Writing(y) {
      assert Claim(c, y) != m.polled;
    }
  }

  lemma HeadClaimUnnoticed<T>(c: Config, m: Memory<T>, x: Thread<T>, y: Thread<T>)
    requires MemoryOk(c, m) && ThreadOk(c, m, x) && x.PollCas? && m.head == x.head
    ensures var (m', x') := PollStep(c, m, x, false); Undisturbed(c, m, x, m', x', y)
  {
    HeadClaimFindsValue(c, m, x);
    var (m', x') := PollStep(c, m, x, false);
    if Counters(c, m') && ThreadOk(c, m, y) {
      HeadClaimKeepsThread(c, m, m'.head, y);
    }
  }

  /** One step of `post` keeps the memory and the thread itself consistent. */
  lemma PostStepOk<T>(c: Config, m: Memory<T>, x: Thread<T>, weak: bool)
    requires MemoryOk(c, m) && ThreadOk(c, m, x) && x.InPost()
    ensures var (m', x') := PostStep(c, m, x, weak); MemoryOk(c, m') && ThreadOk(c, m', x')
  {
    if x.PostCas? && m.tail == x.tail && !weak {
      TailClaim(c, m, x);
    } else if x.PostWrite? || x.PostStamp? {
      var p := PositionOf(c, x.tail);
      StampIndex(c, p);
      SlotWriteMemory(c, m, PostStep(c, m, x, weak).0.slots[SlotOf(c, p)], p);
    } else {
      PositionOfStamp(c, |m.posted|);
      if x.PostLoadStamp? { StampIndex(c, PositionOf(c, x.tail)); }
    }
  }

  lemma SameMemoryUnnoticed<T>(c: Config, m: Memory<T>, x: Thread<T>, x': Thread<T>, y: Thread<T>)
    requires c.oneLap > 0
    requires Writing(x') ==> Writing(x) && Claim(c, x') == Claim(c, x)
    requires Reading(x') ==> Reading(x) && Claim(c, x') == Claim(c, x)
    ensures Undisturbed(c, m, x, m, x', y)
  {
  }

  lemma PostSlotUnnoticed<T>(c: Config, m: Memory<T>, x: Thread<T>, weak: bool, y: Thread<T>)
    requires MemoryOk(c, m) && ThreadOk(c, m, x) && Writing(x)
    requires ThreadOk(c, m, y) && Distinct(c, x, y)
    ensures var (m', x') := PostStep(c, m, x, weak);
            Counters(c, m') ==> ThreadOk(c, m', y) && Distinct(c, x', y) && Distinct(c, y, x')
  {
    var p := PositionOf(c, x.tail);
    StampIndex(c, p);
    SlotWriteUnnoticed(c, m, x, PostStep(c, m, x, weak).0.slots[SlotOf(c, p)], y);
  }

  /** One step of `post` leaves every other thread undisturbed. */
  lemma PostStepUnnoticed<T>(c: Config, m: Memory<T>, x: Thread<T>, weak: bool, y: Thread<T>)
    requires MemoryOk(c, m) && ThreadOk(c, m, x) && x.InPost()
    ensures var (m', x') := PostStep(c, m, x, weak); Undisturbed(c, m, x, m', x', y)
  {
    if x.PostCas? && m.tail == x.tail && !weak {
      TailClaimUnnoticed(c, m, x, y);
    } else if Writing(x) {
      if ThreadOk(c, m, y) && Distinct(c, x, y) { PostSlotUnnoticed(c, m, x, weak, y); }
    } else {
      SameMemoryUnnoticed(c, m, x, PostStep(c, m, x, weak).1, y);
    }
  }

  lemma PollReleaseOk<T>(c: Config, m: Memory<T>, x: Thread<T>, weak: bool)
    requires MemoryOk(c, m) && ThreadOk(c, m, x) && x.PollStamp?
    ensures MemoryOk(c, PollStep(c, m, x, weak).0)
  {
    var p := PositionOf(c, x.head);
    StampIndex(c, p);
    SlotWriteMemory(c, m, PollStep(c, m, x, weak).0.slots[SlotOf(c, p)], p + c.capacity);
  }

  /** One step of `poll` keeps the memory and the thread itself consistent. */
  lemma PollStepOk<T>(c: Config, m: Memory<T>, x: Thread<T>, weak: bool)
    requires MemoryOk(c, m) && ThreadOk(c, m, x) && x.InPoll()
    ensures var (m', x') := PollStep(c, m, x, weak); MemoryOk(c, m') && ThreadOk(c, m', x')
  {
    if x.PollCas? && m.head == x.head && !weak {
      HeadClaim(c, m, x);
    } else if x.PollStamp? {
      PollReleaseOk(c, m, x, weak);
      StampIndex(c, PositionOf(c, x.head));
    } else {
      PositionOfStamp(c, m.polled);
      if x.PollLoadStamp? || x.PollRead? { StampIndex(c, PositionOf(c, x.head)); }
    }
  }

  lemma PollSlotUnnoticed<T>(c: Config, m: Memory<T>, x: Thread<T>, weak: bool, y: Thread<T>)
    requires MemoryOk(c, m) && ThreadOk(c, m, x) && x.PollStamp?
    requires ThreadOk(c, m, y) && Distinct(c, x, y)
    ensures var (m', x') := PollStep(c, m, x, weak);
            Counters(c, m') ==> ThreadOk(c, m', y) && Distinct(c, x', y) && Distinct(c, y, x')
  {
    var p := PositionOf(c, x.head);
    StampIndex(c, p);
    SlotWriteUnnoticed(c, m, x, PollStep(c, m, x, weak).0.slots[SlotOf(c, p)], y);
  }

  /** One step of `poll` leaves every other thread undisturbed. */
  lemma PollStepUnnoticed<T>(c: Config, m: Memory<T>, x: Thread<T>, weak: bool, y: Thread<T>)
    requires MemoryOk(c, m) && ThreadOk(c, m, x) && x.InPoll()
    ensures var (m', x') := PollStep(c, m, x, weak); Undisturbed(c, m, x, m', x', y)
  {
    if x.PollCas? && m.head == x.head && !weak {
      HeadClaimUnnoticed(c, m, x, y);
    } else if x.PollStamp? {
      if ThreadOk(c, m, y) && Distinct(c, x, y) { PollSlotUnnoticed(c, m, x, weak, y); }
    } else {
      SameMemoryUnnoticed(c, m, x, PollStep(c, m, x, weak).1, y);
    }
  }

  lemma StepOk<T>(c: Config, m: Memory<T>, x: Thread<T>, a: Action<T>)
    requires MemoryOk(c, m) && ThreadOk(c, m, x)
    ensures var (m', x') := Step(c, m, x, a); MemoryOk(c, m') && ThreadOk(c, m', x')
  {
    if a.Run? && x.InPost() {
      PostStepOk(c, m, x, a.weakFailure);
    } else if a.Run? && x.InPoll() {
      PollStepOk(c, m, x, a.weakFailure);
    }
  }

  lemma StepUnnoticed<T>(c: Config, m: Memory<T>, x: Thread<T>, a: Action<T>, y: Thread<T>)
    requires MemoryOk(c, m) && ThreadOk(c, m, x)
    ensures var (m', x') := Step(c, m, x, a); Undisturbed(c, m, x, m', x', y)
  {
    if a.Run? && x.InPost() {
      PostStepUnnoticed(c, m, x, a.weakFailure, y);
    } else if a.Run? && x.InPoll() {
      PollStepUnnoticed(c, m, x, a.weakFailure, y);
    }
  }

  /** Every step of every thread keeps the invariant. */
  lemma NextInv<T>(c: Config, s: State<T>, t: ThreadId, a: Action<T>)
    requires Inv(c, s) && t in s.threads
    ensures Inv(c, Next(c, s, t, a))
  {
    var (m', x') := Step(c, s.mem, s.threads[t], a);
    StepOk(c, s.mem, s.threads[t], a);
    forall u | u in s.threads && u != t
      ensures ThreadOk(c, m', s.threads[u]) && Distinct(c, x', s.threads[u]) && Distinct(c, s.threads[u], x')
    {
      StepUnnoticed(c, s.mem, s.threads[t], a, s.threads[u]);
    }
  }
}
