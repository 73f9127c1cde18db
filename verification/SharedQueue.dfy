/** The bounded multi-producer multi-consumer queue shared between kernel and user space.

    Any number of threads call `post` and `poll`. A thread is a program counter plus the locals
    of the call it is in; one step is one atomic load, compare-exchange or store (or the plain
    access to the slot value that a successful compare-exchange licenses). Steps are
    sequentially consistent and the lap counters are unbounded. */
module SharedQueue {
  import opened Wrappers
  import opened QueueStamps

  type ThreadId = nat

  datatype Slot<T> = Slot(stamp: nat, value: Option<T>)

  /** Shared memory, and two history variables: every value whose claim of a tail position
      succeeded, in claim order, and the number of head positions claimed. */
  datatype Memory<T> = Memory(head: nat, tail: nat, slots: seq<Slot<T>>, posted: seq<T>, polled: nat)

  datatype Thread<T> =
    | Idle
      // post
    | PostLoadTail(v: T)
    | PostLoadStamp(v: T, tail: nat)
    | PostCas(v: T, tail: nat)
    | PostWrite(v: T, tail: nat)
    | PostStamp(v: T, tail: nat)
    | PostLoadHead(v: T, tail: nat)
    | PostDone(rejected: Option<T>)
      // poll
    | PollLoadHead
    | PollLoadStamp(head: nat)
    | PollCas(head: nat)
    | PollRead(head: nat)
    | PollStamp(head: nat, msg: T)
    | PollLoadTail(head: nat)
    | PollDone(result: Option<T>)
      // a slot index was not below the capacity, or an unwritten value was read
    | Broken
  {
    predicate InPost() {
      PostLoadTail? || PostLoadStamp? || PostCas? || PostWrite? || PostStamp? || PostLoadHead?
    }

    predicate InPoll() {
      PollLoadHead? || PollLoadStamp? || PollCas? || PollRead? || PollStamp? || PollLoadTail?
    }
  }

  datatype State<T> = State(mem: Memory<T>, threads: map<ThreadId, Thread<T>>)

  datatype Action<T> = CallPost(v: T) | CallPoll | Run(weakFailure: bool) | Return

  function InitialSlots<T>(capacity: nat): seq<Slot<T>> {
    seq(capacity, i requires 0 <= i => Slot(i, None))
  }

  function Initial<T>(c: Config, ids: set<ThreadId>): State<T> {
    State(Memory(0, 0, InitialSlots(c.capacity), [], 0), map t | t in ids :: Idle)
  }

  /** `Queue::initialize`: the loop that stamps slot `i` with `i`. */
  method Initialize<T>(c: Config, slots: array<Slot<T>>) returns (head: nat, tail: nat)
    requires slots.Length == c.capacity
    modifies slots
    ensures head == 0 && tail == 0
    ensures slots[..] == InitialSlots<T>(c.capacity)
  {
    head, tail := 0, 0;
    for index := 0 to c.capacity
      invariant forall i :: 0 <= i < index ==> slots[i] == Slot(i, None)
    {
      slots[index] := Slot(index, None);
    }
  }

  /** One step inside `push_or_else`/`post`. A weak compare-exchange may fail although the
      counter matches. */
  function PostStep<T>(c: Config, m: Memory<T>, th: Thread<T>, weakFailure: bool): (Memory<T>, Thread<T>)
    requires c.oneLap > 0 && th.InPost()
  {
    match th
    case PostLoadTail(v) => (m, PostLoadStamp(v, m.tail))
    case PostLoadStamp(v, tail) =>
      var index := IndexOf(c, tail);
      if index >= |m.slots| then (m, Broken) else
      var stamp := m.slots[index].stamp;
      if tail == stamp then (m, PostCas(v, tail))
      else if stamp + c.oneLap == tail + 1 then (m, PostLoadHead(v, tail))
      else (m, PostLoadTail(v))
    case PostCas(v, tail) =>
      if m.tail == tail && !weakFailure then
        (m.(tail := Advance(c, tail), posted := m.posted + [v]), PostWrite(v, tail))
      else (m, PostLoadStamp(v, m.tail))
    case PostWrite(v, tail) =>
      var index := IndexOf(c, tail);
      if index >= |m.slots| then (m, Broken) else
      (m.(slots := m.slots[index := m.slots[index].(value := Some(v))]), PostStamp(v, tail))
    case PostStamp(v, tail) =>
      var index := IndexOf(c, tail);
      if index >= |m.slots| then (m, Broken) else
      (m.(slots := m.slots[index := m.slots[index].(stamp := tail + 1)]), PostDone(None))
    case PostLoadHead(v, tail) =>
      if m.head + c.oneLap == tail then (m, PostDone(Some(v))) else (m, PostLoadTail(v))
  }

  /** One step inside `poll`. */
  function PollStep<T>(c: Config, m: Memory<T>, th: Thread<T>, weakFailure: bool): (Memory<T>, Thread<T>)
    requires c.oneLap > 0 && th.InPoll()
  {
    match th
    case PollLoadHead => (m, PollLoadStamp(m.head))
    case PollLoadStamp(head) =>
      var index := IndexOf(c, head);
      if index >= |m.slots| then (m, Broken) else
      var stamp := m.slots[index].stamp;
      if head + 1 == stamp then (m, PollCas(head))
      else if stamp == head then (m, PollLoadTail(head))
      else (m, PollLoadHead)
    case PollCas(head) =>
      if m.head == head && !weakFailure then
        (m.(head := Advance(c, head), polled := m.polled + 1), PollRead(head))
      else (m, PollLoadStamp(m.head))
    case PollRead(head) =>
      var index := IndexOf(c, head);
      if index >= |m.slots| || m.slots[index].value.None? then (m, Broken) else
      (m, PollStamp(head, m.slots[index].value.value))
    case PollStamp(head, msg) =>
      var index := IndexOf(c, head);
      if index >= |m.slots| then (m, Broken) else
      (m.(slots := m.slots[index := m.slots[index].(stamp := head + c.oneLap)]), PollDone(Some(msg)))
    case PollLoadTail(head) =>
      if m.tail == head then (m, PollDone(None)) else (m, PollLoadHead)
  }

  /** One step of a thread. An action that does not fit the program counter changes nothing. */
  function Step<T>(c: Config, m: Memory<T>, th: Thread<T>, a: Action<T>): (Memory<T>, Thread<T>)
    requires c.oneLap > 0
  {
    if th.InPost() then
      if a.Run? then PostStep(c, m, th, a.weakFailure) else (m, th)
    else if th.InPoll() then
      if a.Run? then PollStep(c, m, th, a.weakFailure) else (m, th)
    else if th.Idle? then
      if a.CallPost? then (m, PostLoadTail(a.v))
      else if a.CallPoll? then (m, PollLoadHead)
      else (m, th)
    else if th.PostDone? || th.PollDone? then
      if a.Return? then (m, Idle) else (m, th)
    else (m, th)
  }

  function Next<T>(c: Config, s: State<T>, t: ThreadId, a: Action<T>): State<T>
    requires c.oneLap > 0 && t in s.threads
  {
    var (m, th) := Step(c, s.mem, s.threads[t], a);
    State(m, s.threads[t := th])
  }

  // ---- The invariant ----

  ghost predicate Counters<T>(c: Config, m: Memory<T>) {
    && ValidConfig(c)
    && |m.slots| == c.capacity
    && m.polled <= |m.posted| <= m.polled + c.capacity
    && m.head == Stamp(c, m.polled)
    && m.tail == Stamp(c, |m.posted|)
  }

  /** What the slot of position `p` holds, for `p` in the window of one lap from the head. */
  ghost predicate SlotOk<T>(c: Config, m: Memory<T>, p: nat)
    requires c.capacity > 0 && |m.slots| == c.capacity
  {
    var slot := m.slots[SlotOf(c, p)];
    if p < |m.posted| then
      || slot.stamp == Stamp(c, p)
      || (slot.stamp == Stamp(c, p) + 1 && slot.value == Some(m.posted[p]))
    else
      || slot.stamp == Stamp(c, p)
      || (p >= c.capacity && slot.stamp == Stamp(c, p - c.capacity) + 1)
  }

  ghost predicate MemoryOk<T>(c: Config, m: Memory<T>) {
    && Counters(c, m)
    && forall p: nat :: m.polled <= p < m.polled + c.capacity ==> SlotOk(c, m, p)
  }

  ghost predicate StampBelow(c: Config, stamp: nat, bound: nat)
    requires ValidConfig(c)
  {
    var p := PositionOf(c, stamp);
    stamp == Stamp(c, p) && p <= bound
  }

  /** A thread between its tail claim and its stamp store. */
  ghost predicate Writing<T>(th: Thread<T>) { th.PostWrite? || th.PostStamp? }

  /** A thread between its head claim and its stamp store. */
  ghost predicate Reading<T>(th: Thread<T>) { th.PollRead? || th.PollStamp? }

  ghost function Claim<T>(c: Config, th: Thread<T>): nat
    requires c.oneLap > 0 && (Writing(th) || Reading(th))
  {
    PositionOf(c, if Writing(th) then th.tail else th.head)
  }

  ghost predicate ThreadOk<T>(c: Config, m: Memory<T>, th: Thread<T>)
    requires Counters(c, m)
  {
    match th
    case Idle => true
    case PostLoadTail(_) => true
    case PostLoadStamp(_, tail) => StampBelow(c, tail, |m.posted|)
    case PostLoadHead(_, tail) => StampBelow(c, tail, |m.posted|)
    case PostCas(_, tail) =>
      var p := PositionOf(c, tail);
      StampBelow(c, tail, |m.posted|) && (p == |m.posted| ==> m.slots[SlotOf(c, p)].stamp == tail)
    case PostWrite(v, tail) => WriterOk(c, m, v, tail)
    case PostStamp(v, tail) =>
      WriterOk(c, m, v, tail) && m.slots[SlotOf(c, PositionOf(c, tail))].value == Some(v)
    case PostDone(_) => true
    case PollLoadHead => true
    case PollLoadStamp(head) => StampBelow(c, head, m.polled)
    case PollLoadTail(head) => StampBelow(c, head, m.polled)
    case PollCas(head) =>
      var p := PositionOf(c, head);
      StampBelow(c, head, m.polled) && (p == m.polled ==> m.slots[SlotOf(c, p)].stamp == head + 1)
    case PollRead(head) => ReaderOk(c, m, head)
    case PollStamp(head, msg) => ReaderOk(c, m, head) && msg == m.posted[PositionOf(c, head)]
    case PollDone(_) => true
    case Broken => false
  }

  ghost predicate WriterOk<T>(c: Config, m: Memory<T>, v: T, tail: nat)
    requires Counters(c, m)
  {
    var p := PositionOf(c, tail);
    && tail == Stamp(c, p)
    && m.polled <= p < |m.posted|
    && m.posted[p] == v
    && m.slots[SlotOf(c, p)].stamp == tail
  }

  ghost predicate ReaderOk<T>(c: Config, m: Memory<T>, head: nat)
    requires Counters(c, m)
  {
    var p := PositionOf(c, head);
    && head == Stamp(c, p)
    && p < m.polled && |m.posted| <= p + c.capacity
    && m.slots[SlotOf(c, p)] == Slot(head + 1, Some(m.posted[p]))
  }

  /** Two threads never hold the same claim. */
  ghost predicate Distinct<T>(c: Config, x: Thread<T>, y: Thread<T>)
    requires c.oneLap > 0
  {
    && (Writing(x) && Writing(y) ==> Claim(c, x) != Claim(c, y))
    && (Reading(x) && Reading(y) ==> Claim(c, x) != Claim(c, y))
  }

  ghost predicate Inv<T>(c: Config, s: State<T>) {
    && MemoryOk(c, s.mem)
    && (forall t :: t in s.threads ==> ThreadOk(c, s.mem, s.threads[t]))
    && (forall t, u :: t in s.threads && u in s.threads && t != u ==>
          Distinct(c, s.threads[t], s.threads[u]))
  }
}
