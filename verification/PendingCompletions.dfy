/** Commands, their completions and the futures that wait for them: the table of pending
    completions that submitters, pollers and the interrupt handler share. Each of their calls is
    one step, since interrupts are disabled while the table is used. */
module PendingCompletions {
  const IDS: nat := 0x1_0000  // command ids are 16-bit

  /** The id that submission `k` gets. */
  function IdOf(k: nat): nat { k % IDS }

  /** A completion: the id that the device was given, and the answer. The answer to submission `k`
      is represented by `k`; nothing but its receiver looks at it. */
  datatype Completion = Completion(id: nat, answer: nat)

  datatype Entry = Waiting | Ready(completion: Completion)

  /** `inFlight` and `futures` give the ids of submissions that the device works on and of futures
      that are not resolved. `reused` is set when an id is given out while a future still has it or
      when a future is dropped before it is resolved. */
  datatype State = State(
    submitted: nat, nextId: nat,
    inFlight: map<nat, nat>, ring: seq<Completion>, pending: map<nat, Entry>, futures: map<nat, nat>,
    resolved: map<nat, Completion>, panicked: bool, reused: bool)

  datatype Step = Submit | Answer(k: nat) | Interrupt | Poll(k: nat) | Abandon(k: nat)

  ghost predicate Initial(s: State) {
    s == State(0, 0, map[], [], map[], map[], map[], false, false)
  }

  function Next(s: State, a: Step): State {
    if s.panicked then s
    else match a
      case Submit => SubmitStep(s)
      case Answer(k) => if k in s.inFlight then AnswerStep(s, k) else s
      case Interrupt => if s.ring == [] then s else InterruptStep(s)
      case Poll(k) => if k in s.futures then PollStep(s, k) else s
      case Abandon(k) => if k in s.futures then s.(futures := s.futures - {k}, reused := true) else s
  }

  /** `wait_for_completion` */
  function SubmitStep(s: State): State {
    s.(submitted := s.submitted + 1, nextId := (s.nextId + 1) % IDS,
       inFlight := s.inFlight[s.submitted := s.nextId], futures := s.futures[s.submitted := s.nextId],
       reused := s.reused || s.nextId in s.futures.Values)
  }

  /** The device completes a command; commands complete in any order. */
  function AnswerStep(s: State, k: nat): State
    requires k in s.inFlight
  {
    s.(inFlight := s.inFlight - {k}, ring := s.ring + [Completion(s.inFlight[k], k)])
  }

  /** `handle_interrupt`, when there is a completion. */
  function InterruptStep(s: State): State
    requires s.ring != []
  {
    var c := s.ring[0];
    if c.id in s.pending && s.pending[c.id].Ready? then s.(ring := s.ring[1..], panicked := true)
    else s.(ring := s.ring[1..], pending := s.pending[c.id := Ready(c)])
  }

  /** `CompletionFuture::poll` */
  function PollStep(s: State, k: nat): State
    requires k in s.futures
  {
    var id := s.futures[k];
    if id in s.pending && s.pending[id].Ready?
    then s.(pending := s.pending - {id}, futures := s.futures - {k}, resolved := s.resolved[k := s.pending[id].completion])
    else s.(pending := s.pending[id := Waiting])
  }

  function Exec(s: State, steps: seq<Step>): State
    decreases |steps|
  {
    if steps == [] then s else Exec(Next(s, steps[0]), steps[1..])
  }

  // ---- Invariant ----

  ghost predicate Queued(s: State, k: nat) {
    exists i :: 0 <= i < |s.ring| && s.ring[i].answer == k
  }

  ghost predicate Arrived(s: State, k: nat) {
    k in s.futures && s.futures[k] in s.pending && s.pending[s.futures[k]] == Ready(Completion(s.futures[k], k))
  }

  /** Ids of unresolved futures are distinct. */
  ghost predicate IdsOk(s: State) {
    && (forall k :: k in s.futures ==> k < s.submitted && s.futures[k] == IdOf(k))
    && (forall j, k :: j in s.futures && k in s.futures && s.futures[j] == s.futures[k] ==> j == k)
  }

  ghost predicate RingOk(s: State) {
    && (forall i :: 0 <= i < |s.ring| ==> OwnCompletion(s, s.ring[i]))
    && (forall i, j :: 0 <= i < j < |s.ring| ==> s.ring[i].answer != s.ring[j].answer)
  }

  /** The completion answers an unresolved future that the device is done with. */
  ghost predicate OwnCompletion(s: State, c: Completion) {
    c.answer in s.futures && s.futures[c.answer] == c.id && c.answer !in s.inFlight
  }

  /** A completion in the table belongs to the unresolved future that has its id. */
  ghost predicate EntryOk(s: State, id: nat)
    requires id in s.pending
  {
    s.pending[id].Ready? ==>
      && s.pending[id].completion.id == id && OwnCompletion(s, s.pending[id].completion)
      && !Queued(s, s.pending[id].completion.answer)
  }

  ghost predicate TableOk(s: State) {
    forall id :: id in s.pending ==> EntryOk(s, id)
  }

  ghost predicate OnItsWay(s: State, k: nat) { k in s.inFlight || Queued(s, k) || Arrived(s, k) }

  /** No completion is lost: a command is with the device, in the ring, or in the table. */
  ghost predicate NothingLost(s: State) {
    && (forall k :: k in s.inFlight ==> k in s.futures && s.futures[k] == s.inFlight[k])
    && (forall k :: k in s.futures ==> OnItsWay(s, k))
  }

  /** Every submission is unresolved, or was resolved with its own completion. */
  ghost predicate ResolvedOk(s: State) {
    && (forall k :: k in s.resolved ==> s.resolved[k] == Completion(IdOf(k), k))
    && (forall k :: 0 <= k < s.submitted <==> k in s.resolved || k in s.futures)
    && s.resolved.Keys !! s.futures.Keys
  }

  ghost predicate Inv(s: State) {
    && s.nextId == IdOf(s.submitted)
    && (!s.reused ==> !s.panicked && IdsOk(s) && RingOk(s) && TableOk(s) && NothingLost(s) && ResolvedOk(s))
  }

  // ---- Every step keeps it ----

  lemma NextIdKept(n: nat)
    ensures (IdOf(n) + 1) % IDS == IdOf(n + 1)
  {
  }

  lemma SubmitInv(s: State)
    requires Inv(s) && !s.panicked
    ensures Inv(SubmitStep(s))
  {
    NextIdKept(s.submitted);
    hide IdOf;
    if !SubmitStep(s).reused {
      SubmitIds(s);
      SubmitRest(s);
      hide IdsOk, RingOk, TableOk, NothingLost, ResolvedOk;
    }
  }

  lemma SubmitIds(s: State)
    requires Inv(s) && !SubmitStep(s).reused
    ensures IdsOk(SubmitStep(s)) && ResolvedOk(SubmitStep(s))
  {
    hide IdOf, RingOk, TableOk, NothingLost;
    assert forall k :: k in s.futures ==> s.futures[k] in s.futures.Values;
  }

  lemma SubmitRest(s: State)
    requires Inv(s) && !SubmitStep(s).reused
    ensures var s' := SubmitStep(s); RingOk(s') && TableOk(s') && NothingLost(s')
  {
    hide IdOf;
    var s' := SubmitStep(s);
    assert forall k :: k in s.futures ==> k < s.submitted && k in s'.futures && s'.futures[k] == s.futures[k];
    forall k ensures Queued(s', k) <==> Queued(s, k) {
    }
    hide Queued, ResolvedOk, IdsOk;
    forall id | id in s'.pending ensures EntryOk(s', id) {
      assert EntryOk(s, id);
    }
    forall k | k in s'.futures ensures OnItsWay(s', k) {
      assert k != s.submitted ==> OnItsWay(s, k);
    }
  }

  lemma AnswerInv(s: State, k: nat)
    requires Inv(s) && !s.panicked && k in s.inFlight
    ensures Inv(AnswerStep(s, k))
  {
    hide IdOf;
    if !s.reused {
      AnswerRing(s, k);
      AnswerTable(s, k);
      hide RingOk, TableOk, NothingLost;
    }
  }

  lemma AnswerRing(s: State, k: nat)
    requires Inv(s) && !s.reused && k in s.inFlight
    ensures RingOk(AnswerStep(s, k))
    ensures forall j :: Queued(AnswerStep(s, k), j) <==> Queued(s, j) || j == k
  {
    hide IdOf, IdsOk, TableOk, ResolvedOk;
    var s' := AnswerStep(s, k);
    forall j ensures Queued(s', j) <==> Queued(s, j) || j == k {
      assert s'.ring[|s.ring|].answer == k;
      if Queued(s, j) {
        var i :| 0 <= i < |s.ring| && s.ring[i].answer == j;
        assert s'.ring[i].answer == j;
      }
    }
    assert k in s.futures && s.futures[k] == s.inFlight[k];
    hide NothingLost;
    forall i | 0 <= i < |s'.ring| ensures OwnCompletion(s', s'.ring[i]) {
      assert i < |s.ring| ==> OwnCompletion(s, s.ring[i]);
    }
    forall i, j | 0 <= i < j < |s'.ring| ensures s'.ring[i].answer != s'.ring[j].answer {
      assert OwnCompletion(s, s.ring[i]);
    }
  }

  lemma AnswerTable(s: State, k: nat)
    requires Inv(s) && !s.reused && k in s.inFlight
    ensures TableOk(AnswerStep(s, k)) && NothingLost(AnswerStep(s, k))
  {
    AnswerRing(s, k);
    hide IdOf, IdsOk, ResolvedOk, RingOk, Queued;
    var s' := AnswerStep(s, k);
    forall id | id in s'.pending ensures EntryOk(s', id) {
      assert EntryOk(s, id);
    }
    forall j | j in s'.futures ensures OnItsWay(s', j) {
      assert OnItsWay(s, j);
    }
  }

  lemma InterruptInv(s: State)
    requires Inv(s) && !s.panicked && s.ring != []
    ensures Inv(InterruptStep(s))
  {
    hide IdOf;
    if !s.reused {
      InterruptRing(s);
      InterruptTable(s);
      hide RingOk, TableOk, NothingLost;
    }
  }

  /** Popping the ring takes the first completion out, which was in it once. */
  lemma InterruptRing(s: State)
    requires Inv(s) && !s.reused && s.ring != []
    ensures var s', c := InterruptStep(s), s.ring[0];
            && RingOk(s') && OwnCompletion(s, c) && !Queued(s', c.answer)
            && forall j :: Queued(s, j) <==> Queued(s', j) || j == c.answer
  {
    hide IdOf, IdsOk, TableOk, NothingLost, ResolvedOk;
    var s', c := InterruptStep(s), s.ring[0];
    assert OwnCompletion(s, c);
    forall j ensures Queued(s, j) <==> Queued(s', j) || j == c.answer {
      if Queued(s', j) {
        var i :| 0 <= i < |s'.ring| && s'.ring[i].answer == j;
        assert s.ring[i + 1].answer == j;
      }
      if Queued(s, j) && j != c.answer {
        var i :| 0 <= i < |s.ring| && s.ring[i].answer == j;
        assert s'.ring[i - 1].answer == j;
      }
    }
    forall i | 0 <= i < |s'.ring| ensures OwnCompletion(s', s'.ring[i]) {
      assert OwnCompletion(s, s.ring[i + 1]);
    }
    forall i | 0 <= i < |s'.ring| ensures s'.ring[i].answer != c.answer {
      assert s.ring[0].answer != s.ring[i + 1].answer;
    }
  }

  lemma InterruptTable(s: State)
    requires Inv(s) && !s.reused && s.ring != []
    ensures var s' := InterruptStep(s); !s'.panicked && TableOk(s') && NothingLost(s')
  {
    InterruptRing(s);
    hide IdOf, Queued, RingOk, ResolvedOk;
    var s', c := InterruptStep(s), s.ring[0];
    assert c.id in s.pending ==> EntryOk(s, c.id);
    assert Arrived(s', c.answer);
    forall id | id in s'.pending ensures EntryOk(s', id) {
      assert id != c.id ==> EntryOk(s, id);
    }
    forall j | j in s'.futures ensures OnItsWay(s', j) {
      assert OnItsWay(s, j);
    }
  }

  lemma PollInv(s: State, k: nat)
    requires Inv(s) && !s.panicked && k in s.futures
    ensures Inv(PollStep(s, k))
  {
    hide IdOf;
    if !s.reused {
      if s.futures[k] in s.pending && s.pending[s.futures[k]].Ready? {
        PollReady(s, k);
      } else {
        PollPending(s, k);
      }
    }
  }

  lemma SameRing(s: State, s': State)
    requires s'.ring == s.ring
    ensures forall j :: Queued(s', j) <==> Queued(s, j)
  {
  }

  lemma PollPending(s: State, k: nat)
    requires Inv(s) && !s.reused && k in s.futures
    requires !(s.futures[k] in s.pending && s.pending[s.futures[k]].Ready?)
    ensures Inv(PollStep(s, k))
  {
    hide IdOf, Queued;
    var s' := PollStep(s, k);
    SameRing(s, s');
    forall id | id in s'.pending ensures EntryOk(s', id) {
      assert id != s.futures[k] ==> EntryOk(s, id);
    }
    forall j | j in s'.futures ensures OnItsWay(s', j) {
      assert OnItsWay(s, j);
    }
    hide IdsOk, TableOk;
    assert RingOk(s') by {
      forall i | 0 <= i < |s'.ring| ensures OwnCompletion(s', s'.ring[i]) {
        assert OwnCompletion(s, s.ring[i]);
      }
    }
  }

  /** A completion that a future finds is its own; it is then neither queued nor in flight. */
  lemma PollOwn(s: State, k: nat)
    requires Inv(s) && !s.reused && k in s.futures
    requires s.futures[k] in s.pending && s.pending[s.futures[k]].Ready?
    ensures s.pending[s.futures[k]].completion == Completion(s.futures[k], k)
    ensures k !in s.inFlight && !Queued(s, k) && s.futures[k] == IdOf(k)
  {
    assert EntryOk(s, s.futures[k]);
  }

  lemma PollReady(s: State, k: nat)
    requires Inv(s) && !s.reused && k in s.futures
    requires s.futures[k] in s.pending && s.pending[s.futures[k]].Ready?
    ensures Inv(PollStep(s, k))
  {
    PollReadyIds(s, k);
    PollReadyRing(s, k);
    PollReadyTable(s, k);
    hide IdOf, IdsOk, RingOk, TableOk, NothingLost, ResolvedOk;
  }

  lemma PollReadyIds(s: State, k: nat)
    requires Inv(s) && !s.reused && k in s.futures
    requires s.futures[k] in s.pending && s.pending[s.futures[k]].Ready?
    ensures IdsOk(PollStep(s, k)) && ResolvedOk(PollStep(s, k))
  {
    PollOwn(s, k);
    hide IdOf, RingOk, TableOk, NothingLost;
  }

  lemma PollReadyRing(s: State, k: nat)
    requires Inv(s) && !s.reused && k in s.futures
    requires s.futures[k] in s.pending && s.pending[s.futures[k]].Ready?
    ensures RingOk(PollStep(s, k))
  {
    PollOwn(s, k);
    hide IdOf, IdsOk, TableOk, NothingLost, ResolvedOk;
    var s' := PollStep(s, k);
    forall i | 0 <= i < |s'.ring| ensures OwnCompletion(s', s'.ring[i]) {
      assert OwnCompletion(s, s.ring[i]);
      assert s.ring[i].answer == k ==> Queued(s, k);
    }
  }

  lemma PollReadyTable(s: State, k: nat)
    requires Inv(s) && !s.reused && k in s.futures
    requires s.futures[k] in s.pending && s.pending[s.futures[k]].Ready?
    ensures TableOk(PollStep(s, k)) && NothingLost(PollStep(s, k))
  {
    var s' := PollStep(s, k);
    PollOwn(s, k);
    SameRing(s, s');
    hide IdOf, RingOk, ResolvedOk, Queued;
    forall i | i in s'.pending ensures EntryOk(s', i) {
      assert EntryOk(s, i);
    }
    forall j | j in s'.futures ensures OnItsWay(s', j) {
      assert OnItsWay(s, j);
    }
  }

  lemma NextInv(s: State, a: Step)
    requires Inv(s)
    ensures Inv(Next(s, a)) && (s.reused ==> Next(s, a).reused)
  {
    if !s.panicked {
      match a
      case Submit => SubmitInv(s);
      case Answer(k) => if k in s.inFlight { AnswerInv(s, k); }
      case Interrupt => if s.ring != [] { InterruptInv(s); }
      case Poll(k) => if k in s.futures { PollInv(s, k); }
      case Abandon(k) =>
    }
  }

  lemma {:induction false} RunInv(s: State, steps: seq<Step>)
    requires Inv(s)
    ensures Inv(Exec(s, steps))
    decreases |steps|
  {
    if steps != [] {
      NextInv(s, steps[0]);
      RunInv(Next(s, steps[0]), steps[1..]);
    }
  }

  lemma InitialInv(s: State)
    requires Initial(s)
    ensures Inv(s)
  {
  }

  /** What is promised: the handler has not panicked, every submission is unresolved or was resolved
      with its own completion, and the completion of every unresolved one is on its way. */
  ghost predicate Delivered(s: State) { !s.panicked && ResolvedOk(s) && NothingLost(s) }

  /** A run delivers as long as no id was given out while an unresolved future had it and no future
      was dropped before it was resolved. */
  lemma UnreusedDelivers(s: State, steps: seq<Step>)
    requires Initial(s) && !Exec(s, steps).reused
    ensures Delivered(Exec(s, steps))
  {
    InitialInv(s);
    RunInv(s, steps);
  }

  /** No future is dropped before it is resolved, and at each submission every unresolved future is
      younger than 65536 submissions. */
  ghost predicate Windowed(s: State, steps: seq<Step>)
    decreases |steps|
  {
    steps == [] ||
    (&& (steps[0].Abandon? ==> steps[0].k !in s.futures) && (steps[0].Submit? ==> InWindow(s))
     && Windowed(Next(s, steps[0]), steps[1..]))
  }

  ghost predicate InWindow(s: State) { forall k :: k in s.futures ==> s.submitted - k < IDS }

  /** As old as the next submission lets an unresolved future get in a run without reuse. */
  ghost predicate NotOverdue(s: State) { forall k :: k in s.futures ==> s.submitted - k <= IDS }

  /** A first step that leaves the window reuses an id or drops a future; otherwise it does neither. */
  lemma WindowStep(s: State, a: Step)
    requires Inv(s) && !s.reused && NotOverdue(s)
    ensures Next(s, a).reused <==> (a.Abandon? && a.k in s.futures) || (a.Submit? && !InWindow(s))
    ensures !Next(s, a).reused ==> NotOverdue(Next(s, a))
  {
    hide RingOk, TableOk, NothingLost, ResolvedOk;
    if a.Submit? {
      if InWindow(s) {
        WindowIsUnique(s);
      } else {
        var k :| k in s.futures && s.submitted - k >= IDS;
        SameIds(k);
        assert s.futures[k] == s.nextId && s.futures[k] in s.futures.Values;
      }
    }
  }

  lemma SameIds(k: nat)
    ensures IdOf(k) == IdOf(k + IDS)
  {
  }

  lemma {:induction false} StaysReused(s: State, steps: seq<Step>)
    requires Inv(s) && s.reused
    ensures Exec(s, steps).reused
    decreases |steps|
  {
    if steps != [] {
      NextInv(s, steps[0]);
      hide Inv;
      StaysReused(Next(s, steps[0]), steps[1..]);
    }
  }

  /** The window decides over every run: an id of an unresolved future is given out, or a future is
      dropped unresolved, if and only if the run leaves the window. */
  lemma {:induction false} WindowedUnreused(s: State, steps: seq<Step>)
    requires Inv(s) && !s.reused && NotOverdue(s)
    ensures !Exec(s, steps).reused <==> Windowed(s, steps)
    decreases |steps|
  {
    if steps != [] {
      NextInv(s, steps[0]);
      WindowStep(s, steps[0]);
      hide Inv, InWindow, NotOverdue;
      if Next(s, steps[0]).reused {
        StaysReused(Next(s, steps[0]), steps[1..]);
      } else {
        WindowedUnreused(Next(s, steps[0]), steps[1..]);
      }
    }
  }

  /** In every run in which no command stays unresolved across 65536 later submissions and no future
      is dropped unresolved: the handler does not panic, every future resolves at most once and with
      its own completion, and no completion is lost. */
  lemma RunResolves(s: State, steps: seq<Step>)
    requires Initial(s) && Windowed(s, steps)
    ensures Delivered(Exec(s, steps))
  {
    InitialInv(s);
    WindowedUnreused(s, steps);
    UnreusedDelivers(s, steps);
  }

  /** Ids are not reused when no future stays unresolved across 65536 later submissions. */
  lemma WindowIsUnique(s: State)
    requires Inv(s) && !s.reused && InWindow(s)
    ensures !SubmitStep(s).reused
  {
    forall k | k in s.futures ensures s.futures[k] != s.nextId {
      DistinctIds(k, s.submitted);
    }
  }

  lemma DistinctIds(j: nat, k: nat)
    requires j < k < j + IDS
    ensures IdOf(j) != IdOf(k)
  {
  }

  /** Exactly then: an id is reused if and only if some unresolved future has the next one. */
  lemma ReuseIff(s: State)
    requires Inv(s) && !s.reused
    ensures SubmitStep(s).reused <==> exists k :: k in s.futures && IdOf(k) == IdOf(s.submitted)
  {
    hide IdOf;
    if SubmitStep(s).reused {
      var k :| k in s.futures && s.futures[k] == s.nextId;
      assert IdOf(k) == IdOf(s.submitted);
    }
  }

  // ---- Runs ----

  lemma ExecTwo(s: State, a: seq<Step>)
    requires |a| == 2
    ensures Exec(s, a) == Next(Next(s, a[0]), a[1])
  {
    hide Next;
    assert Exec(s, a) == Exec(Next(s, a[0]), a[1..]) == Exec(Next(Next(s, a[0]), a[1]), a[2..]) by {
      assert a[1..][1..] == a[2..];
    }
  }

  lemma ExecFour(s: State, a: seq<Step>, s4: State)
    requires |a| == 4 && s4 == Next(Next(Next(Next(s, a[0]), a[1]), a[2]), a[3])
    ensures Exec(s, a) == s4
  {
    hide Next, Exec;
    ExecTwo(s, a[..2]);
    ExecTwo(Exec(s, a[..2]), a[2..]);
    ExecConcat(s, a[..2], a[2..]);
    assert a[..2] + a[2..] == a;
  }

  lemma {:induction false} ExecLast(s: State, steps: seq<Step>, a: Step)
    ensures Exec(s, steps + [a]) == Next(Exec(s, steps), a)
    decreases |steps|
  {
    if steps == [] {
      assert ([a])[1..] == [];
    } else {
      ExecLast(Next(s, steps[0]), steps[1..], a);
      assert (steps + [a])[1..] == steps[1..] + [a];
    }
  }

  lemma {:induction false} ExecConcat(s: State, a: seq<Step>, b: seq<Step>)
    ensures Exec(s, a + b) == Exec(Exec(s, a), b)
    decreases |a|
  {
    if a == [] {
      assert a + b == b;
    } else {
      ExecConcat(Next(s, a[0]), a[1..], b);
      assert (a + b)[1..] == a[1..] + b;
    }
  }
}
