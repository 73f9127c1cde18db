/** What happens when a command id is given out while an unresolved future has it, and when a future is
    dropped unresolved. */
module CommandReuse {
  import opened PendingCompletions

  // ---- What a reused id does ----

  /** Answers, interrupts and polls only. */
  predicate Calm(steps: seq<Step>) {
    forall i :: 0 <= i < |steps| ==> !steps[i].Submit? && !steps[i].Abandon?
  }

  /** Answers and interrupts only: what happens without the callers. */
  predicate DeviceOnly(steps: seq<Step>) {
    forall i :: 0 <= i < |steps| ==> steps[i].Answer? || steps[i].Interrupt?
  }

  function Interrupts(n: nat): (r: seq<Step>)
    ensures |r| == n && DeviceOnly(r)
  {
    seq(n, _ => Interrupt)
  }

  lemma CalmStep(s: State, a: Step)
    requires Inv(s) && !s.reused && !a.Submit? && !a.Abandon?
    ensures var s' := Next(s, a);
            Inv(s') && !s'.reused && s'.submitted == s.submitted && s'.futures.Keys <= s.futures.Keys
  {
    NextInv(s, a);
    hide Inv;
  }

  lemma {:induction false} CalmKeeps(s: State, steps: seq<Step>)
    requires Inv(s) && !s.reused && Calm(steps)
    ensures var s' := Exec(s, steps);
            Inv(s') && !s'.reused && s'.submitted == s.submitted && s'.futures.Keys <= s.futures.Keys
    decreases |steps|
  {
    hide Inv, Next;
    if steps != [] {
      CalmStep(s, steps[0]);
      CalmKeeps(Next(s, steps[0]), steps[1..]);
    }
  }

  lemma PopRing(s: State)
    requires Inv(s) && !s.reused && s.ring != []
    ensures var s' := Next(s, Interrupt);
            && Inv(s') && !s'.reused && s'.ring == s.ring[1..] && s'.submitted == s.submitted && s'.futures == s.futures
            && s'.inFlight == s.inFlight
  {
    NextInv(s, Interrupt);
    NotReusedNoPanic(s);
    hide Inv;
  }

  /** Interrupts empty the ring and lose nothing. */
  lemma {:induction false} DrainRing(s: State)
    requires Inv(s) && !s.reused
    ensures var s' := Exec(s, Interrupts(|s.ring|));
            && Inv(s') && !s'.reused && s'.ring == [] && s'.submitted == s.submitted && s'.futures == s.futures
            && s'.inFlight == s.inFlight
    decreases |s.ring|
  {
    hide Inv, Next;
    if s.ring != [] {
      PopRing(s);
      DrainRing(Next(s, Interrupt));
      assert Interrupts(|s.ring|)[1..] == Interrupts(|s.ring| - 1);
    }
  }

  /** With an empty ring, the completion of an unresolved future is still to come or has arrived. */
  lemma ToComeOrArrived(s: State, k: nat)
    requires Inv(s) && !s.reused && s.ring == [] && k in s.futures
    ensures k < s.submitted && s.futures[k] == IdOf(k) && (k in s.inFlight || Arrived(s, k))
    ensures k in s.inFlight ==> s.inFlight[k] == IdOf(k) && (IdOf(k) in s.pending ==> !s.pending[IdOf(k)].Ready?)
  {
    assert OnItsWay(s, k) && !Queued(s, k);
    if k in s.inFlight && s.futures[k] in s.pending { assert EntryOk(s, s.futures[k]); }
  }

  /** What brings a run to its panic, once the ring is empty. */
  function Clash(s: State, k: nat): seq<Step> {
    if k in s.inFlight then [Answer(k), Answer(s.submitted), Interrupt, Interrupt] else [Answer(s.submitted), Interrupt]
  }

  lemma ClashPanics(s: State, k: nat)
    requires Inv(s) && !s.reused && s.ring == [] && k in s.futures && IdOf(k) == IdOf(s.submitted)
    ensures Exec(Next(s, Submit), Clash(s, k)).panicked
  {
    ToComeOrArrived(s, k);
    assert s.nextId == IdOf(k);
    hide Inv, IdOf, Exec, Arrived;
    var s1, n := Next(s, Submit), s.submitted;
    if k in s.inFlight {
      var s4 := MeetInTable(s, k);
      ExecFour(s1, Clash(s, k), s4);
    } else {
      var s2 := Next(s1, Answer(n));
      assert s2.ring == [Completion(s.nextId, n)];
      assert s2.pending == s.pending && s.pending[s.nextId].Ready? by { ArrivedReady(s, k); }
      ExecTwo(s1, Clash(s, k));
    }
  }

  lemma ArrivedReady(s: State, k: nat)
    requires Arrived(s, k)
    ensures s.futures[k] in s.pending && s.pending[s.futures[k]] == Ready(Completion(s.futures[k], k))
  {
  }

  lemma MeetInTable(s: State, k: nat) returns (s': State)
    requires !s.panicked && s.ring == [] && k in s.inFlight && k != s.submitted && s.inFlight[k] == s.nextId
    requires s.nextId in s.pending ==> !s.pending[s.nextId].Ready?
    ensures s'.panicked
    ensures s' == Next(Next(Next(Next(Next(s, Submit), Answer(k)), Answer(s.submitted)), Interrupt), Interrupt)
  {
    var s1 := Next(s, Submit);
    var s2 := Next(s1, Answer(k));
    assert s2.ring == [Completion(s.nextId, k)];
    var s3 := Next(s2, Answer(s.submitted));
    assert s3.ring == [Completion(s.nextId, k), Completion(s.nextId, s.submitted)];
    var s4 := Next(s3, Interrupt);
    assert s4.ring == [Completion(s.nextId, s.submitted)] && s4.pending[s.nextId].Ready?;
    s' := Next(s4, Interrupt);
  }

  /** The next submission can be brought to a panic of the handler, without another submission and
      without dropping a future, if and only if an unresolved future has its id. */
  lemma ReusePanics(s: State)
    requires Inv(s) && !s.reused
    ensures (exists k :: k in s.futures && IdOf(k) == IdOf(s.submitted)) <==>
            exists a, b :: Calm(a) && Calm(b) && Exec(s, a + [Submit] + b).panicked
  {
    hide Inv, IdOf, Exec, Calm;
    if k :| k in s.futures && IdOf(k) == IdOf(s.submitted) {
      var a, b := ReuseCanPanic(s, k);
    }
    if a, b :| Calm(a) && Calm(b) && Exec(s, a + [Submit] + b).panicked {
      var k := PanicNeedsReuse(s, a, b);
    }
  }

  lemma ReuseCanPanic(s: State, k: nat) returns (a: seq<Step>, b: seq<Step>)
    requires Inv(s) && !s.reused && k in s.futures && IdOf(k) == IdOf(s.submitted)
    ensures Calm(a) && Calm(b) && Exec(s, a + [Submit] + b).panicked
  {
    hide Inv, IdOf, Exec;
    a := Interrupts(|s.ring|);
    DrainRing(s);
    b := Clash(Exec(s, a), k);
    ClashPanics(Exec(s, a), k);
    ExecAround(s, a, b);
  }

  lemma PanicNeedsReuse(s: State, a: seq<Step>, b: seq<Step>) returns (k: nat)
    requires Inv(s) && !s.reused && Calm(a) && Calm(b) && Exec(s, a + [Submit] + b).panicked
    ensures k in s.futures && IdOf(k) == IdOf(s.submitted)
  {
    hide Inv, IdOf, Exec, Calm, Next;
    var s1 := Exec(s, a);
    ExecAround(s, a, b);
    CalmKeeps(s, a);
    NextInv(s1, Submit);
    if !Next(s1, Submit).reused {
      CalmKeeps(Next(s1, Submit), b);
      NotReusedNoPanic(Exec(Next(s1, Submit), b));
    }
    SubmitReuses(s1);
    k :| k in s1.futures && IdOf(k) == IdOf(s1.submitted);
  }

  lemma SubmitReuses(s: State)
    requires Inv(s) && !s.reused && Next(s, Submit).reused
    ensures exists k :: k in s.futures && IdOf(k) == IdOf(s.submitted)
  {
    ReuseIff(s);
  }

  lemma NotReusedNoPanic(s: State)
    requires Inv(s) && !s.reused
    ensures !s.panicked
  {
  }

  lemma ExecAround(s: State, a: seq<Step>, b: seq<Step>)
    ensures Exec(s, a + [Submit] + b) == Exec(Next(Exec(s, a), Submit), b)
  {
    ExecLast(s, a, Submit);
    ExecConcat(s, a + [Submit], b);
  }

  // ---- What a dropped future does ----

  /** `s` without future `k`. */
  function Dropped(s: State, k: nat): State { s.(futures := s.futures - {k}, reused := true) }

  /** The device and the handler do not look at the futures. */
  lemma {:induction false} DropUnnoticed(s: State, k: nat, steps: seq<Step>)
    requires DeviceOnly(steps)
    ensures Exec(Dropped(s, k), steps) == Dropped(Exec(s, steps), k)
    decreases |steps|
  {
    if steps != [] {
      assert Next(Dropped(s, k), steps[0]) == Dropped(Next(s, steps[0]), k);
      hide Next;
      DropUnnoticed(Next(s, steps[0]), k, steps[1..]);
    }
  }

  /** Answers and interrupts bring any unresolved future its completion. */
  lemma BringCompletion(s: State, k: nat) returns (steps: seq<Step>)
    requires Inv(s) && !s.reused && k in s.futures
    ensures var s' := Exec(s, steps);
            && DeviceOnly(steps) && Inv(s') && !s'.reused && s'.submitted == s.submitted && s'.futures == s.futures
            && Arrived(s', k)
  {
    hide Inv, IdOf, Exec, Arrived, Next;
    steps := Interrupts(|s.ring|);
    DrainRing(s);
    var s1 := Exec(s, steps);
    ToComeOrArrived(s1, k);
    if !Arrived(s1, k) {
      Arrive(s1, k);
      ExecTwo(s1, [Answer(k), Interrupt]);
      ExecConcat(s, steps, [Answer(k), Interrupt]);
      steps := steps + [Answer(k), Interrupt];
    }
  }

  lemma Arrive(s: State, k: nat)
    requires Inv(s) && !s.reused && s.ring == [] && k in s.inFlight
    ensures var s' := Next(Next(s, Answer(k)), Interrupt);
            Inv(s') && !s'.reused && s'.submitted == s.submitted && s'.futures == s.futures && Arrived(s', k)
  {
    var s1 := Next(s, Answer(k));
    NotReusedNoPanic(s);
    assert s1.ring == [Completion(s.inFlight[k], k)] && k in s.futures && s.futures[k] == s.inFlight[k];
    NextInv(s, Answer(k));
    NotReusedNoPanic(s1);
    PopRing(s1);
    NotReusedNoPanic(Next(s1, Interrupt));
    hide Inv;
  }

  function Submits(n: nat): (r: seq<Step>)
    ensures |r| == n && forall i :: 0 <= i < n ==> r[i] == Submit
  {
    seq(n, _ => Submit)
  }

  /** Submissions leave the table alone and number the futures. */
  lemma {:induction false} SubmitMany(s: State, n: nat)
    requires !s.panicked && s.nextId == IdOf(s.submitted)
    ensures var s' := Exec(s, Submits(n));
            && !s'.panicked && s'.submitted == s.submitted + n && s'.nextId == IdOf(s'.submitted) && s'.pending == s.pending
            && (forall j :: j in s'.futures <==> j in s.futures || s.submitted <= j < s.submitted + n)
            && (forall j :: s.submitted <= j < s.submitted + n ==> s'.futures[j] == IdOf(j))
            && (forall j :: j in s.futures && j < s.submitted ==> s'.futures[j] == s.futures[j])
    decreases n
  {
    if n > 0 {
      NextIdKept(s.submitted);
      SubmitMany(Next(s, Submit), n - 1);
      assert Submits(n)[1..] == Submits(n - 1);
      hide IdOf;
      assert s.submitted in Next(s, Submit).futures;
    }
  }

  /** The first submission from `m` on that gets the id of `k`. */
  function NextWithId(k: nat, m: nat): (n: nat)
    ensures m <= n < m + IDS && IdOf(n) == IdOf(k)
    ensures k < m <= k + IDS ==> n == k + IDS
  {
    m + (k - m) % IDS
  }

  /** The run in which the next future with the id of the dropped future `k` is polled; `arrival` brings
      the completion of `k`. */
  function MisleadingRun(s: State, k: nat, arrival: seq<Step>): seq<Step> {
    var n := NextWithId(k, s.submitted);
    [Abandon(k)] + arrival + Submits(n + 1 - s.submitted) + [Poll(n)]
  }

  /** Every future that is dropped unresolved can mislead: the next future that gets its id resolves with
      the completion of the dropped one. */
  lemma AbandonMisleads(s: State, k: nat) returns (arrival: seq<Step>)
    requires Inv(s) && !s.reused && k in s.futures
    ensures var n, s' := NextWithId(k, s.submitted), Exec(s, MisleadingRun(s, k, arrival));
            DeviceOnly(arrival) && k < n && n in s'.resolved && s'.resolved[n] == Completion(IdOf(k), k)
  {
    hide Inv, IdOf, Arrived, Exec, NextWithId, Submits;
    arrival := BringCompletion(s, k);
    var n, s1 := NextWithId(k, s.submitted), Exec(s, arrival);
    var d := Dropped(s1, k);
    ArrivedFacts(s1, k);
    var submits := Submits(n + 1 - s.submitted);
    SubmitMany(d, |submits|);
    DropExec(s, k, arrival);
    ExecConcat(s, [Abandon(k)] + arrival, submits);
    ExecLast(s, [Abandon(k)] + arrival + submits, Poll(n));
    PollTakes(Exec(d, submits), n, Completion(IdOf(k), k));
  }

  lemma PollTakes(s: State, n: nat, c: Completion)
    requires !s.panicked && n in s.futures && s.futures[n] == c.id && c.id in s.pending && s.pending[c.id] == Ready(c)
    ensures n in Next(s, Poll(n)).resolved && Next(s, Poll(n)).resolved[n] == c
  {
  }

  lemma ArrivedFacts(s: State, k: nat)
    requires Inv(s) && !s.reused && Arrived(s, k)
    ensures !s.panicked && s.nextId == IdOf(s.submitted) && k < s.submitted
    ensures IdOf(k) in s.pending && s.pending[IdOf(k)] == Ready(Completion(IdOf(k), k))
  {
  }

  lemma DropExec(s: State, k: nat, arrival: seq<Step>)
    requires Inv(s) && !s.reused && k in s.futures && DeviceOnly(arrival)
    ensures Exec(s, [Abandon(k)] + arrival) == Dropped(Exec(s, arrival), k)
  {
    NotReusedNoPanic(s);
    hide Inv, DeviceOnly;
    assert Next(s, Abandon(k)) == Dropped(s, k);
    DropUnnoticed(s, k, arrival);
    assert ([Abandon(k)] + arrival)[1..] == arrival;
  }

  /** At each submission every unresolved future is younger than 65536 submissions. */
  ghost predicate WindowAlways(s: State, steps: seq<Step>)
    decreases |steps|
  {
    steps == [] || ((steps[0].Submit? ==> InWindow(s)) && WindowAlways(Next(s, steps[0]), steps[1..]))
  }

  lemma {:induction false} WindowConcat(s: State, a: seq<Step>, b: seq<Step>)
    requires WindowAlways(s, a) && WindowAlways(Exec(s, a), b)
    ensures WindowAlways(s, a + b)
    decreases |a|
  {
    if a == [] {
      assert a + b == b;
    } else {
      WindowConcat(Next(s, a[0]), a[1..], b);
      assert (a + b)[1..] == a[1..] + b;
    }
  }

  lemma {:induction false} NoSubmissions(s: State, steps: seq<Step>)
    requires forall i :: 0 <= i < |steps| ==> !steps[i].Submit?
    ensures WindowAlways(s, steps)
    decreases |steps|
  {
    if steps != [] { NoSubmissions(Next(s, steps[0]), steps[1..]); }
  }

  lemma {:induction false} SubmitsInWindow(s: State, k: nat, m: nat)
    requires k < s.submitted && s.submitted + m <= k + IDS + 1 && forall j :: j in s.futures ==> k < j
    ensures WindowAlways(s, Submits(m))
    decreases m
  {
    if m > 0 {
      SubmitsInWindow(Next(s, Submit), k, m - 1);
      assert Submits(m)[1..] == Submits(m - 1);
    }
  }

  /** The window does not help against drops: if the dropped future is the oldest unresolved one, the
      misleading run stays inside the window. */
  lemma AbandonInsideWindow(s: State, k: nat, arrival: seq<Step>)
    requires Inv(s) && !s.reused && k in s.futures && InWindow(s) && DeviceOnly(arrival)
    requires forall j :: j in s.futures ==> k <= j
    ensures WindowAlways(s, MisleadingRun(s, k, arrival))
  {
    hide Inv, Exec, WindowAlways, NextWithId, IdOf, Next;
    var n := NextWithId(k, s.submitted);
    var front, submits := [Abandon(k)] + arrival, Submits(n + 1 - s.submitted);
    FutureBelow(s, k);
    CalmKeeps(s, arrival);
    DropExec(s, k, arrival);
    NoSubmissions(s, front);
    SubmitsInWindow(Exec(s, front), k, |submits|);
    WindowConcat(s, front, submits);
    NoSubmissions(Exec(s, front + submits), [Poll(n)]);
    WindowConcat(s, front + submits, [Poll(n)]);
  }

  lemma FutureBelow(s: State, k: nat)
    requires Inv(s) && !s.reused && k in s.futures
    ensures k < s.submitted
  {
  }

  /** From the start: the first future is dropped, every later submission is inside the window, and the
      65537th future resolves with the answer to the first. */
  lemma AbandonHappens(s: State)
    requires Initial(s)
    ensures exists steps :: WindowAlways(s, steps) && IDS in Exec(s, steps).resolved
              && Exec(s, steps).resolved[IDS] == Completion(0, 0)
  {
    var s1 := Next(s, Submit);
    InitialInv(s);
    NextInv(s, Submit);
    assert InWindow(s1) && 0 in s1.futures && NextWithId(0, s1.submitted) == IDS;
    var arrival := AbandonMisleads(s1, 0);
    AbandonInsideWindow(s1, 0, arrival);
    hide Inv, MisleadingRun, WindowAlways, Next;
    var steps := MisleadingRun(s1, 0, arrival);
    FirstStep(s, steps);
    assert WindowAlways(s, [Submit] + steps);
  }

  lemma FirstStep(s: State, steps: seq<Step>)
    requires Initial(s)
    ensures Exec(s, [Submit] + steps) == Exec(Next(s, Submit), steps)
    ensures WindowAlways(Next(s, Submit), steps) ==> WindowAlways(s, [Submit] + steps)
  {
    assert ([Submit] + steps)[1..] == steps;
  }

  ghost predicate OnlySubmitted(s: State, n: nat) {
    && s.submitted == n && s.ring == [] && !s.panicked && !s.reused
    && (forall k :: 0 <= k < n <==> k in s.inFlight) && s.inFlight == s.futures
  }

  /** A run of `n` submissions, none of which the device has answered. */
  lemma {:induction false} ManySubmissions(s: State, n: nat) returns (steps: seq<Step>)
    requires Initial(s) && n <= IDS
    ensures Inv(Exec(s, steps)) && OnlySubmitted(Exec(s, steps), n)
  {
    if n == 0 {
      steps := [];
      InitialInv(s);
    } else {
      steps := ManySubmissions(s, n - 1);
      var s' := Exec(s, steps);
      ExecLast(s, steps, Submit);
      NextInv(s', Submit);
      WindowIsUnique(s');
      hide Exec, Inv;
      steps := steps + [Submit];
    }
  }

  /** Such a run exists: the 65537th submission gets the id of the first, which is still unanswered. */
  lemma ReuseHappens(s: State)
    requires Initial(s)
    ensures exists steps :: Exec(s, steps).panicked
  {
    hide Inv, Exec, IdOf, Calm;
    var steps := ManySubmissions(s, IDS);
    SameIds(0);
    var a, b := ReuseCanPanic(Exec(s, steps), 0);
    ExecConcat(s, steps, a + [Submit] + b);
  }
}
