/** The completion path end to end: the phase-tag ring, the interrupt handler that pops it and the
    table of pending completions. The status of a completion stands for the answer. */
module NvmeCompletions {
  import opened Wrappers
  import opened PendingCompletions
  import Ring = CompletionRing

  function Received(c: Ring.Completion): Completion { Completion(c.id, c.status) }

  function ReceivedAll(cs: seq<Ring.Completion>): (r: seq<Completion>)
    ensures |r| == |cs| && forall i :: 0 <= i < |cs| ==> r[i] == Received(cs[i])
  {
    seq(|cs|, i requires 0 <= i < |cs| => Received(cs[i]))
  }

  lemma ReceivedSnoc(cs: seq<Ring.Completion>, c: Ring.Completion)
    ensures ReceivedAll(cs + [c]) == ReceivedAll(cs) + [Received(c)]
  {
  }

  lemma ReceivedTail(cs: seq<Ring.Completion>)
    ensures ReceivedAll(cs) == [] <==> cs == []
    ensures cs != [] ==> ReceivedAll(cs)[0] == Received(cs[0]) && ReceivedAll(cs[1..]) == ReceivedAll(cs)[1..]
  {
  }

  lemma NoPanic(s: State)
    requires Inv(s) && !s.reused
    ensures !s.panicked
  {
  }

  class CompletionPath {
    const queue: Ring.CompletionQueue
    var nextCmdId: nat
    var pending: map<nat, Entry>
    // the commands that the device works on and the futures that were not resolved, with their ids
    var submitted: nat
    var inFlight: map<nat, nat>
    var futures: map<nat, nat>
    ghost var s: State

    /** Ring, table, ids and commands are those of the state. */
    ghost predicate Valid()
      reads this, queue
    {
      && queue.Valid() && Inv(s)
      && s.nextId == nextCmdId && s.pending == pending
      && s.submitted == submitted && s.inFlight == inFlight && s.futures == futures
      && s.ring == ReceivedAll(queue.Outstanding())
    }

    constructor (entryCount: nat, submitHeads: map<nat, nat>)
      requires entryCount > 0
      ensures Valid() && Initial(s) && fresh(queue) && queue.entryCount == entryCount && queue.submitHeads == submitHeads
    {
      queue := new Ring.CompletionQueue(entryCount, submitHeads);
      nextCmdId, pending := 0, map[];
      submitted, inFlight, futures := 0, map[], map[];
      s := State(0, 0, map[], [], map[], map[], map[], false, false);
      new;
      InitialInv(s);
    }

    /** `wait_for_completion` */
    method WaitForCompletion() returns (id: nat)
      requires Valid() && !s.panicked
      modifies this
      ensures Valid() && s == Next(old(s), Submit) && s.submitted > 0 && s.futures[s.submitted - 1] == id
    {
      hide Inv, Ring.RingOk, ReceivedAll;
      NextInv(s, Submit);
      s := Next(s, Submit);
      id := nextCmdId;
      nextCmdId := (nextCmdId + 1) % IDS;
      inFlight, futures := inFlight[submitted := id], futures[submitted := id];
      submitted := submitted + 1;
    }

    /** The device answers command `k`; the ring has room. */
    method DeviceAnswers(k: nat, submission: nat, head: nat)
      requires Valid() && !s.panicked && k in s.inFlight && |s.ring| < queue.entryCount && submission in queue.submitHeads
      modifies this, queue
      ensures Valid() && s == Next(old(s), Answer(k)) && queue.submitHeads == old(queue.submitHeads)
    {
      hide Inv, Ring.RingOk, ReceivedAll;
      NextInv(s, Answer(k));
      ReceivedSnoc(queue.Outstanding(), Ring.Completion(inFlight[k], submission, head, k));
      queue.Post(Ring.Completion(inFlight[k], submission, head, k));
      inFlight := inFlight - {k};
      s := Next(s, Answer(k));
    }

    /** `handle_interrupt`: pops the ring and enters the completion in the table. */
    method HandleInterrupt() returns (panicked: bool)
      requires Valid() && !s.panicked
      modifies this, queue
      ensures Valid() && s == Next(old(s), Interrupt) && panicked == s.panicked
      ensures queue.submitHeads.Keys == old(queue.submitHeads.Keys)
      ensures !s.reused ==> !panicked
    {
      hide Inv, Ring.RingOk, ReceivedAll;
      NextInv(s, Interrupt);
      if !s.reused { NoPanic(Next(s, Interrupt)); }
      ReceivedTail(queue.Outstanding());
      panicked := false;
      var popped := queue.Pop();
      s := Next(s, Interrupt);
      if popped.Some? {
        var c := Received(popped.value);
        if c.id in pending && pending[c.id].Ready? {
          panicked := true;
        } else {
          pending := pending[c.id := Ready(c)];
        }
      }
    }

    /** `CompletionFuture::poll`: a future resolves exactly when its own completion has arrived. */
    method PollFuture(k: nat, id: nat) returns (r: Option<Completion>)
      requires Valid() && !s.panicked && k in s.futures && s.futures[k] == id
      modifies this
      ensures Valid() && s == Next(old(s), Poll(k))
      ensures !old(s).reused ==> (r.Some? <==> Arrived(old(s), k)) && (r.Some? ==> r.value == Completion(id, k))
    {
      hide Inv, Ring.RingOk, ReceivedAll;
      NextInv(s, Poll(k));
      if !s.reused && id in pending && pending[id].Ready? {
        PollOwn(s, k);
      }
      if id in pending && pending[id].Ready? {
        r := Some(pending[id].completion);
        pending, futures := pending - {id}, futures - {k};
      } else {
        r := None;
        pending := pending[id := Waiting];
      }
      s := Next(s, Poll(k));
    }
  }

  /** The device never answers into a full ring. */
  ghost predicate NoOverrun(s: State, steps: seq<Step>, entryCount: nat)
    decreases |steps|
  {
    steps == [] ||
    ((steps[0].Answer? ==> |s.ring| < entryCount) && NoOverrun(Next(s, steps[0]), steps[1..], entryCount))
  }

  /** Any run of submissions, answers, interrupts and polls over ring and table together: while the
      device does not overrun the ring, no command stays unresolved across 65536 later submissions
      and no future is dropped, the handler does not panic and every future gets its own completion. */
  method Serve(path: CompletionPath, steps: seq<Step>, submission: nat)
    requires path.Valid() && !path.s.panicked && !path.s.reused && submission in path.queue.submitHeads
    requires Windowed(path.s, steps) && NoOverrun(path.s, steps, path.queue.entryCount)
    modifies path, path.queue
    ensures path.Valid() && path.s == Exec(old(path.s), steps) && !path.s.reused && Delivered(path.s)
  {
    ghost var s0 := path.s;
    var i := 0;
    assert steps[0..] == steps;
    while i < |steps|
      invariant 0 <= i <= |steps| && path.Valid() && !path.s.panicked && !path.s.reused
      invariant submission in path.queue.submitHeads
      invariant Windowed(path.s, steps[i..]) && NoOverrun(path.s, steps[i..], path.queue.entryCount)
      invariant Exec(s0, steps) == Exec(path.s, steps[i..])
    {
      ghost var rest := steps[i..];
      assert rest[0] == steps[i] && rest[1..] == steps[i + 1..];
      StepSafe(path.s, rest);
      TakeStep(path, steps[i], submission);
      i := i + 1;
    }
    assert steps[i..] == [];
  }

  lemma StepSafe(s: State, steps: seq<Step>)
    requires Inv(s) && !s.reused && steps != [] && Windowed(s, steps)
    ensures !Next(s, steps[0]).reused && !Next(s, steps[0]).panicked
    ensures steps[0].Abandon? ==> steps[0].k !in s.futures
  {
    NextInv(s, steps[0]);
    if steps[0].Submit? { WindowIsUnique(s); }
  }

  /** One step of a run. What is not possible, such as polling a resolved future, does not happen. */
  method TakeStep(path: CompletionPath, step: Step, submission: nat)
    requires path.Valid() && !path.s.panicked && submission in path.queue.submitHeads
    requires step.Answer? ==> |path.s.ring| < path.queue.entryCount
    requires step.Abandon? ==> step.k !in path.s.futures
    modifies path, path.queue
    ensures path.Valid() && path.s == Next(old(path.s), step) && submission in path.queue.submitHeads
  {
    match step {
      case Submit =>
        var _ := path.WaitForCompletion();
      case Interrupt =>
        var _ := path.HandleInterrupt();
      case Answer(k) =>
        if k in path.inFlight { path.DeviceAnswers(k, submission, 0); }
      case Poll(k) =>
        if k in path.futures { var _ := path.PollFuture(k, path.futures[k]); }
      case Abandon(k) =>
    }
  }
}
