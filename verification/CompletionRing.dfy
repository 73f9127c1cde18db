/** The NVMe completion queue: a ring whose entries carry a phase tag that flips on every lap, and
    the device that fills it. */
module CompletionRing {
  import opened Wrappers

  /** A completion: the command it answers, the submission queue and its head, and the status. */
  datatype Completion = Completion(id: nat, queue: nat, head: nat, status: nat)

  /** A slot of the ring: a completion and the phase tag stored with it. */
  datatype Slot = Slot(completion: Completion, phase: bool)

  /** How far slot `i` of a ring with `n` slots is ahead of the head. */
  function Distance(n: nat, head: nat, i: nat): int { if i >= head then i - head else i - head + n }

  /** The phase tag that slot `i` has when it is filled next. */
  function NextPhase(head: nat, phase: bool, i: nat): bool { if i >= head then phase else !phase }

  ghost predicate SlotOk(slots: seq<Slot>, head: nat, phase: bool, outstanding: seq<Completion>, i: nat)
    requires i < |slots| && head < |slots|
  {
    var d := Distance(|slots|, head, i);
    if d < |outstanding| then slots[i] == Slot(outstanding[d], NextPhase(head, phase, i))
    else slots[i].phase != NextPhase(head, phase, i)
  }

  /** The slots from the head on hold what is outstanding; every other slot has a stale phase. */
  ghost predicate RingOk(slots: seq<Slot>, head: nat, phase: bool, outstanding: seq<Completion>) {
    && head < |slots| && |outstanding| <= |slots|
    && forall i :: 0 <= i < |slots| ==> SlotOk(slots, head, phase, outstanding, i)
  }

  lemma RingPosted(slots: seq<Slot>, head: nat, phase: bool, outstanding: seq<Completion>, i: nat, c: Completion)
    requires RingOk(slots, head, phase, outstanding) && i < |slots| && Distance(|slots|, head, i) == |outstanding|
    ensures RingOk(slots[i := Slot(c, NextPhase(head, phase, i))], head, phase, outstanding + [c])
  {
    var slots' := slots[i := Slot(c, NextPhase(head, phase, i))];
    forall j | 0 <= j < |slots| ensures SlotOk(slots', head, phase, outstanding + [c], j) {
      assert SlotOk(slots, head, phase, outstanding, j);
    }
  }

  lemma RingPopped(slots: seq<Slot>, head: nat, phase: bool, outstanding: seq<Completion>)
    requires RingOk(slots, head, phase, outstanding) && outstanding != []
    ensures if head + 1 < |slots| then RingOk(slots, head + 1, phase, outstanding[1..])
            else RingOk(slots, 0, !phase, outstanding[1..])
  {
    var head', phase' := if head + 1 < |slots| then head + 1 else 0, if head + 1 < |slots| then phase else !phase;
    forall j | 0 <= j < |slots| ensures SlotOk(slots, head', phase', outstanding[1..], j) {
      assert SlotOk(slots, head, phase, outstanding, j);
    }
  }

  class CompletionQueue {
    const entryCount: nat
    var slots: seq<Slot>
    var head: nat
    var currentPhase: bool
    var doorbell: nat
    var submitHeads: map<nat, nat>
    // the device's side
    var deviceTail: nat
    var devicePhase: bool
    // every completion that the device has posted, and those that were popped
    ghost var posted: seq<Completion>
    ghost var popped: seq<Completion>

    ghost function Outstanding(): seq<Completion>
      requires |popped| <= |posted|
      reads this
    {
      posted[|popped|..]
    }

    ghost predicate Valid()
      reads this
    {
      && |slots| == entryCount && head < entryCount && popped <= posted
      && |Outstanding()| <= entryCount
      && deviceTail == (if head + |Outstanding()| < entryCount then head + |Outstanding()| else head + |Outstanding()| - entryCount)
      && (devicePhase == currentPhase <==> head + |Outstanding()| < entryCount)
      && RingOk(slots, head, currentPhase, Outstanding())
      && (forall i :: 0 <= i < |Outstanding()| ==> Outstanding()[i].queue in submitHeads)
    }

    /** `new`: zeroed memory, so no entry has the phase that is expected first. */
    constructor (entryCount: nat, submitHeads: map<nat, nat>)
      requires entryCount > 0
      ensures Valid() && posted == [] && popped == [] && this.entryCount == entryCount && this.submitHeads == submitHeads
    {
      this.entryCount := entryCount;
      slots := seq(entryCount, _ => Slot(Completion(0, 0, 0, 0), false));
      head, currentPhase, doorbell := 0, true, 0;
      this.submitHeads := submitHeads;
      deviceTail, devicePhase := 0, true;
      posted, popped := [], [];
    }

    /** The device posts a completion. It does not overrun the ring, and it names a submission
        queue that belongs to the ring. */
    method Post(c: Completion)
      requires Valid() && |Outstanding()| < entryCount && c.queue in submitHeads
      modifies this`slots, this`deviceTail, this`devicePhase, this`posted
      ensures Valid() && posted == old(posted) + [c] && Outstanding() == old(Outstanding()) + [c]
    {
      RingPosted(slots, head, currentPhase, Outstanding(), deviceTail, c);
      assert NextPhase(head, currentPhase, deviceTail) == devicePhase;
      hide RingOk;
      slots := slots[deviceTail := Slot(c, devicePhase)];
      deviceTail := deviceTail + 1;
      if deviceTail >= entryCount {
        deviceTail := 0;
        devicePhase := !devicePhase;
      }
      posted := posted + [c];
      assert Outstanding() == old(Outstanding()) + [c];
    }

    /** `pop`: the oldest completion that was not popped yet, or nothing exactly when there is none. */
    method Pop() returns (r: Option<Completion>)
      requires Valid()
      modifies this`head, this`currentPhase, this`doorbell, this`submitHeads, this`popped
      ensures Valid() && submitHeads.Keys == old(submitHeads.Keys)
      ensures r.None? <==> old(Outstanding()) == []
      ensures r.None? ==> unchanged(this)
      ensures r.Some? ==>
        && r.value == old(Outstanding())[0] && popped == old(popped) + [r.value]
        && Outstanding() == old(Outstanding())[1..]
        && submitHeads == old(submitHeads)[r.value.queue := r.value.head] && doorbell == head
    {
      assert SlotOk(slots, head, currentPhase, Outstanding(), head);
      var slot := slots[head];
      if slot.phase == currentPhase {
        ghost var pending := Outstanding();
        assert slot.completion == pending[0];
        RingPopped(slots, head, currentPhase, pending);
        hide RingOk;
        head := head + 1;
        if head >= entryCount {
          head := 0;
          currentPhase := !currentPhase;
        }
        submitHeads := submitHeads[slot.completion.queue := slot.completion.head];
        doorbell := head;
        popped := popped + [slot.completion];
        assert Outstanding() == pending[1..];
        r := Some(slot.completion);
      } else {
        r := None;
      }
    }
  }
}
