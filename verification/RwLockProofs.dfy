/** Safety of the read/write lock over every run, and what a failed `try_read` does to it. */
module RwLockProofs {
  import opened RwLock

  // ---- Counting tasks ----

  lemma Moved(pcs: map<nat, Pc>, t: nat, pc: Pc, role: Role)
    requires t in pcs
    ensures var before, after := Members(pcs, role), Members(pcs[t := pc], role);
            && after == (if Has(role, pc) then before + {t} else before - {t})
            && (t in before <==> Has(role, pcs[t]))
            && |after| == |before| + One(Has(role, pc)) - One(Has(role, pcs[t]))
  {
    var before, after := Members(pcs, role), Members(pcs[t := pc], role);
    assert after == if Has(role, pc) then before + {t} else before - {t};
  }

  lemma OneMember(x: set<nat>, t: nat, u: nat)
    requires |x| <= 1 && t in x && u in x
    ensures t == u
  {
    assert |x - {t}| == 0;
    assert u in x - {t} || u == t;
  }

  /** The mutex has one holder. */
  lemma MutexExcludes(s: Lock, t: nat, u: nat)
    requires MutexLaw(s) && t in s.pcs && u in s.pcs && Has(HoldsMutex, s.pcs[t]) && Has(HoldsMutex, s.pcs[u])
    ensures t == u
  {
    OneMember(Members(s.pcs, HoldsMutex), t, u);
  }

  // ---- Each law is kept by every step ----

  lemma ActCounts(v: View, a: Action)
    ensures var w := Act(v, a);
            && w.mutex + One(Has(HoldsMutex, w.pc)) == v.mutex + One(Has(HoldsMutex, v.pc))
            && w.readers - One(Has(Counted, w.pc)) - w.lost == v.readers - One(Has(Counted, v.pc)) - v.lost
            && w.lost >= v.lost
  {
  }

  lemma MutexKept(s: Lock, a: Action)
    requires MutexLaw(s) && CountLaw(s)
    ensures MutexLaw(Step(s, a)) && CountLaw(Step(s, a))
  {
    if a.t in s.pcs {
      ActCounts(ViewOf(s, a.t), a);
      var pc := Act(ViewOf(s, a.t), a).pc;
      Moved(s.pcs, a.t, pc, HoldsMutex);
      Moved(s.pcs, a.t, pc, Counted);
      hide Members, Act, Has;
    }
  }

  /** A task that holds the mutex and is not a first reader itself: if anyone else is counted,
      that task has a read guard. */
  lemma OthersShare(s: Lock, t: nat)
    requires MutexLaw(s) && t in s.pcs && Has(HoldsMutex, s.pcs[t]) && Members(s.pcs, Counted) - {t} != {}
    ensures Members(s.pcs, Sharing) - {t} != {}
  {
    var u :| u in Members(s.pcs, Counted) - {t};
    if Entering(s.pcs[u]) {
      MutexExcludes(s, t, u);
    }
    assert u in Members(s.pcs, Sharing);
  }

  /** The readers that share the write permit after `t`, which holds the mutex, has left. */
  lemma LastLeaves(s: Lock, t: nat)
    requires MutexLaw(s) && t in s.pcs && Has(HoldsMutex, s.pcs[t]) && Members(s.pcs, Counted) - {t} == {}
    ensures Members(s.pcs, Sharing) - {t} == {}
  {
    if u :| u in Members(s.pcs, Sharing) - {t} {
      if s.pcs[u].DropSignal? {
        MutexExcludes(s, t, u);
      } else {
        assert false;
      }
    }
  }

  lemma Empty(x: set<nat>)
    ensures |x| == 0 <==> x == {}
  {
  }

  /** What a step does with the write permit, from what the acting task sees: `others` says
      whether other tasks share the permit, and `rest` is the number of other counted tasks. */
  lemma ActWrite(v: View, a: Action, writers: nat, others: bool, rest: nat)
    requires Act(v, a).lost == 0
    requires v.readers == rest + One(Has(Counted, v.pc))
    requires Has(HoldsMutex, v.pc) ==> (rest == 0 <==> !others)
    requires v.pc.DropSignal? || Entering(v.pc) ==> rest == 0
    requires v.write + writers + One(others || Has(Sharing, v.pc)) == 1 && writers >= One(Has(Writer, v.pc))
    ensures var w := Act(v, a);
            w.write + (writers + One(Has(Writer, w.pc)) - One(Has(Writer, v.pc))) + One(others || Has(Sharing, w.pc)) == 1
  {
  }

  /** What the laws say to task `t` about the other tasks. */
  lemma Others(s: Lock, t: nat)
    requires Inv(s) && s.lost == 0 && t in s.pcs
    ensures var pc, others, counted := s.pcs[t], Members(s.pcs, Sharing) - {t}, Members(s.pcs, Counted) - {t};
            && s.readers == |counted| + One(Has(Counted, pc))
            && (Has(HoldsMutex, pc) ==> (counted == {} <==> others == {}))
            && (pc.DropSignal? || Entering(pc) ==> counted == {})
            && s.write + |Members(s.pcs, Writer)| + One(others != {} || Has(Sharing, pc)) == 1
            && |Members(s.pcs, Writer)| >= One(Has(Writer, pc))
  {
    var pc := s.pcs[t];
    Moved(s.pcs, t, pc, Writer);
    Moved(s.pcs, t, pc, Sharing);
    Moved(s.pcs, t, pc, Counted);
    hide Members, MutexLaw, Has, Entering;
    if Has(HoldsMutex, pc) {
      if Members(s.pcs, Counted) - {t} == {} {
        LastLeaves(s, t);
      } else {
        OthersShare(s, t);
      }
    }
    WithMember(Members(s.pcs, Counted), t, Has(Counted, pc));
    WithMember(Members(s.pcs, Writer), t, Has(Writer, pc));
    WithMember(Members(s.pcs, Sharing), t, Has(Sharing, pc));
  }

  lemma WriteKept(s: Lock, a: Action)
    requires Inv(s) && Step(s, a).lost == 0
    ensures s.lost == 0 && WriteLaw(Step(s, a))
  {
    hide Members, MutexLaw, CountLaw, TurnLaw, SeenLaw, Act, Has, Entering;
    if a.t in s.pcs {
      var t, v := a.t, ViewOf(s, a.t);
      var pc := Act(v, a).pc;
      ActCounts(v, a);
      Moved(s.pcs, t, pc, Writer);
      Others(s, t);
      var others, counted := Members(s.pcs, Sharing) - {t}, Members(s.pcs, Counted) - {t};
      Empty(counted);
      ActWrite(v, a, |Members(s.pcs, Writer)|, others != {}, |counted|);
      ShareAfter(s.pcs, t, pc);
    }
  }

  lemma ShareAfter(pcs: map<nat, Pc>, t: nat, pc: Pc)
    requires t in pcs
    ensures Members(pcs[t := pc], Sharing) != {} <==> Members(pcs, Sharing) - {t} != {} || Has(Sharing, pc)
  {
    Moved(pcs, t, pc, Sharing);
    hide Members;
    var before := Members(pcs, Sharing);
    assert Has(Sharing, pc) ==> t in before + {t};
  }

  lemma WithMember(x: set<nat>, t: nat, has: bool)
    requires t in x <==> has
    ensures |x| == |x - {t}| + One(has)
    ensures x != {} <==> x - {t} != {} || has
  {
    if has {
      assert x == x - {t} + {t};
    } else {
      assert x - {t} == x;
    }
  }

  lemma TurnKept(s: Lock, a: Action)
    requires Inv(s) && Step(s, a).lost == 0
    ensures TurnLaw(Step(s, a)) && SeenLaw(Step(s, a))
  {
    if a.t in s.pcs {
      ActCounts(ViewOf(s, a.t), a);
      ActSeen(ViewOf(s, a.t), a);
      var s' := Step(s, a);
      forall u | u in s'.pcs && (Entering(s'.pcs[u]) || s'.pcs[u].DropSignal?)
        ensures Members(s'.pcs, Counted) == if Entering(s'.pcs[u]) then {u} else {}
      {
        if u != a.t {
          StaysTurn(s, a, u);
        } else {
          OwnTurn(s, a);
        }
      }
      hide Act;
    }
  }

  lemma ActSeen(v: View, a: Action)
    requires v.write <= 1 && (v.pc.TryReadWaitCas? ==> v.pc.c == 1)
    ensures Act(v, a).pc.TryReadWaitCas? ==> Act(v, a).pc.c == 1
  {
  }

  /** While a first or last reader holds the mutex, no other task enters or leaves the count. */
  lemma StaysTurn(s: Lock, a: Action, u: nat)
    requires Inv(s) && s.lost == 0 && a.t in s.pcs && u in s.pcs && u != a.t && (Entering(s.pcs[u]) || s.pcs[u].DropSignal?)
    ensures Members(Step(s, a).pcs, Counted) == Members(s.pcs, Counted)
  {
    if Has(HoldsMutex, s.pcs[a.t]) {
      MutexExcludes(s, a.t, u);
    }
    ActOutside(ViewOf(s, a.t), a);
    Moved(s.pcs, a.t, Act(ViewOf(s, a.t), a).pc, Counted);
    hide Members, Act;
  }

  /** Without the mutex a task neither enters nor leaves the count. */
  lemma ActOutside(v: View, a: Action)
    requires !Has(HoldsMutex, v.pc)
    ensures Has(Counted, Act(v, a).pc) == Has(Counted, v.pc)
  {
  }

  lemma OwnTurn(s: Lock, a: Action)
    requires Inv(s) && Step(s, a).lost == 0 && a.t in s.pcs
    ensures var s' := Step(s, a);
            Entering(s'.pcs[a.t]) || s'.pcs[a.t].DropSignal? ==>
              Members(s'.pcs, Counted) == if Entering(s'.pcs[a.t]) then {a.t} else {}
  {
    var t, v := a.t, ViewOf(s, a.t);
    var w := Act(v, a);
    ActCounts(v, a);
    ActTurn(v, a);
    Moved(s.pcs, t, w.pc, Counted);
    var counted := Members(s.pcs, Counted);
    WithMember(counted, t, Has(Counted, v.pc));
    Empty(counted - {t});
    assert (Entering(v.pc) ==> counted == {t}) && (v.pc.DropSignal? ==> counted == {});
    hide Members, Act, Has;
    assert Entering(w.pc) ==> Has(Counted, w.pc) by { TurnRoles(w.pc); }
    assert w.pc.DropSignal? ==> !Has(Counted, w.pc) by { TurnRoles(w.pc); }
    TurnRoles(v.pc);
  }

  lemma TurnRoles(pc: Pc)
    ensures Entering(pc) ==> Has(Counted, pc)
    ensures pc.DropSignal? ==> !Has(Counted, pc)
  {
  }

  /** Who becomes a first or last reader saw that no other task was counted. */
  lemma ActTurn(v: View, a: Action)
    ensures var w := Act(v, a);
            Entering(w.pc) || w.pc.DropSignal? ==>
              Entering(v.pc) || v.pc.DropSignal? || v.readers == One(Has(Counted, v.pc))
  {
  }

  /** Every step keeps the invariant. */
  lemma StepInv(s: Lock, a: Action)
    requires Inv(s)
    ensures Inv(Step(s, a)) && Step(s, a).lost >= s.lost
  {
    MutexKept(s, a);
    if a.t in s.pcs { ActCounts(ViewOf(s, a.t), a); }
    if Step(s, a).lost == 0 {
      WriteKept(s, a);
      TurnKept(s, a);
    }
  }

  lemma InitialInv(s: Lock)
    requires Initial(s)
    ensures Inv(s)
  {
    assert Members(s.pcs, HoldsMutex) == {} && Members(s.pcs, Counted) == {};
    assert Members(s.pcs, Writer) == {} && Members(s.pcs, Sharing) == {};
  }

  lemma {:induction false} RunInv(s: Lock, actions: seq<Action>)
    requires Inv(s)
    ensures Inv(Exec(s, actions)) && Exec(s, actions).lost >= s.lost
    decreases |actions|
  {
    if actions != [] {
      StepInv(s, actions[0]);
      RunInv(Step(s, actions[0]), actions[1..]);
    }
  }

  lemma InvExclusive(s: Lock)
    requires Inv(s) && s.lost == 0
    ensures Exclusive(s)
  {
    forall t, u | t in s.pcs && u in s.pcs && t != u && s.pcs[t].Writing?
      ensures !s.pcs[u].Writing? && !ReadGuard(s.pcs[u])
    {
      assert t in Members(s.pcs, Writer);
      assert u in Members(s.pcs, Writer) <==> s.pcs[u].Writing?;
      assert ReadGuard(s.pcs[u]) ==> u in Members(s.pcs, Sharing);
      Empty(Members(s.pcs, Writer));
      if s.pcs[u].Writing? {
        OneMember(Members(s.pcs, Writer), t, u);
      }
    }
  }

  /** A run keeps exclusion as long as no call has given up after raising the reader count. */
  lemma UnlostExclusive(s: Lock, actions: seq<Action>)
    requires Initial(s) && Exec(s, actions).lost == 0
    ensures Guarded(Exec(s, actions))
  {
    InitialInv(s);
    RunInv(s, actions);
    InvExclusive(Exec(s, actions));
  }

  /** A write guard is the only guard, every permit is free or held, and the count is the number of readers. */
  ghost predicate Guarded(s: Lock) {
    Exclusive(s) && MutexLaw(s) && WriteLaw(s) && s.readers == |Members(s.pcs, Counted)|
  }

  /** The call is not `try_read`, and no future is dropped while it waits. */
  predicate Steady(a: Action) { !a.Cancel? && (a.Begin? ==> !a.op.TryRead?) }

  predicate InTryRead(pc: Pc) {
    pc.TryReadLock? || pc.TryReadLockCas? || pc.TryReadCount? || pc.TryReadWait? || pc.TryReadWaitCas? || pc.TryReadFail?
  }

  ghost predicate NoTryRead(s: Lock) { forall t :: t in s.pcs ==> !InTryRead(s.pcs[t]) }

  lemma ActSteady(v: View, a: Action)
    requires Steady(a) && !InTryRead(v.pc)
    ensures Act(v, a).lost == v.lost && !InTryRead(Act(v, a).pc)
  {
  }

  lemma {:induction false} SteadyLosesNothing(s: Lock, actions: seq<Action>)
    requires NoTryRead(s) && forall i :: 0 <= i < |actions| ==> Steady(actions[i])
    ensures NoTryRead(Exec(s, actions)) && Exec(s, actions).lost == s.lost
    decreases |actions|
  {
    if actions != [] {
      var a := actions[0];
      if a.t in s.pcs { ActSteady(ViewOf(s, a.t), a); }
      hide Act, InTryRead;
      SteadyLosesNothing(Step(s, a), actions[1..]);
    }
  }

  /** In every run of `read`, `write`, their blocking forms, `try_write` and drops of guards, by any
      number of tasks in any interleaving, a write guard never coexists with another guard, every
      permit is free or held exactly once, and the count is the number of readers. */
  lemma RunExclusive(s: Lock, actions: seq<Action>)
    requires Initial(s) && forall i :: 0 <= i < |actions| ==> Steady(actions[i])
    ensures Guarded(Exec(s, actions))
  {
    SteadyLosesNothing(s, actions);
    UnlostExclusive(s, actions);
  }

  /** The decrement in the drop of a read guard does not underflow in any run. */
  lemma RunNoUnderflow(s: Lock, actions: seq<Action>, t: nat)
    requires Initial(s)
    ensures var s' := Exec(s, actions);
            t in s'.pcs && s'.pcs[t].DropCount? ==> s'.readers > 0
  {
    InitialInv(s);
    RunInv(s, actions);
    var s' := Exec(s, actions);
    if t in s'.pcs && s'.pcs[t].DropCount? {
      assert t in Members(s'.pcs, Counted);
      Empty(Members(s'.pcs, Counted));
    }
  }

  // ---- A try_read that fails ----

  lemma WriterExists(s: Lock)
    ensures Members(s.pcs, Writer) != {} <==> exists w :: w in s.pcs && s.pcs[w].Writing?
  {
    if w :| w in s.pcs && s.pcs[w].Writing? {
      assert w in Members(s.pcs, Writer);
    }
    if w :| w in Members(s.pcs, Writer) {
      assert s.pcs[w].Writing?;
    }
  }

  /** The guard of the failing branch: `try_read`, as first reader, fails exactly when some task
      holds the write guard. */
  lemma TryReadFailsIff(s: Lock, t: nat)
    requires Inv(s) && s.lost == 0 && t in s.pcs && (s.pcs[t].TryReadWait? || s.pcs[t].TryReadWaitCas?)
    ensures Step(s, Run(t)).pcs[t].TryReadFail? <==> exists w :: w in s.pcs && s.pcs[w].Writing?
  {
    hide Members, MutexLaw, CountLaw, WriteLaw, TurnLaw;
    Others(s, t);
    Empty(Members(s.pcs, Writer));
    assert s.write == 0 <==> Members(s.pcs, Writer) != {};
    WriterExists(s);
  }

  /** A reader's way in, once the count has been raised by a call that gave up. */
  function WayIn(t: nat, u: nat): seq<Action> {
    [Run(t), Run(t), Begin(u, Read), Run(u), Run(u), Run(u), Run(u)]
  }

  /** Whenever `try_read` fails, any idle task can then get a read guard beside the write guard. */
  lemma FailedTryReadBreaksExclusion(s: Lock, t: nat, w: nat, u: nat)
    requires Inv(s) && s.lost == 0 && t in s.pcs && (s.pcs[t].TryReadWait? || s.pcs[t].TryReadWaitCas?)
    requires w in s.pcs && s.pcs[w].Writing? && u in s.pcs && s.pcs[u].Idle?
    ensures var s' := Exec(s, WayIn(t, u));
            s'.lost == 1 && w in s'.pcs && u in s'.pcs && s'.pcs[w].Writing? && s'.pcs[u].Reading?
    ensures !Exclusive(Exec(s, WayIn(t, u)))
  {
    var s2 := GiveUp(s, t, w, u);
    hide Step, Exec, Inv;
    var s7 := Enter(s2, u, w);
    ExecSeven(s, WayIn(t, u), s7);
  }

  /** The failing call returns the mutex, and leaves the count raised. */
  lemma GiveUp(s: Lock, t: nat, w: nat, u: nat) returns (s': Lock)
    requires Inv(s) && s.lost == 0 && t in s.pcs && (s.pcs[t].TryReadWait? || s.pcs[t].TryReadWaitCas?)
    requires w in s.pcs && s.pcs[w].Writing? && u in s.pcs && s.pcs[u].Idle?
    ensures s' == Step(Step(s, Run(t)), Run(t))
    ensures s'.mutex == 1 && s'.readers >= 1 && s'.lost == 1
    ensures u in s'.pcs && s'.pcs[u].Idle? && w in s'.pcs && s'.pcs[w].Writing?
  {
    TryReadFailsIff(s, t);
    Others(s, t);
    assert s.mutex == 0 by {
      assert t in Members(s.pcs, HoldsMutex);
      Empty(Members(s.pcs, HoldsMutex));
    }
    hide Members, Inv;
    var s1 := Step(s, Run(t));
    assert s1.pcs[t].TryReadFail? && s1.mutex == 0 && s1.lost == 1 && s1.readers >= 1;
    s' := Step(s1, Run(t));
  }

  /** What breaks exclusion once the first reader `t` has been cancelled: `t` writes, unless another task
      does already, and `u` reads. */
  function AfterCancel(s: Lock, t: nat, u: nat): seq<Action> {
    (if s.write == 0 then [] else [Begin(t, Write), Run(t), Run(t)]) + [Begin(u, Read), Run(u), Run(u), Run(u), Run(u)]
  }

  /** Every cancelled first reader leaves the count raised, and then a task can read beside a writer. */
  lemma CancelledReadBreaksExclusion(s: Lock, t: nat, u: nat)
    requires Inv(s) && s.lost == 0 && t in s.pcs && s.pcs[t].ReadWait?
    requires u in s.pcs && u != t && s.pcs[u].Idle?
    ensures var s' := Exec(s, [Cancel(t)] + AfterCancel(s, t, u));
            s'.lost == 1 && u in s'.pcs && s'.pcs[u].Reading? && !Exclusive(s')
  {
    hide Exec, Inv;
    var s1, enter := Step(s, Cancel(t)), [Begin(u, Read), Run(u), Run(u), Run(u), Run(u)];
    GiveUpWaiting(s, t, u);
    ExecFirst(s, Cancel(t), AfterCancel(s, t, u));
    if s.write == 0 {
      var w :| w in s.pcs && s.pcs[w].Writing?;
      assert w in s1.pcs && s1.pcs[w].Writing?;
      hide Step;
      var s' := Enter(s1, u, w);
      assert AfterCancel(s, t, u) == enter;
      ExecFive(s1, enter, s');
    } else {
      var s2 := StartWriting(s1, t);
      assert s2.pcs[t].Writing? && s2.pcs[u].Idle?;
      hide Step;
      var s' := Enter(s2, u, t);
      ExecThree(s1, [Begin(t, Write), Run(t), Run(t)], s2);
      ExecFive(s2, enter, s');
      ExecConcat(s1, [Begin(t, Write), Run(t), Run(t)], enter);
    }
  }

  /** The mutex comes back, the count stays raised, and the write permit is free or a task writes. */
  lemma GiveUpWaiting(s: Lock, t: nat, u: nat)
    requires Inv(s) && s.lost == 0 && t in s.pcs && s.pcs[t].ReadWait?
    requires u in s.pcs && u != t && s.pcs[u].Idle?
    ensures var s' := Step(s, Cancel(t));
            && s'.mutex == 1 && s'.readers >= 1 && s'.lost == 1 && s'.write == s.write
            && u in s'.pcs && s'.pcs[u].Idle? && t in s'.pcs && s'.pcs[t].Idle?
    ensures s.write == 1 || (s.write == 0 && exists w :: w in s.pcs && s.pcs[w].Writing?)
  {
    Others(s, t);
    assert s.mutex == 0 by {
      assert t in Members(s.pcs, HoldsMutex);
      Empty(Members(s.pcs, HoldsMutex));
    }
    Empty(Members(s.pcs, Writer));
    WriterExists(s);
    hide Members, Inv;
  }

  lemma {:induction false} ExecConcat(s: Lock, a: seq<Action>, b: seq<Action>)
    ensures Exec(s, a + b) == Exec(Exec(s, a), b)
    decreases |a|
  {
    hide Step;
    if a == [] {
      assert a + b == b;
    } else {
      ExecConcat(Step(s, a[0]), a[1..], b);
      assert (a + b)[1..] == a[1..] + b;
    }
  }

  lemma ExecFirst(s: Lock, a: Action, rest: seq<Action>)
    ensures Exec(s, [a] + rest) == Exec(Step(s, a), rest)
  {
    assert ([a] + rest)[1..] == rest;
  }

  lemma ExecThree(s: Lock, a: seq<Action>, s3: Lock)
    requires |a| == 3 && s3 == Step(Step(Step(s, a[0]), a[1]), a[2])
    ensures Exec(s, a) == s3
  {
    hide Step;
    var t1 := Step(s, a[0]);
    var t2 := Step(t1, a[1]);
    assert Exec(s, a) == Exec(t1, a[1..]) == Exec(t2, a[2..]) == Exec(s3, a[3..]) by {
      assert a[1..][1..] == a[2..] && a[2..][1..] == a[3..];
    }
  }

  lemma ExecFive(s: Lock, a: seq<Action>, s5: Lock)
    requires |a| == 5 && s5 == Step(Step(Step(Step(Step(s, a[0]), a[1]), a[2]), a[3]), a[4])
    ensures Exec(s, a) == s5
  {
    hide Step, Exec;
    var s3 := Step(Step(Step(s, a[0]), a[1]), a[2]);
    ExecThree(s, a[..3], s3);
    ExecFirst(s3, a[3], [a[4]]);
    ExecFirst(Step(s3, a[3]), a[4], []);
    ExecConcat(s, a[..3], a[3..]);
    ExecNothing(s5);
    assert a[..3] + a[3..] == a && a[3..] == [a[3]] + [a[4]] && [a[4]] + [] == [a[4]];
  }

  lemma ExecNothing(s: Lock)
    ensures Exec(s, []) == s
  {
  }

  /** The read call of `u` in a state where the mutex is free and the count is not zero. */
  lemma Enter(s: Lock, u: nat, w: nat) returns (s': Lock)
    requires u in s.pcs && s.pcs[u].Idle? && s.mutex == 1 && s.readers >= 1 && w in s.pcs && s.pcs[w].Writing?
    ensures s' == Step(Step(Step(Step(Step(s, Begin(u, Read)), Run(u)), Run(u)), Run(u)), Run(u))
    ensures u in s'.pcs && s'.pcs[u].Reading? && w in s'.pcs && s'.pcs[w].Writing? && s'.lost == s.lost
  {
    var s3 := Step(s, Begin(u, Read));
    assert s3.pcs[u].ReadLock? && s3.pcs[w].Writing?;
    var s4 := Step(s3, Run(u));
    assert s4.pcs[u] == ReadLockCas(1) && s4.pcs[w].Writing?;
    var s5 := Step(s4, Run(u));
    assert s5.pcs[u].ReadCount? && s5.pcs[w].Writing?;
    var s6 := Step(s5, Run(u));
    assert s6.pcs[u].ReadUnlock? && s6.pcs[w].Writing?;
    s' := Step(s6, Run(u));
  }

  lemma ExecSeven(s: Lock, a: seq<Action>, s7: Lock)
    requires |a| == 7
    requires s7 == Step(Step(Step(Step(Step(Step(Step(s, a[0]), a[1]), a[2]), a[3]), a[4]), a[5]), a[6])
    ensures Exec(s, a) == s7
  {
    hide Step, Exec;
    var s2 := Step(Step(s, a[0]), a[1]);
    ExecFirst(s, a[0], a[1..]);
    ExecFirst(Step(s, a[0]), a[1], a[2..]);
    ExecFive(s2, a[2..], s7);
    assert a == [a[0]] + a[1..] && a[1..] == [a[1]] + a[2..];
  }

  /** A concrete run: task 0 writes, task 1 fails in `try_read`, and task 2 reads beside task 0. */
  lemma TryReadCounterexample()
    ensures var s := Lock(1, 1, 0, map[0 := Idle, 1 := Idle, 2 := Idle], 0);
            var actions := [Begin(0, Write), Run(0), Run(0), Begin(1, TryRead), Run(1), Run(1), Run(1)];
            Initial(s) && !Exclusive(Exec(Exec(s, actions), WayIn(1, 2)))
  {
    var s := Lock(1, 1, 0, map[0 := Idle, 1 := Idle, 2 := Idle], 0);
    var actions := [Begin(0, Write), Run(0), Run(0), Begin(1, TryRead), Run(1), Run(1), Run(1)];
    InitialInv(s);
    RunInv(s, actions);
    var s3 := StartWriting(s, 0);
    var s7 := StartTryRead(s3, 1);
    hide Exec, Inv, Step;
    ExecSeven(s, actions, s7);
    FailedTryReadBreaksExclusion(s7, 1, 0, 2);
  }

  /** A task that finds the write permit free gets a write guard in three steps. */
  lemma StartWriting(s: Lock, t: nat) returns (s': Lock)
    requires t in s.pcs && s.pcs[t].Idle? && s.write == 1
    ensures s' == Step(Step(Step(s, Begin(t, Write)), Run(t)), Run(t))
    ensures s' == s.(write := 0, pcs := s.pcs[t := Writing])
  {
    var s1 := Step(s, Begin(t, Write));
    assert s1 == s.(pcs := s.pcs[t := WriteWait]);
    var s2 := Step(s1, Run(t));
    assert s2 == s.(pcs := s.pcs[t := WriteWaitCas(1)]);
    s' := Step(s2, Run(t));
  }

  /** `try_read` of a first reader comes to the write semaphore in four steps. */
  lemma StartTryRead(s: Lock, t: nat) returns (s': Lock)
    requires t in s.pcs && s.pcs[t].Idle? && s.mutex == 1 && s.readers == 0
    ensures s' == Step(Step(Step(Step(s, Begin(t, TryRead)), Run(t)), Run(t)), Run(t))
    ensures s' == s.(mutex := 0, readers := 1, pcs := s.pcs[t := TryReadWait])
  {
    var s1 := Step(s, Begin(t, TryRead));
    assert s1 == s.(pcs := s.pcs[t := TryReadLock]);
    var s2 := Step(s1, Run(t));
    assert s2 == s.(pcs := s.pcs[t := TryReadLockCas(1)]);
    var s3 := Step(s2, Run(t));
    assert s3 == s.(mutex := 0, pcs := s.pcs[t := TryReadCount]);
    s' := Step(s3, Run(t));
  }
}
