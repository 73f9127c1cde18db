/** The task read/write lock: a mutex around the reader count and a semaphore for write access.
    Every atomic load, exchange and add of any task is one step, and steps of any number of tasks
    interleave freely. A task that waits may look again at any time, so wake-ups are not modelled. */
module RwLock {

  /** Where a task is in its call. `c` is the permit count that it has loaded. */
  datatype Pc =
    | Idle
    // read
    | ReadLock | ReadLockCas(c: nat) | ReadCount | ReadWait | ReadWaitCas(c: nat)
    // try_read
    | TryReadLock | TryReadLockCas(c: nat) | TryReadCount | TryReadWait | TryReadWaitCas(c: nat) | TryReadFail
    // a read guard exists: the call gives the mutex back, then the caller reads
    | ReadUnlock | Reading
    // drop of a read guard
    | DropLock | DropLockCas(c: nat) | DropCount | DropSignal | DropUnlock
    // write, try_write and the write guard
    | WriteWait | WriteWaitCas(c: nat) | TryWriteWait | TryWriteWaitCas(c: nat) | Writing

  /** Permits of the mutex and of the write semaphore, the reader count, and the tasks. `lost`
      counts the calls that gave up after they had raised the reader count. */
  datatype Lock = Lock(mutex: nat, write: nat, readers: nat, pcs: map<nat, Pc>, lost: nat)

  datatype Operation = Read | TryRead | Write | TryWrite

  datatype Action =
    | Begin(t: nat, op: Operation)  // an idle task calls the lock
    | Drop(t: nat)                  // the owner of a guard drops it
    | Run(t: nat)                   // the next atomic step
    | Cancel(t: nat)                // a waiting future is dropped

  ghost predicate Initial(s: Lock) {
    s.mutex == 1 && s.write == 1 && s.readers == 0 && s.lost == 0 && forall t :: t in s.pcs ==> s.pcs[t] == Idle
  }

  /** What one task sees: its own place, and the shared counts. */
  datatype View = View(pc: Pc, mutex: nat, write: nat, readers: nat, lost: nat)

  function ViewOf(s: Lock, t: nat): View
    requires t in s.pcs
  {
    View(s.pcs[t], s.mutex, s.write, s.readers, s.lost)
  }

  /** An action of a task that does not exist, or that is not possible, changes nothing. */
  function Step(s: Lock, a: Action): Lock {
    if a.t !in s.pcs then s
    else
      var v := Act(ViewOf(s, a.t), a);
      Lock(v.mutex, v.write, v.readers, s.pcs[a.t := v.pc], v.lost)
  }

  function Act(v: View, a: Action): View {
    match a
    case Begin(_, op) => if v.pc.Idle? then v.(pc := StartOf(op)) else v
    case Drop(_) =>
      if v.pc.Reading? then v.(pc := DropLock)
      else if v.pc.Writing? then v.(write := v.write + 1, pc := Idle)
      else v
    case Run(_) => RunStep(v)
    // dropping a future that waits for the write semaphore also drops the mutex guard it holds
    case Cancel(_) =>
      if v.pc.ReadLock? || v.pc.WriteWait? then v.(pc := Idle)
      else if v.pc.ReadWait? then v.(mutex := v.mutex + 1, lost := v.lost + 1, pc := Idle)
      else v
  }

  function StartOf(op: Operation): Pc {
    match op
    case Read => ReadLock
    case TryRead => TryReadLock
    case Write => WriteWait
    case TryWrite => TryWriteWait
  }

  /** What a failed exchange does in a waiting call: look at the count again, or wait. */
  function Retry(now: nat, wait: Pc, cas: Pc): Pc { if now == 0 then wait else cas }

  function RunStep(v: View): View {
    match v.pc
    case ReadLock => if v.mutex == 0 then v else v.(pc := ReadLockCas(v.mutex))
    case ReadLockCas(c) =>
      if v.mutex == c && c > 0 then v.(mutex := c - 1, pc := ReadCount)
      else v.(pc := Retry(v.mutex, ReadLock, ReadLockCas(v.mutex)))
    case ReadCount =>
      v.(readers := v.readers + 1, pc := if v.readers + 1 == 1 then ReadWait else ReadUnlock)
    case ReadWait => if v.write == 0 then v else v.(pc := ReadWaitCas(v.write))
    case ReadWaitCas(c) =>
      if v.write == c && c > 0 then v.(write := c - 1, pc := ReadUnlock)
      else v.(pc := Retry(v.write, ReadWait, ReadWaitCas(v.write)))
    case TryReadLock => v.(pc := if v.mutex == 0 then Idle else TryReadLockCas(v.mutex))
    case TryReadLockCas(c) =>
      if v.mutex == c && c > 0 then v.(mutex := c - 1, pc := TryReadCount) else v.(pc := Idle)
    case TryReadCount =>
      v.(readers := v.readers + 1, pc := if v.readers + 1 == 1 then TryReadWait else ReadUnlock)
    case TryReadWait =>
      if v.write == 0 then v.(lost := v.lost + 1, pc := TryReadFail) else v.(pc := TryReadWaitCas(v.write))
    case TryReadWaitCas(c) =>
      if v.write == c && c > 0 then v.(write := c - 1, pc := ReadUnlock)
      else v.(lost := v.lost + 1, pc := TryReadFail)
    case TryReadFail => v.(mutex := v.mutex + 1, pc := Idle)
    case ReadUnlock => v.(mutex := v.mutex + 1, pc := Reading)
    case DropLock => if v.mutex == 0 then v else v.(pc := DropLockCas(v.mutex))
    case DropLockCas(c) =>
      if v.mutex == c && c > 0 then v.(mutex := c - 1, pc := DropCount)
      else v.(pc := Retry(v.mutex, DropLock, DropLockCas(v.mutex)))
    case DropCount =>
      if v.readers == 0 then v  // the subtraction would underflow
      else v.(readers := v.readers - 1, pc := if v.readers - 1 == 0 then DropSignal else DropUnlock)
    case DropSignal => v.(write := v.write + 1, pc := DropUnlock)
    case DropUnlock => v.(mutex := v.mutex + 1, pc := Idle)
    case WriteWait => if v.write == 0 then v else v.(pc := WriteWaitCas(v.write))
    case WriteWaitCas(c) =>
      if v.write == c && c > 0 then v.(write := c - 1, pc := Writing)
      else v.(pc := Retry(v.write, WriteWait, WriteWaitCas(v.write)))
    case TryWriteWait => v.(pc := if v.write == 0 then Idle else TryWriteWaitCas(v.write))
    case TryWriteWaitCas(c) =>
      if v.write == c && c > 0 then v.(write := c - 1, pc := Writing) else v.(pc := Idle)
    case _ => v
  }

  function Exec(s: Lock, actions: seq<Action>): Lock
    decreases |actions|
  {
    if actions == [] then s else Exec(Step(s, actions[0]), actions[1..])
  }

  // ---- Who holds what ----

  datatype Role = HoldsMutex | Counted | Sharing | Writer

  predicate Has(role: Role, pc: Pc) {
    match role
    case HoldsMutex =>
      pc.ReadCount? || pc.ReadWait? || pc.ReadWaitCas? || pc.TryReadCount? || pc.TryReadWait? || pc.TryReadWaitCas? ||
      pc.TryReadFail? || pc.ReadUnlock? || pc.DropCount? || pc.DropSignal? || pc.DropUnlock?
    // in the reader count
    case Counted => Entering(pc) || ReadGuard(pc)
    // the readers hold the write permit together
    case Sharing => ReadGuard(pc) || pc.DropSignal?
    case Writer => pc.Writing?
  }

  /** The first reader: it is counted and still needs the write permit. */
  predicate Entering(pc: Pc) { pc.ReadWait? || pc.ReadWaitCas? || pc.TryReadWait? || pc.TryReadWaitCas? }

  /** A read guard exists, or is being dropped and still counted. */
  predicate ReadGuard(pc: Pc) { pc.ReadUnlock? || pc.Reading? || pc.DropLock? || pc.DropLockCas? || pc.DropCount? }

  ghost function Members(pcs: map<nat, Pc>, role: Role): set<nat> { set t | t in pcs && Has(role, pcs[t]) }

  /** A write guard is the only guard. */
  ghost predicate Exclusive(s: Lock) {
    forall t, u :: t in s.pcs && u in s.pcs && t != u && s.pcs[t].Writing? ==> !s.pcs[u].Writing? && !ReadGuard(s.pcs[u])
  }

  function One(b: bool): nat { if b then 1 else 0 }

  /** The mutex permit is free or held by one task, always. */
  ghost predicate MutexLaw(s: Lock) { s.mutex + |Members(s.pcs, HoldsMutex)| == 1 }

  /** The reader count counts the readers, and the calls that gave up. */
  ghost predicate CountLaw(s: Lock) { s.readers == |Members(s.pcs, Counted)| + s.lost }

  /** The write permit is free, or held by one writer, or held by the readers together. */
  ghost predicate WriteLaw(s: Lock) {
    s.write + |Members(s.pcs, Writer)| + One(Members(s.pcs, Sharing) != {}) == 1
  }

  /** A first reader is the only one counted; who is about to give the write permit back is the last. */
  ghost predicate TurnLaw(s: Lock) {
    && (forall t :: t in s.pcs && Entering(s.pcs[t]) ==> Members(s.pcs, Counted) == {t})
    && (forall t :: t in s.pcs && s.pcs[t].DropSignal? ==> Members(s.pcs, Counted) == {})
  }

  /** The permits a task saw on its last look are a possible count. */
  ghost predicate SeenLaw(s: Lock) {
    forall t :: t in s.pcs && s.pcs[t].TryReadWaitCas? ==> s.pcs[t].c == 1
  }

  ghost predicate Inv(s: Lock) {
    MutexLaw(s) && CountLaw(s) && (s.lost == 0 ==> WriteLaw(s) && TurnLaw(s) && SeenLaw(s))
  }
}
