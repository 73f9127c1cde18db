/** The bitmap allocator of physical pages. */
module PhysicalMemory {
  import opened Addresses

  datatype MemoryError = OutOfMemory | InsufficientForAllocation(size: nat)

  datatype Allocated<+T> = Granted(value: T) | Refused(error: MemoryError)

  /** `n` pages from index `start` exist and are all free. */
  ghost predicate FreeRun(bits: seq<bool>, start: nat, n: nat) {
    start + n <= |bits| && forall i :: start <= i < start + n ==> !bits[i]
  }

  /** `bits` with `n` bits from `start` set to `b`. */
  ghost function Filled(bits: seq<bool>, start: nat, n: nat, b: bool): (r: seq<bool>)
    requires start + n <= |bits|
    ensures |r| == |bits|
  {
    bits[..start] + seq(n, _ => b) + bits[start + n..]
  }

  ghost predicate FirstFree(bits: seq<bool>, start: nat) {
    start < |bits| && !bits[start] && forall j :: 0 <= j < start ==> bits[j]
  }

  /** `try_alloc_contig` can take pages: the run at the first free page is long enough, or a used page
      ends it. */
  ghost predicate CanServe(bits: seq<bool>, desired: nat) {
    exists start :: FirstFree(bits, start) && (FreeRun(bits, start, desired) || UsedAfter(bits, start))
  }

  ghost predicate UsedAfter(bits: seq<bool>, start: nat) { exists k :: start < k < |bits| && bits[k] }

  ghost predicate AllUsed(bits: seq<bool>) { forall i :: 0 <= i < |bits| ==> bits[i] }

  lemma NoFreePage(bits: seq<bool>)
    requires forall j: nat :: !FreeRun(bits, j, 1)
    ensures AllUsed(bits)
  {
    forall i | 0 <= i < |bits| ensures bits[i] {
      assert !FreeRun(bits, i, 1);
    }
  }

  lemma FirstFreeUnique(bits: seq<bool>, s: nat, t: nat)
    requires FirstFree(bits, s) && FirstFree(bits, t)
    ensures s == t
  {
  }

  class PhysicalMemoryAllocator {
    /** True for pages that are in use. */
    const inUse: array<bool>
    const memoryStart: nat

    constructor (pages: nat, memoryStart: nat)
      requires memoryStart % PAGE_SIZE == 0
      ensures fresh(inUse) && inUse.Length == pages && this.memoryStart == memoryStart
      ensures forall i :: 0 <= i < pages ==> !inUse[i]
    {
      inUse := new bool[pages](_ => false);
      this.memoryStart := memoryStart;
    }

    function AddressOf(index: nat): nat { memoryStart + index * PAGE_SIZE }

    /** Allocates the lowest run of `pageCount` free pages, or fails because there is none. The
        error tells whether the last page of memory is free. */
    method AllocContig(pageCount: nat) returns (r: Allocated<nat>, ghost start: nat)
      requires pageCount >= 1
      modifies inUse
      ensures r.Granted? ==>
        && FreeRun(old(inUse[..]), start, pageCount)
        && (forall j: nat :: j < start ==> !FreeRun(old(inUse[..]), j, pageCount))
        && r.value == AddressOf(start)
        && inUse[..] == Filled(old(inUse[..]), start, pageCount, true)
      ensures r.Refused? ==>
        && inUse[..] == old(inUse[..])
        && (forall j: nat :: !FreeRun(inUse[..], j, pageCount))
        && r.error == if inUse.Length > 0 && !inUse[inUse.Length - 1]
                      then InsufficientForAllocation(pageCount * PAGE_SIZE) else OutOfMemory
    {
      var next := 0;
      start := 0;
      while true
        invariant 0 <= next <= inUse.Length
        invariant next > 0 ==> inUse[next - 1]
        invariant forall j: nat :: j < next ==> !FreeRun(inUse[..], j, pageCount)
        invariant inUse[..] == old(inUse[..])
        decreases inUse.Length - next
      {
        while next < inUse.Length && inUse[next]
          invariant 0 <= next <= inUse.Length
          invariant next > 0 ==> inUse[next - 1]
          invariant forall j: nat :: j < next ==> !FreeRun(inUse[..], j, pageCount)
        {
          next := next + 1;
        }
        if next == inUse.Length {
          return Refused(OutOfMemory), 0;
        }
        var startIndex := next;
        next := next + 1;

        var i := 0;
        var enough := true;
        while i < pageCount - 1 && enough
          invariant 0 <= i <= pageCount - 1
          invariant startIndex < next <= inUse.Length
          invariant enough ==> next == startIndex + 1 + i
          invariant enough ==> forall k :: startIndex <= k < next ==> !inUse[k]
          invariant !enough ==> next <= startIndex + pageCount && inUse[next - 1]
          decreases inUse.Length - next
        {
          if next == inUse.Length {
            return Refused(InsufficientForAllocation(pageCount * PAGE_SIZE)), 0;
          }
          if inUse[next] {
            enough := false;
          } else {
            i := i + 1;
          }
          next := next + 1;
        }

        if enough {
          forall k | startIndex <= k < startIndex + pageCount { inUse[k] := true; }
          return Granted(AddressOf(startIndex)), startIndex;
        }
        forall j: nat | startIndex <= j < next ensures !FreeRun(inUse[..], j, pageCount) {
          assert inUse[..][next - 1];
        }
      }
    }

    /** Starts at the first free page and takes the free run there, up to `desired` pages. A run
        that ends before `desired` pages because memory ends is refused, although free pages
        were found. */
    method TryAllocContig(desired: nat) returns (r: Allocated<(nat, nat)>, ghost start: nat)
      requires desired >= 1
      modifies inUse
      ensures start <= inUse.Length
      ensures forall j :: 0 <= j < start ==> old(inUse[j])
      ensures start < inUse.Length ==> !old(inUse[start])
      ensures r.Granted? ==>
        var (address, count) := r.value;
        && 1 <= count <= desired
        && FreeRun(old(inUse[..]), start, count)
        && (count < desired ==> start + count < inUse.Length && old(inUse[start + count]))
        && address == AddressOf(start)
        && inUse[..] == Filled(old(inUse[..]), start, count, true)
      ensures r.Refused? ==>
        && inUse[..] == old(inUse[..])
        && r.error == if start == inUse.Length then OutOfMemory
                      else InsufficientForAllocation(desired * PAGE_SIZE)
      ensures r.Granted? <==> CanServe(old(inUse[..]), desired)
    {
      ghost var bits := inUse[..];
      var next := 0;
      while next < inUse.Length && inUse[next]
        invariant 0 <= next <= inUse.Length
        invariant forall j :: 0 <= j < next ==> inUse[j]
      {
        next := next + 1;
      }
      start := next;
      assert next < inUse.Length ==> FirstFree(bits, next);
      if next == inUse.Length {
        return Refused(OutOfMemory), start;
      }
      var startIndex := next;
      next := next + 1;

      var actual := desired;
      var i := 0;
      while i < desired - 1
        invariant 0 <= i <= desired - 1
        invariant next == startIndex + 1 + i <= inUse.Length
        invariant forall k :: startIndex <= k < next ==> !inUse[k]
      {
        if next == inUse.Length {
          RunEndsMemory(bits, startIndex, desired);
          return Refused(InsufficientForAllocation(desired * PAGE_SIZE)), start;
        }
        if inUse[next] {
          assert UsedAfter(bits, startIndex);
          actual := i + 1;
          break;
        }
        next := next + 1;
        i := i + 1;
      }
      ghost var before := inUse[..];
      assert FreeRun(before, startIndex, actual);
      forall k | startIndex <= k < startIndex + actual { inUse[k] := true; }
      r := Granted((AddressOf(startIndex), actual));
    }

    /** Frees `pageCount` pages; pages that were already free only draw a warning. */
    method FreePages(base: nat, pageCount: nat) returns (doubleFree: bool, ghost start: nat)
      requires base >= memoryStart
      requires (base - memoryStart + PAGE_SIZE - 1) / PAGE_SIZE + pageCount <= inUse.Length
      modifies inUse
      ensures start == (base - memoryStart + PAGE_SIZE - 1) / PAGE_SIZE
      ensures inUse[..] == Filled(old(inUse[..]), start, pageCount, false)
      ensures doubleFree <==> exists k :: start <= k < start + pageCount && !old(inUse[k])
    {
      var pageIndex := (base - memoryStart + PAGE_SIZE - 1) / PAGE_SIZE;
      start := pageIndex;
      doubleFree := exists k :: pageIndex <= k < pageIndex + pageCount && !inUse[k];
      forall k | pageIndex <= k < pageIndex + pageCount { inUse[k] := false; }
    }
  }

  /** When the first free run is short and ends with memory, nothing is taken. */
  lemma RunEndsMemory(bits: seq<bool>, start: nat, desired: nat)
    requires FirstFree(bits, start) && |bits| - start < desired && forall k :: start <= k < |bits| ==> !bits[k]
    ensures !CanServe(bits, desired)
  {
    forall s | FirstFree(bits, s) ensures !FreeRun(bits, s, desired) && !UsedAfter(bits, s) {
      FirstFreeUnique(bits, s, start);
    }
  }

  /** Two free pages at the end of memory: a request for three is refused, although the two could be
      taken as they could if a used page followed them. */
  lemma EndOfMemoryRefused()
    ensures !CanServe([true, false, false], 3) && FreeRun([true, false, false], 1, 2)
    ensures CanServe([true, false, false, true], 3)
  {
    RunEndsMemory([true, false, false], 1, 3);
    var bits := [true, false, false, true];
    assert FirstFree(bits, 1) && bits[3];
    assert UsedAfter(bits, 1);
  }

  /** Freeing what was just allocated restores the bitmap. */
  lemma FreeUndoesAlloc(bits: seq<bool>, start: nat, n: nat)
    requires FreeRun(bits, start, n)
    ensures Filled(Filled(bits, start, n, true), start, n, false) == bits
  {
  }
}
