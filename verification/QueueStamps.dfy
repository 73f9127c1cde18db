/** Stamp arithmetic of the shared queue: `Queue::new` and the decoding of head, tail and slot
    stamps. A stamp is `lap * one_lap + index`; a position counts how many values were claimed
    before it. `Stamp` maps positions to stamps, and the lemmas show that the masks and
    increments of the code act on positions as `+ 1`, `mod capacity` and `+ capacity`. */
module QueueStamps {
  import opened Bits

  /** The immutable part of a queue reference. */
  datatype Config = Config(capacity: nat, oneLap: nat)

  /** `Queue::new`: a lap is longer than the capacity, so that a stamp tells slot and lap. */
  function NewConfig(capacity: nat): Config {
    Config(capacity, Pow2(NextPow2Exponent(capacity + 1)))
  }

  ghost predicate ValidConfig(c: Config) {
    c.capacity > 0 && c == NewConfig(c.capacity)
  }

  /** `stamp & (one_lap - 1)` */
  function IndexOf(c: Config, stamp: nat): nat
    requires c.oneLap > 0
  {
    And(stamp, c.oneLap - 1)
  }

  /** `stamp & !(one_lap - 1)` */
  function LapOf(c: Config, stamp: nat): nat
    requires c.oneLap > 0
  {
    AndNot(stamp, c.oneLap - 1)
  }

  /** The `new_tail` and `new` head computed before a compare-exchange. */
  function Advance(c: Config, stamp: nat): nat
    requires c.oneLap > 0
  {
    if IndexOf(c, stamp) + 1 < c.capacity then stamp + 1 else LapOf(c, stamp) + c.oneLap
  }

  /** The stamp of position `p`. */
  ghost function Stamp(c: Config, p: nat): nat
    requires c.capacity > 0
  {
    if p < c.capacity then p else Stamp(c, p - c.capacity) + c.oneLap
  }

  /** The slot that position `p` uses. */
  ghost function SlotOf(c: Config, p: nat): (i: nat)
    requires c.capacity > 0
    ensures i < c.capacity
  {
    if p < c.capacity then p else SlotOf(c, p - c.capacity)
  }

  /** The position whose stamp is `s`. */
  ghost function PositionOf(c: Config, s: nat): nat
    requires c.oneLap > 0
  {
    if s < c.oneLap then s else PositionOf(c, s - c.oneLap) + c.capacity
  }

  lemma {:induction false} StampRemainder(c: Config, p: nat)
    requires ValidConfig(c)
    ensures Stamp(c, p) % c.oneLap == SlotOf(c, p)
    ensures Stamp(c, p) >= SlotOf(c, p)
  {
    if p < c.capacity {
      DivModUnique(p, c.oneLap, 0, p);
    } else {
      StampRemainder(c, p - c.capacity);
      ModAddModulus(Stamp(c, p - c.capacity), c.oneLap);
    }
  }

  /** The masked stamp is the slot index, and it is in bounds. */
  lemma StampIndex(c: Config, p: nat)
    requires ValidConfig(c)
    ensures IndexOf(c, Stamp(c, p)) == SlotOf(c, p) < c.capacity
    ensures LapOf(c, Stamp(c, p)) == Stamp(c, p) - SlotOf(c, p)
  {
    StampRemainder(c, p);
    LowIsMod(Stamp(c, p), NextPow2Exponent(c.capacity + 1));
    AndMask(Stamp(c, p), NextPow2Exponent(c.capacity + 1));
    AndNotMask(Stamp(c, p), NextPow2Exponent(c.capacity + 1));
  }

  /** The code's successor of a stamp is the stamp of the next position, across lap boundaries. */
  lemma {:induction false} StampAdvance(c: Config, p: nat)
    requires ValidConfig(c)
    ensures Advance(c, Stamp(c, p)) == Stamp(c, p + 1)
  {
    StampIndex(c, p);
    StampNext(c, p);
  }

  lemma {:induction false} StampNext(c: Config, p: nat)
    requires ValidConfig(c)
    ensures Stamp(c, p + 1) == if SlotOf(c, p) + 1 < c.capacity then Stamp(c, p) + 1
                               else Stamp(c, p) - SlotOf(c, p) + c.oneLap
  {
    if p + 1 <= c.capacity {
    } else {
      StampNext(c, p - c.capacity);
    }
  }

  /** Stamps grow strictly with positions. */
  lemma {:induction false} StampMonotone(c: Config, p: nat, q: nat)
    requires ValidConfig(c) && p < q
    ensures Stamp(c, p) < Stamp(c, q)
    decreases q
  {
    if p + 1 < q { StampMonotone(c, p, q - 1); }
    StampNext(c, q - 1);
    StampRemainder(c, q - 1);
  }

  lemma StampInjective(c: Config, p: nat, q: nat)
    requires ValidConfig(c) && Stamp(c, p) == Stamp(c, q)
    ensures p == q
  {
    if p < q { StampMonotone(c, p, q); }
    if q < p { StampMonotone(c, q, p); }
  }

  /** Two positions share a slot only if they are at least a lap apart, and then their stamps
      differ by at least `one_lap`. */
  lemma {:induction false} SameSlot(c: Config, p: nat, q: nat)
    requires ValidConfig(c) && p < q && SlotOf(c, p) == SlotOf(c, q)
    ensures q >= p + c.capacity
    ensures Stamp(c, q) >= Stamp(c, p) + c.oneLap
  {
    if q < c.capacity {
    } else if p < c.capacity {
      if q - c.capacity > p {
        SameSlot(c, p, q - c.capacity);
      } else if q - c.capacity < p {
        SlotSmall(c, q - c.capacity);
      }
    } else {
      SameSlot(c, p - c.capacity, q - c.capacity);
    }
  }

  lemma SlotSmall(c: Config, p: nat)
    requires ValidConfig(c) && p < c.capacity
    ensures SlotOf(c, p) == p && Stamp(c, p) == p
  {
  }

  lemma {:induction false} PositionOfStamp(c: Config, p: nat)
    requires ValidConfig(c)
    ensures PositionOf(c, Stamp(c, p)) == p
  {
    if p >= c.capacity { PositionOfStamp(c, p - c.capacity); }
  }
}
