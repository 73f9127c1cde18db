/** Bit operations on unbounded naturals, as used by the stamp, address and header arithmetic.

    The kernel works with 64-bit words; every value modelled here stays below the point where
    a shift would lose bits, so the operations are defined on `nat` by recursion on the bits. */
module Bits {

  function Pow2(k: nat): (r: nat)
    ensures r >= 1
  {
    if k == 0 then 1 else 2 * Pow2(k - 1)
  }

  /** `x & y` */
  function And(x: nat, y: nat): nat {
    if x == 0 || y == 0 then 0
    else 2 * And(x / 2, y / 2) + (if x % 2 == 1 && y % 2 == 1 then 1 else 0)
  }

  /** `x & !y` */
  function AndNot(x: nat, y: nat): nat {
    if x == 0 then 0
    else 2 * AndNot(x / 2, y / 2) + (if x % 2 == 1 && y % 2 == 0 then 1 else 0)
  }

  /** `x | y` */
  function Or(x: nat, y: nat): nat
    decreases x + y
  {
    if x == 0 && y == 0 then 0
    else 2 * Or(x / 2, y / 2) + (if x % 2 == 1 || y % 2 == 1 then 1 else 0)
  }

  /** `x << s`, for shifts that lose no bits */
  function Shl(x: nat, s: nat): nat {
    if s == 0 then x else 2 * Shl(x, s - 1)
  }

  /** `x >> s` */
  function Shr(x: nat, s: nat): nat {
    if s == 0 then x else Shr(x / 2, s - 1)
  }

  /** The lowest `k` bits of `x`. */
  function Low(x: nat, k: nat): nat {
    if k == 0 then 0 else 2 * Low(x / 2, k - 1) + x % 2
  }

  /** The field of `width` bits whose lowest bit is bit `low`. */
  function Field(x: nat, low: nat, width: nat): nat {
    Low(Shr(x, low), width)
  }

  lemma MulAtLeast(k: int, d: int)
    requires k >= 1 && d > 0
    ensures k * d >= d
  {
    assert (k - 1) * d >= 0;
    assert k * d == (k - 1) * d + d;
  }

  lemma Distribute(a: int, b: int, d: int)
    ensures (a - b) * d == a * d - b * d
  {
  }

  lemma DivModUnique(x: int, d: int, q: int, r: int)
    requires d > 0 && x == q * d + r && 0 <= r < d
    ensures x / d == q && x % d == r
  {
    var q', r' := x / d, x % d;
    assert x == q' * d + r';
    if q > q' {
      MulAtLeast(q - q', d);
      Distribute(q, q', d);
    } else if q < q' {
      MulAtLeast(q' - q, d);
      Distribute(q', q, d);
    }
  }

  lemma ModAddModulus(x: nat, m: nat)
    requires m > 0
    ensures (x + m) % m == x % m && (x + m) / m == x / m + 1
  {
    Distribute(x / m + 1, 1, m);
    DivModUnique(x + m, m, x / m + 1, x % m);
  }

  lemma ModHalf(x: nat, m: nat)
    requires m > 0
    ensures x % (2 * m) == 2 * (x / 2 % m) + x % 2
    ensures x / (2 * m) == x / 2 / m
  {
    var q, r := x / 2 / m, x / 2 % m;
    assert x / 2 == q * m + r;
    assert x == q * (2 * m) + (2 * r + x % 2);
    DivModUnique(x, 2 * m, q, 2 * r + x % 2);
  }

  lemma {:induction false} LowIsMod(x: nat, k: nat)
    ensures Low(x, k) == x % Pow2(k) < Pow2(k)
  {
    if k != 0 {
      LowIsMod(x / 2, k - 1);
      ModHalf(x, Pow2(k - 1));
    }
  }

  lemma {:induction false} ShrIsDiv(x: nat, s: nat)
    ensures Shr(x, s) == x / Pow2(s)
  {
    if s != 0 {
      ShrIsDiv(x / 2, s - 1);
      ModHalf(x, Pow2(s - 1));
    }
  }

  lemma {:induction false} ShlIsMul(x: nat, s: nat)
    ensures Shl(x, s) == x * Pow2(s)
  {
    if s != 0 {
      ShlIsMul(x, s - 1);
    }
  }

  /** A field is a quotient followed by a remainder. */
  lemma FieldIsDivMod(x: nat, low: nat, width: nat)
    ensures Field(x, low, width) == x / Pow2(low) % Pow2(width)
    ensures Field(x, low, width) < Pow2(width)
  {
    ShrIsDiv(x, low);
    LowIsMod(Shr(x, low), width);
  }

  /** Masking with `2^k - 1` keeps the lowest `k` bits. */
  lemma {:induction false} AndMask(x: nat, k: nat)
    ensures And(x, Pow2(k) - 1) == And(Pow2(k) - 1, x) == Low(x, k)
  {
    if x == 0 {
      LowZero(k);
    } else if k != 0 {
      AndMask(x / 2, k - 1);
      var mask := Pow2(k) - 1;
      assert mask % 2 == 1 && mask / 2 == Pow2(k - 1) - 1;
    }
  }

  lemma {:induction false} LowZero(k: nat)
    ensures Low(0, k) == 0
  {
    if k != 0 { LowZero(k - 1); }
  }

  /** Masking with `!(2^k - 1)` clears the lowest `k` bits. */
  lemma {:induction false} AndNotMask(x: nat, k: nat)
    ensures AndNot(x, Pow2(k) - 1) == x - Low(x, k)
  {
    if x == 0 {
      LowZero(k);
    } else if k == 0 {
      AndNotZero(x);
    } else {
      AndNotMask(x / 2, k - 1);
    }
  }

  lemma {:induction false} AndNotZero(x: nat)
    ensures AndNot(x, 0) == x
  {
    if x != 0 { AndNotZero(x / 2); }
  }

  lemma {:induction false} ShrOfShl(x: nat, s: nat)
    ensures Shr(Shl(x, s), s) == x
  {
    if s != 0 { ShrOfShl(x, s - 1); }
  }

  /** Masking with `(2^width - 1) << low` and shifting down extracts the field. */
  lemma {:induction false} AndField(x: nat, low: nat, width: nat)
    ensures And(Shl(Pow2(width) - 1, low), x) == Shl(Field(x, low, width), low)
    ensures Shr(And(Shl(Pow2(width) - 1, low), x), low) == Field(x, low, width)
  {
    if low == 0 {
      AndMask(x, width);
    } else {
      AndField(x / 2, low - 1, width);
    }
    ShrOfShl(Field(x, low, width), low);
  }

  /** Disjoint fields: or-ing a shifted word with a value below the shift is addition. */
  lemma {:induction false} OrDisjoint(a: nat, s: nat, y: nat)
    requires y < Pow2(s)
    ensures Or(Shl(a, s), y) == Shl(a, s) + y
  {
    if s == 0 {
      OrZero(a);
    } else {
      OrDisjoint(a, s - 1, y / 2);
    }
  }

  lemma {:induction false} OrZero(x: nat)
    ensures Or(x, 0) == x
  {
    if x != 0 { OrZero(x / 2); }
  }

  lemma {:induction false} Pow2Add(j: nat, k: nat)
    ensures Pow2(j + k) == Pow2(j) * Pow2(k)
  {
    if j != 0 {
      Pow2Add(j - 1, k);
      assert 2 * (Pow2(j - 1) * Pow2(k)) == 2 * Pow2(j - 1) * Pow2(k);
    }
  }

  /** Exponent of the smallest power of two that is at least `n`. */
  function NextPow2Exponent(n: nat): (k: nat)
    ensures Pow2(k) >= n
  {
    NextPow2From(n, 0)
  }

  function NextPow2From(n: nat, k: nat): (r: nat)
    ensures Pow2(r) >= n
    decreases n - Pow2(k)
  {
    if Pow2(k) >= n then k else NextPow2From(n, k + 1)
  }

  lemma NextPow2Least(n: nat, j: nat)
    requires Pow2(j) >= n
    ensures NextPow2Exponent(n) <= j
  {
    NextPow2FromLeast(n, 0, j);
  }

  lemma {:induction false} NextPow2FromLeast(n: nat, k: nat, j: nat)
    requires k <= j && Pow2(j) >= n
    ensures NextPow2From(n, k) <= j
    decreases n - Pow2(k)
  {
    if Pow2(k) < n { NextPow2FromLeast(n, k + 1, j); }
  }
}
