/**
 * The false-positive guard of the reference scan, `page_num < len(doc) * 0.1`.
 * Python evaluates it in IEEE-754 double precision: the page count is
 * converted to a double, multiplied by the double nearest to 0.1 with one
 * rounding, and the integer page index is compared exactly with the product.
 * The module models that arithmetic on integers and proves that, for every
 * page count below 2^50, it agrees with the exact integer test `10 * k < n`.
 */
module EarlyPageGuard {

  /** 2 to the power `e`. */
  function Pow2(e: nat): (r: nat)
    ensures r >= 1
  {
    if e == 0 then 1 else 2 * Pow2(e - 1)
  }

  const TwoTo50: nat := 0x4_0000_0000_0000
  const TwoTo52: nat := 0x10_0000_0000_0000
  const TwoTo53: nat := 0x20_0000_0000_0000
  const TwoTo55: nat := 0x80_0000_0000_0000

  /** The double nearest to 0.1 is exactly `TenthScaled / 2^55`. */
  const TenthScaled: nat := 3602879701896397

  /** Page counts for which the double guard is proved to be the integer test. */
  const MaxExactPages: nat := TwoTo50

  /**
   * The number of low-order bits of `m` that a 53-bit significand cannot
   * hold: `m` lies in `[2^52 * 2^s, 2^53 * 2^s)` when `s > 0`, below `2^53`
   * when `s == 0`.
   */
  function DroppedBits(m: nat): (s: nat)
    ensures m < TwoTo53 * Pow2(s)
    ensures s > 0 ==> TwoTo52 * Pow2(s) <= m
    decreases m
  {
    if m < TwoTo53 then 0 else 1 + DroppedBits(m / 2)
  }

  /** The low `s` bits of `m`, that is `m % 2^s`, one bit at a time. */
  function LowBits(m: nat, s: nat): (rem: nat)
    ensures rem < Pow2(s) && rem <= m
    decreases s
  {
    if s == 0 then 0 else m % 2 + 2 * LowBits(m / 2, s - 1)
  }

  /** `m` shifted right by `s` bits, that is `m / 2^s`. */
  function HighBits(m: nat, s: nat): nat
    decreases s
  {
    if s == 0 then m else HighBits(m / 2, s - 1)
  }

  /** The shifted-out bits and the shifted value put `m` back together. */
  lemma {:induction false} BitsSplit(m: nat, s: nat)
    ensures m == HighBits(m, s) * Pow2(s) + LowBits(m, s)
    decreases s
  {
    if s > 0 {
      var half := m / 2;
      BitsSplit(half, s - 1);
      var h, p, low := HighBits(half, s - 1), Pow2(s - 1), LowBits(half, s - 1);
      assert HighBits(m, s) == h && LowBits(m, s) == m % 2 + 2 * low && Pow2(s) == 2 * p;
      Regroup(m, half, h, p, low);
    }
  }

  /** The step of `BitsSplit`: one more bit joins the low bits. */
  lemma Regroup(m: nat, half: nat, h: nat, p: nat, low: nat)
    requires half == m / 2 && half == h * p + low
    ensures m == h * (2 * p) + (m % 2 + 2 * low)
  {
  }

  /** `LowBits` and `HighBits` are the remainder and quotient by `2^s`. */
  lemma BitsAreDivMod(m: nat, s: nat)
    ensures LowBits(m, s) == m % Pow2(s) && HighBits(m, s) == m / Pow2(s)
  {
    BitsSplit(m, s);
    DivModUnique(m, Pow2(s), HighBits(m, s), LowBits(m, s));
  }

  /**
   * The value an IEEE-754 double keeps of the integer `m` (or of `m` times
   * any power of two): `m` rounded to the nearest multiple of
   * `2^DroppedBits(m)`, ties to the even multiple.
   */
  function RoundToDouble(m: nat): (r: nat)
    ensures LowBits(r, DroppedBits(m)) == 0
    ensures 2 * (r - m) <= Pow2(DroppedBits(m)) && 2 * (m - r) <= Pow2(DroppedBits(m))
    ensures 2 * LowBits(m, DroppedBits(m)) == Pow2(DroppedBits(m)) ==> HighBits(r, DroppedBits(m)) % 2 == 0
    ensures m < TwoTo53 ==> r == m
    ensures m > 0 ==> r > 0
  {
    RoundingBounds(m);
    RoundBits(m, DroppedBits(m))
  }

  /** `m` rounded to a multiple of `2^s`, to nearest with ties to the even multiple. */
  function RoundBits(m: nat, s: nat): (r: nat)
    ensures LowBits(r, s) == 0
    ensures 2 * (r - m) <= Pow2(s) && 2 * (m - r) <= Pow2(s)
    ensures 2 * LowBits(m, s) == Pow2(s) ==> HighBits(r, s) % 2 == 0
    ensures r >= m - LowBits(m, s)
  {
    var unit := Pow2(s);
    var rem := LowBits(m, s);
    var down := m - rem;
    var h := HighBits(m, s);
    RoundingCandidates(m, s);
    assert h % 2 == 1 ==> (h + 1) % 2 == 0;
    if 2 * rem > unit || (2 * rem == unit && h % 2 == 1) then down + unit else down
  }

  /**
   * Clearing the low `s` bits of `m` gives the multiple of `2^s` just below
   * it, and adding `2^s` the one just above: both have no low bits, and
   * their high bits are those of `m` and the next number.
   */
  lemma RoundingCandidates(m: nat, s: nat)
    ensures LowBits(m - LowBits(m, s), s) == 0
    ensures HighBits(m - LowBits(m, s), s) == HighBits(m, s)
    ensures LowBits(m - LowBits(m, s) + Pow2(s), s) == 0
    ensures HighBits(m - LowBits(m, s) + Pow2(s), s) == HighBits(m, s) + 1
  {
    var u, h, low := Pow2(s), HighBits(m, s), LowBits(m, s);
    BitsSplit(m, s);
    MultipleBits(m - low, h, s);
    NextMultiple(h, u);
    MultipleBits(m - low + u, h + 1, s);
  }

  /**
   * With `s` the bits a double drops from `m`: below `2^53` nothing is
   * dropped, and a positive `m` keeps a positive value once its low bits
   * are cleared.
   */
  lemma RoundingBounds(m: nat)
    ensures m < TwoTo53 ==> DroppedBits(m) == 0 && LowBits(m, 0) == 0
    ensures m > 0 ==> m - LowBits(m, DroppedBits(m)) > 0
  {
    var s := DroppedBits(m);
    if s > 0 {
      MulAtLeast(TwoTo52, Pow2(s));
    }
  }

  lemma NextMultiple(h: nat, u: nat)
    ensures (h + 1) * u == h * u + u
  {
  }

  /** A multiple `a * 2^s` has no low bits and `a` as its high bits. */
  lemma MultipleBits(x: nat, a: nat, s: nat)
    requires x == a * Pow2(s)
    ensures LowBits(x, s) == 0 && HighBits(x, s) == a
  {
    BitsAreDivMod(x, s);
    DivModUnique(x, Pow2(s), a, 0);
  }

  function Distance(a: int, b: int): nat
  {
    if a < b then b - a else a - b
  }

  /**
   * No multiple of `2^DroppedBits(m)` is nearer to `m` than the rounded
   * value: `RoundToDouble` picks a nearest double.
   */
  lemma RoundToDoubleIsNearest(m: nat, x: nat)
    requires LowBits(x, DroppedBits(m)) == 0
    ensures Distance(RoundToDouble(m), m) <= Distance(x, m)
  {
    MultiplesAvoidInterior(m, x, DroppedBits(m));
  }

  /** No multiple of `2^s` lies strictly between the two rounding candidates. */
  lemma MultiplesAvoidInterior(m: nat, x: nat, s: nat)
    requires LowBits(x, s) == 0
    ensures x <= m - LowBits(m, s) || x >= m - LowBits(m, s) + Pow2(s)
  {
    BitsSplit(m, s);
    BitsSplit(x, s);
    MultiplesApart(HighBits(x, s), HighBits(m, s), Pow2(s));
  }

  /** Two multiples of `u`: `a * u` is at most `h * u` or at least `(h + 1) * u`. */
  lemma MultiplesApart(a: nat, h: nat, u: nat)
    ensures a * u <= h * u || a * u >= h * u + u
  {
    if a <= h {
      MulMonotone(a, h, u);
    } else {
      MulMonotone(h + 1, a, u);
    }
  }

  lemma MulMonotone(a: nat, b: nat, c: nat)
    requires a <= b
    ensures a * c <= b * c
  {
  }

  /**
   * The double `n * 0.1`, scaled by `2^55`: `float(n)` times the double
   * nearest to 0.1, rounded once more to a double.
   */
  function TenthOf(n: nat): nat
  {
    RoundToDouble(RoundToDouble(n) * TenthScaled)
  }

  /**
   * The guard as written, `k < n * 0.1` in Python, which compares an int
   * with a float exactly.
   */
  predicate InFirstTenth(k: nat, n: nat)
  {
    k * TwoTo55 < TenthOf(n)
  }

  lemma {:induction false} Pow2Add(a: nat, b: nat)
    ensures Pow2(a + b) == Pow2(a) * Pow2(b)
    decreases a
  {
    if a > 0 {
      Pow2Add(a - 1, b);
      assert Pow2(a + b) == 2 * Pow2(a - 1 + b);
    }
  }

  lemma {:induction false} Pow2Monotone(a: nat, b: nat)
    requires a <= b
    ensures Pow2(a) <= Pow2(b)
    decreases b
  {
    if a < b {
      Pow2Monotone(a, b - 1);
    }
  }

  lemma Pow2Values()
    ensures Pow2(50) == TwoTo50 && Pow2(55) == TwoTo55
  {
    assert Pow2(5) == 32;
    assert Pow2(10) == 0x400 by { Pow2Add(5, 5); }
    assert Pow2(20) == 0x10_0000 by { Pow2Add(10, 10); }
    assert Pow2(40) == 0x100_0000_0000 by { Pow2Add(20, 20); }
    assert Pow2(50) == TwoTo50 by { Pow2Add(40, 10); }
    Pow2Add(50, 5);
  }

  /** Euclidean division is determined by a quotient and an in-range remainder. */
  lemma DivModUnique(m: int, d: int, q: int, rem: int)
    requires d > 0 && 0 <= rem < d && m == q * d + rem
    ensures m / d == q && m % d == rem
  {
    var q', rem' := m / d, m % d;
    assert m == q' * d + rem';
    assert (q' - q) * d == rem - rem' by {
      assert (q' - q) * d == q' * d - q * d;
    }
    if q' > q {
      MulAtLeast(q' - q, d);
    } else if q' < q {
      MulAtLeast(q - q', d);
    }
  }

  lemma MulAtLeast(x: int, d: int)
    requires x >= 1 && d > 0
    ensures x * d >= d
  {
  }

  /** When `10 * k == n`, the product `n * 0.1` rounds to exactly `k`. */
  lemma ExactTenthRoundsToPage(k: nat, n: nat)
    requires n < MaxExactPages && 10 * k == n
    ensures RoundToDouble(n * TenthScaled) == k * TwoTo55
  {
    if k == 0 {
      return;
    }
    var m := n * TenthScaled;
    assert m == k * TwoTo55 + 2 * k;
    var s := DroppedBits(m);
    var unit := Pow2(s);
    assert 4 * k < unit && unit < n by {
      assert s > 0;
      assert TwoTo52 * unit <= m;
    }
    var a := LowBitsCleared(k, s);
    DivModUnique(m, unit, a, 2 * k);
    BitsAreDivMod(m, s);
  }

  /** `k * 2^55` is a multiple of `2^s` for every `2^s` below `2^50`. */
  lemma LowBitsCleared(k: nat, s: nat) returns (a: nat)
    requires Pow2(s) < TwoTo50
    ensures a * Pow2(s) == k * TwoTo55
  {
    Pow2Values();
    if s >= 50 {
      Pow2Monotone(50, s);
      assert false;
    }
    Pow2Add(s, 55 - s);
    a := k * Pow2(55 - s);
    MulAssociates(k, Pow2(55 - s), Pow2(s));
  }

  lemma MulAssociates(x: int, y: int, z: int)
    ensures (x * y) * z == x * (z * y)
  {
  }

  /**
   * For every page count below 2^50 the double guard `k < n * 0.1` holds
   * exactly when the integer test `10 * k < n` does.
   */
  lemma InFirstTenthExact(k: nat, n: nat)
    requires n < MaxExactPages
    ensures InFirstTenth(k, n) <==> 10 * k < n
  {
    assert RoundToDouble(n) == n;
    var m := n * TenthScaled;
    var unit := Pow2(DroppedBits(m));
    var r := RoundToDouble(m);
    assert n > 0 ==> unit <= n;
    if 10 * k == n {
      ExactTenthRoundsToPage(k, n);
    }
  }
}
