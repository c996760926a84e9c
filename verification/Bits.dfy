/**
 Arithmetic of bits that several modules share.

 The bitwise operators are defined on naturals of any width, digit by digit. What the library uses them for is stated as
 lemmas: masking with a power of two less one is the remainder, shifting is division, and smearing the highest bit
 downwards fills all bits below it, which is how the least power of two that is not below a number is found; and 2^64,
 the bound of a size_t, is a power of two.
 */
module Bits {
  import opened Prelude

  function Pow2(k: nat): (p: nat)
    ensures p >= 1
  {
    if k == 0 then 1 else 2 * Pow2(k - 1)
  }

  ghost predicate IsPow2(n: nat) {
    exists k: nat :: n == Pow2(k)
  }

  function And(x: nat, y: nat): nat
    decreases x
  {
    if x == 0 || y == 0 then 0
    else (x % 2) * (y % 2) + 2 * And(x / 2, y / 2)
  }

  /** Masking with 2^k - 1 is reduction modulo 2^k. */
  lemma {:induction false} AndMask(x: nat, k: nat)
    ensures And(x, Pow2(k) - 1) == x % Pow2(k)
  {
    if x == 0 || k == 0 {
    } else {
      var m := Pow2(k - 1);
      var mask := 2 * m - 1;
      AndMask(x / 2, k - 1);
      assert mask % 2 == 1 && mask / 2 == m - 1;
      assert And(x, mask) == x % 2 + 2 * And(x / 2, m - 1);
      ModHalf(x, m);
    }
  }

  lemma ModHalf(x: nat, m: nat)
    requires m > 0
    ensures x % (2 * m) == x % 2 + 2 * (x / 2 % m)
  {
    var q, r := x / 2 / m, x / 2 % m;
    assert x / 2 == q * m + r;
    assert x == q * (2 * m) + (2 * r + x % 2) by {
      assert q * (2 * m) == 2 * (q * m);
    }
    ModUnique(x, 2 * m, q, 2 * r + x % 2);
  }

  /** Euclidean division has one quotient and one remainder. */
  lemma ModUnique(x: int, m: int, q: int, r: int)
    requires m > 0 && 0 <= r < m && x == q * m + r
    ensures x % m == r && x / m == q
  {
    var d := x / m - q;
    assert d * m == r - x % m by {
      assert x == (x / m) * m + x % m;
      assert d * m == (x / m) * m - q * m;
    }
    MulGap(d, m);
  }

  lemma MulGap(d: int, m: int)
    requires m > 0
    ensures d >= 1 ==> d * m >= m
    ensures d <= -1 ==> d * m <= -m
  {
  }

  lemma ModAddSelf(a: nat, m: nat)
    requires m > 0
    ensures 0 <= a % m < m
    ensures (a + m) % m == a % m
    ensures a < m ==> a % m == a
  {
    var q := a / m;
    assert a + m == (q + 1) * m + a % m by {
      assert (q + 1) * m == q * m + m;
    }
    ModUnique(a + m, m, q + 1, a % m);
    if a < m { ModUnique(a, m, 0, a); }
  }

  // ---------- Rounding up to a power of two ----------

  function Or(x: nat, y: nat): nat
    decreases x
  {
    if x == 0 then y
    else if y == 0 then x
    else (if x % 2 == 1 || y % 2 == 1 then 1 else 0) + 2 * Or(x / 2, y / 2)
  }

  /** Shift right. */
  function Shr(x: nat, k: nat): nat
    decreases k
  {
    if k == 0 then x else Shr(x / 2, k - 1)
  }

  lemma {:induction false} ShrShr(x: nat, a: nat, b: nat)
    ensures Shr(x, a + b) == Shr(Shr(x, a), b)
    decreases a
  {
    if a > 0 { ShrShr(x / 2, a - 1, b); }
  }

  lemma OrHalf(x: nat, y: nat)
    ensures Or(x, y) / 2 == Or(x / 2, y / 2)
    ensures Or(x, y) % 2 == if x % 2 == 1 || y % 2 == 1 then 1 else 0
  {
  }

  lemma {:induction false} ShrOr(x: nat, y: nat, k: nat)
    ensures Shr(Or(x, y), k) == Or(Shr(x, k), Shr(y, k))
    decreases k
  {
    if k > 0 {
      OrHalf(x, y);
      ShrOr(x / 2, y / 2, k - 1);
    }
  }

  lemma {:induction false} Pow2Add(a: nat, b: nat)
    ensures Pow2(a + b) == Pow2(a) * Pow2(b)
    decreases a
  {
    if a > 0 {
      Pow2Add(a - 1, b);
      assert Pow2(a) * Pow2(b) == 2 * (Pow2(a - 1) * Pow2(b));
    }
  }

  lemma {:induction false} Pow2Mono(a: nat, b: nat)
    requires Pow2(a) < Pow2(b)
    ensures a < b
    decreases b
  {
    if a > 0 && b > 0 { Pow2Mono(a - 1, b - 1); }
  }

  function Times(x: nat, y: nat): nat { x * y }

  lemma TimesFacts(h: nat, p: nat)
    ensures Times(h, 2 * p) == 2 * Times(h, p) && Times(h, 1) == h
    ensures h > 0 && p > 0 ==> Times(h, p) > 0
  {
  }

  /** A number with its lowest d bits filled. */
  lemma {:induction false} OrOnes(a: nat, d: nat)
    ensures Or(a, Pow2(d) - 1) == Times(Shr(a, d) + 1, Pow2(d)) - 1
    decreases d
  {
    if d == 0 {
      OrZero(a);
    } else {
      hide Or, Pow2, Shr, Times;
      Pow2Half(d - 1);
      ShrHalf(a, d);
      OrOnes(a / 2, d - 1);
      FillLowBit(a, Pow2(d - 1), Shr(a, d) + 1);
    }
  }

  lemma FillLowBit(a: nat, p: nat, h: nat)
    requires p > 0 && Or(a / 2, p - 1) == Times(h, p) - 1
    ensures Or(a, 2 * p - 1) == Times(h, 2 * p) - 1
  {
    hide Or, Times;
    OrOdd(a, p);
    TimesFacts(h, p);
  }

  lemma OrOdd(a: nat, p: nat)
    requires p > 0
    ensures Or(a, 2 * p - 1) == 1 + 2 * Or(a / 2, p - 1)
  {
    assert (2 * p - 1) / 2 == p - 1 && (2 * p - 1) % 2 == 1;
  }

  /** Ones shifted right are ones. */
  lemma {:induction false} ShrOnes(w: nat, k: nat)
    requires k <= w
    ensures Shr(Pow2(w) - 1, k) == Pow2(w - k) - 1
    decreases k
  {
    if k > 0 {
      assert (Pow2(w) - 1) / 2 == Pow2(w - 1) - 1;
      ShrOnes(w - 1, k - 1);
    }
  }

  /** The top w of the k bits of x are ones. */
  ghost predicate TopOnes(x: nat, k: nat, w: nat) {
    w <= k && Shr(x, k - w) == Pow2(w) - 1
  }

  /** `x |= x >> w` doubles the run of leading ones. */
  lemma SmearStep(x: nat, k: nat, w: nat)
    requires TopOnes(x, k, w)
    ensures TopOnes(Or(x, Shr(x, w)), k, if 2 * w <= k then 2 * w else k)
  {
    hide Or, Shr, Pow2;
    var w' := if 2 * w <= k then 2 * w else k;
    var j, d := k - w', w' - w;
    var a := Shr(x, j);
    ShrOr(x, Shr(x, w), j);
    ShrShr(x, w, j);
    ShrShr(x, j, w);
    ShrShr(x, j, d);
    ShrShr(a, d, w - d);
    ShrOnes(w, w - d);
    OrOnes(a, d);
    Pow2Add(w, d);
    assert Times(Pow2(w), Pow2(d)) == Pow2(w + d);
  }

  /** Every positive number has a highest bit. */
  lemma {:induction false} HighestBit(x: nat) returns (k: nat)
    requires x > 0
    ensures TopOnes(x, k, 1) && k > 0 && Pow2(k - 1) <= x < Pow2(k)
    decreases x
  {
    assert Pow2(0) == 1 && forall y :: Shr(y, 0) == y;
    Pow2Half(0);
    if x == 1 {
      k := 1;
    } else {
      var h := HighestBit(x / 2);
      k := h + 1;
      ShrHalf(x, h);
      hide Pow2, Shr;
      Pow2Half(h - 1);
      Pow2Half(h);
    }
  }

  lemma ShrHalf(x: nat, k: nat)
    requires k > 0
    ensures Shr(x, k) == Shr(x / 2, k - 1)
  {
  }

  lemma ShrZero(k: nat)
    ensures Shr(0, k) == 0 && Or(0, 0) == 0
    decreases k
  {
    if k > 0 { ShrZero(k - 1); }
  }

  function Smear(m: nat, w: nat): nat { Or(m, Shr(m, w)) }

  /** The six steps `n |= n >> 1` to `n |= n >> 32`. */
  function SmearAll(m: nat): nat {
    Smear(Smear(Smear(Smear(Smear(Smear(m, 1), 2), 4), 8), 16), 32)
  }

  /** A run of leading ones, doubled once, whatever its length short of k. */
  lemma SmearOne(x: nat, k: nat, w: nat)
    requires k > 0 && w > 0 && TopOnes(x, k, if w <= k then w else k)
    ensures TopOnes(Smear(x, w), k, if 2 * w <= k then 2 * w else k)
  {
    hide Or, Shr, Pow2;
    if w <= k {
      SmearStep(x, k, w);
    } else {
      FullRun(x, k, w);
    }
  }

  /** Nothing is left to fill. */
  lemma FullRun(x: nat, k: nat, w: nat)
    requires TopOnes(x, k, k) && w > k
    ensures Smear(x, w) == x
  {
    assert x == Pow2(k) - 1;
    ShrShr(x, k, w - k);
    ShrOnes(k, k);
    ShrZero(w - k);
    OrZero(x);
  }

  lemma OrZero(x: nat)
    ensures Or(x, 0) == x
  {
  }

  /** Six steps fill every number of at most 64 bits. */
  lemma SmearFills(m: nat, k: nat)
    requires 0 < k <= 64 && TopOnes(m, k, 1)
    ensures SmearAll(m) == Pow2(k) - 1
  {
    hide Or, Shr, Pow2, Smear, TopOnes;
    SmearOne(m, k, 1);
    var a := Smear(m, 1);
    SmearOne(a, k, 2);
    var b := Smear(a, 2);
    SmearOne(b, k, 4);
    var c := Smear(b, 4);
    SmearOne(c, k, 8);
    var d := Smear(c, 8);
    SmearOne(d, k, 16);
    var e := Smear(d, 16);
    SmearOne(e, k, 32);
    var f := Smear(e, 32);
    AllOnes(f, k);
  }

  lemma AllOnes(x: nat, k: nat)
    requires TopOnes(x, k, k)
    ensures x == Pow2(k) - 1
  {
    assert Shr(x, 0) == x;
  }

  lemma TwoTo64()
    ensures Pow2(64) == TWO_64 && Pow2(63) == TWO_64 / 2
  {
    assert Pow2(8) == 256;
    hide Pow2;
    Pow2Add(8, 8);
    Pow2Add(16, 16);
    Pow2Add(32, 32);
    Pow2Half(63);
  }

  lemma Pow2Half(k: nat)
    ensures Pow2(k + 1) == 2 * Pow2(k)
  {
  }

  /** next_power_of_two on 64-bit sizes. */
  function NextPowerOfTwo(n: nat): nat
    requires n < TWO_64
  {
    if n == 0 then 1 else (SmearAll(n - 1) + 1) % TWO_64
  }

  /** It is the least power of two that is not below n; above 2^63 it wraps to 0. */
  lemma NextPowerOfTwoIsLeast(n: nat)
    requires n < TWO_64
    ensures n <= TWO_64 / 2 ==> IsPow2(NextPowerOfTwo(n)) && n <= NextPowerOfTwo(n)
    ensures forall k: nat :: n <= Pow2(k) ==> NextPowerOfTwo(n) <= Pow2(k)
    ensures n > TWO_64 / 2 ==> NextPowerOfTwo(n) == 0
  {
    if n <= 1 {
      assert Pow2(0) == 1;
      SmearAllZero();
    } else {
      var k := HighestBit(n - 1);
      NextPowerOfTwoBits(n, k);
      forall j: nat | n <= Pow2(j) ensures Pow2(k) <= Pow2(j) {
        if j < k { Pow2Le(j, k - 1); } else { Pow2Le(k, j); }
      }
    }
  }

  lemma NextPowerOfTwoBits(n: nat, k: nat)
    requires 1 < n < TWO_64 && k > 0 && Pow2(k - 1) <= n - 1 < Pow2(k) && TopOnes(n - 1, k, 1)
    ensures n <= TWO_64 / 2 ==> NextPowerOfTwo(n) == Pow2(k) && n <= Pow2(k) < 2 * n
    ensures n > TWO_64 / 2 ==> NextPowerOfTwo(n) == 0
  {
    hide SmearAll, TopOnes, Pow2;
    BitWidth(n - 1, k);
    SmearFills(n - 1, k);
  }

  /** A 64-bit number below 2^63 has fewer than 64 bits; the others have 64. */
  lemma BitWidth(m: nat, k: nat)
    requires k > 0 && Pow2(k - 1) <= m < Pow2(k) && m < TWO_64
    ensures k <= 64 && Pow2(k) == 2 * Pow2(k - 1)
    ensures m < TWO_64 / 2 ==> Pow2(k) < TWO_64
    ensures m >= TWO_64 / 2 ==> Pow2(k) == TWO_64
  {
    TwoTo64();
    Pow2Half(k - 1);
    hide Pow2;
    Pow2Mono(k - 1, 64);
    if m < TWO_64 / 2 {
      Pow2Mono(k - 1, 63);
      Pow2Le(k, 63);
    } else if k < 64 {
      Pow2Le(k, 63);
    }
  }

  lemma SmearAllZero()
    ensures SmearAll(0) == 0
  {
    ShrZero(1); ShrZero(2); ShrZero(4); ShrZero(8); ShrZero(16); ShrZero(32);
  }

  lemma {:induction false} Pow2Le(a: nat, b: nat)
    requires a <= b
    ensures Pow2(a) <= Pow2(b)
    decreases b
  {
    if a < b { Pow2Le(a, b - 1); }
  }
}
