/** DivCeil and NextPowerOfTwo, the latter by smearing the highest bit downwards. */
module PowersOfTwo {
  import opened Chunks
  import opened Wrappers

  function Pow2(k: nat): (p: nat)
    ensures p > 0
  {
    if k == 0 then 1 else 2 * Pow2(k - 1)
  }

  lemma {:induction false} Pow2IsPow2(k: nat)
    ensures IsPow2(Pow2(k))
  {
    if k > 0 { Pow2IsPow2(k - 1); }
  }

  lemma {:induction false} Pow2Grows(j: nat, k: nat)
    requires j <= k
    ensures Pow2(j) <= Pow2(k)
  {
    if j < k { Pow2Grows(j, k - 1); }
  }

  // ----- bitwise or on naturals -----

  function Or(x: nat, y: nat): nat {
    if x == 0 && y == 0 then 0
    else 2 * Or(x / 2, y / 2) + if x % 2 == 1 || y % 2 == 1 then 1 else 0
  }

  lemma {:induction false} OrBounds(x: nat, y: nat, k: nat)
    requires x < Pow2(k) && y < Pow2(k)
    ensures x <= Or(x, y) && y <= Or(x, y) < Pow2(k)
  {
    if x != 0 || y != 0 { OrBounds(x / 2, y / 2, k - 1); }
  }

  lemma {:induction false} OrZero(x: nat)
    ensures Or(x, 0) == x
  {
    if x != 0 { OrZero(x / 2); }
  }

  function Shr(v: nat, m: nat): nat {
    if m == 0 then v else Shr(v / 2, m - 1)
  }

  // ----- smearing -----

  /** A number of k digits whose m highest digits are ones. */
  ghost predicate Ones(v: nat, k: nat, m: nat) {
    m <= k && Pow2(k) - Pow2(k - m) <= v < Pow2(k)
  }

  /** The shifted copy starts with the same ones. */
  lemma {:induction false} ShrOnes(v: nat, k: nat, j: nat, m: nat)
    requires m <= k && j <= k && Pow2(k) - Pow2(j) <= v < Pow2(k)
    ensures Pow2(k - m) - (if m <= j then Pow2(j - m) else 1) <= Shr(v, m) < Pow2(k - m)
    decreases m
  {
    if m > 0 { ShrOnes(v / 2, k - 1, if j == 0 then 0 else j - 1, m - 1); }
  }

  /** Below a block of ones the or adds everything. */
  lemma {:induction false} OrOnes(v: nat, y: nat, k: nat, j: nat)
    requires j <= k && Pow2(k) - Pow2(j) <= v < Pow2(k) && y < Pow2(j)
    ensures Or(v, y) >= Pow2(k) - Pow2(j) + y
  {
    if j == 0 { OrZero(v); } else { OrOnes(v / 2, y / 2, k - 1, j - 1); }
  }

  lemma SmearOnce(v: nat, k: nat, m: nat)
    requires 1 <= m && Ones(v, k, m)
    ensures Ones(Or(v, Shr(v, m)), k, if 2 * m <= k then 2 * m else k)
  {
    ShrOnes(v, k, k - m, m);
    OrOnes(v, Shr(v, m), k, k - m);
    Pow2Grows(k - m, k);
    OrBounds(v, Shr(v, m), k);
  }

  /** One step v |= v >> m; minus one, the predecessor of zero, has all digits set. */
  function OrShift(v: int, m: nat): int
    requires v >= -1
  {
    if v == -1 then -1 else Or(v, Shr(v, m))
  }

  lemma {:induction false} ShrLower(v: nat, m: nat)
    ensures Shr(v, m) <= v
  {
    if m > 0 { ShrLower(v / 2, m - 1); }
  }

  lemma SmearStep(v: nat, k: nat, m: nat)
    requires 1 <= m && 1 <= k && (Ones(v, k, m) || Ones(v, k, k))
    ensures OrShift(v, m) >= 0 && (Ones(OrShift(v, m), k, 2 * m) || Ones(OrShift(v, m), k, k))
  {
    if Ones(v, k, m) {
      SmearOnce(v, k, m);
    } else {
      ShrLower(v, m);
      OrBounds(v, Shr(v, m), k);
    }
  }

  lemma {:induction false} DigitCount(v: nat, bound: nat) returns (k: nat)
    requires 1 <= v < Pow2(bound)
    ensures 1 <= k <= bound && Ones(v, k, 1)
  {
    if v == 1 { k := 1; } else {
      k := DigitCount(v / 2, bound - 1);
      k := k + 1;
    }
  }

  const MAX_INPUT := 4611686018427387904

  lemma MaxInput()
    ensures Pow2(62) == MAX_INPUT
  {
    assert Pow2(8) == 256 && Pow2(16) == 65536 && Pow2(24) == 16777216 && Pow2(32) == 4294967296;
    assert Pow2(40) == 1099511627776 && Pow2(48) == 281474976710656 && Pow2(56) == 72057594037927936;
  }

  function Smear(v: int): int
    requires v >= -1
  {
    if v == -1 then -1 else
    var a := OrShift(v, 1);
    var b := OrShift(a, 2);
    var c := OrShift(b, 4);
    var d := OrShift(c, 8);
    var e := OrShift(d, 16);
    OrShift(e, 32)
  }

  /** Six doublings fill up to 64 digits. */
  lemma SmearAll(v: nat, k: nat)
    requires 1 <= k <= 62 && Ones(v, k, 1)
    ensures Smear(v) == Pow2(k) - 1
  {
    var a := OrShift(v, 1);
    SmearStep(v, k, 1);
    var b := OrShift(a, 2);
    SmearStep(a, k, 2);
    var c := OrShift(b, 4);
    SmearStep(b, k, 4);
    var d := OrShift(c, 8);
    SmearStep(c, k, 8);
    var e := OrShift(d, 16);
    SmearStep(d, k, 16);
    SmearStep(e, k, 32);
  }

  /** The least power of two at or above n. */
  ghost predicate LeastPow2(p: int, n: int) {
    p >= n && p > 0 && IsPow2(p) && p < 2 * n && forall q: nat :: IsPow2(q) && q >= n ==> p <= q
  }

  lemma PowersAreNext(n: nat, k: nat)
    requires 1 <= k && Pow2(k - 1) < n <= 2 * Pow2(k - 1)
    ensures LeastPow2(2 * Pow2(k - 1), n)
  {
    var p := Pow2(k - 1);
    Pow2IsPow2(k - 1);
    assert IsPow2(2 * p);
    LeastFromHalf(p, n);
  }

  lemma DigitsAreNext(n: nat, k: nat)
    requires 2 <= n && 1 <= k && Ones(n - 1, k, 1)
    ensures LeastPow2(Pow2(k), n)
  {
    var p := Pow2(k - 1);
    assert Pow2(k) == 2 * p;
    PowersAreNext(n, k);
  }

  lemma LeastFromHalf(p: nat, n: nat)
    requires IsPow2(p) && IsPow2(2 * p) && p < n <= 2 * p
    ensures LeastPow2(2 * p, n)
  {
    forall q: nat | IsPow2(q) && q >= n ensures 2 * p <= q { Doubles(p, q); }
  }

  lemma Doubles(p: nat, q: nat)
    requires IsPow2(p) && IsPow2(q) && p < q
    ensures 2 * p <= q
  {
    Pow2Gap(p, q);
  }

  lemma ZeroStep(m: nat)
    ensures OrShift(0, m) == 0
  {
    ShrLower(0, m);
  }

  lemma SmearZero()
    ensures Smear(0) == 0
  {
    ZeroStep(1);
    ZeroStep(2);
    ZeroStep(4);
    ZeroStep(8);
    ZeroStep(16);
    ZeroStep(32);
  }

  lemma SmearIsNext(n: nat)
    requires 1 <= n <= MAX_INPUT
    ensures LeastPow2(Smear(n - 1) + 1, n)
  {
    if n == 1 {
      SmearZero();
    } else {
      MaxInput();
      var k := DigitCount(n - 1, 62);
      SmearAll(n - 1, k);
      DigitsAreNext(n, k);
    }
  }

  /** NextPowerOfTwo; the input zero gives zero. */
  method NextPowerOfTwo(n: int) returns (res: Option<int>)
    ensures res.None? <==> n < 0 || n > MAX_INPUT
    ensures n == 0 ==> res == Some(0)
    ensures res.Some? && n > 0 ==> LeastPow2(res.value, n)
  {
    if n < 0 || n > MAX_INPUT { return None; }
    var v := n - 1;
    v := OrShift(v, 1);
    v := OrShift(v, 2);
    v := OrShift(v, 4);
    v := OrShift(v, 8);
    v := OrShift(v, 16);
    v := OrShift(v, 32);
    assert v == Smear(n - 1);
    if n > 0 { SmearIsNext(n); }
    v := v + 1;
    res := Some(v);
  }

  /** DivCeil, with division truncating towards zero. */
  function TruncDiv(a: int, b: int): int
    requires b != 0
  {
    if a >= 0 then a / b else -(-a / b)
  }

  function DivCeil(a: int, b: int): int
    requires b != 0
  {
    var res := TruncDiv(a, b);
    if b * res < a then res + 1 else res
  }

  /** For positive divisors it is the least q with b * q >= a. */
  lemma DivCeilIsCeiling(a: int, b: int)
    requires b > 0
    ensures b * DivCeil(a, b) >= a && b * (DivCeil(a, b) - 1) < a
  {
    if a >= 0 {
      assert b * (a / b) <= a < b * (a / b) + b;
    } else {
      var c := -a;
      assert b * (c / b) <= c < b * (c / b) + b;
      assert b * -(c / b) == -(b * (c / b));
    }
  }

  /** q is a divided by b, rounded up. */
  ghost predicate RoundedUp(q: int, a: int, b: int) {
    if b > 0 then b * (q - 1) < a <= b * q else b * q <= a < b * (q - 1)
  }

  /** For a negative divisor the result is rounded up only where nothing is rounded. */
  lemma DivCeilExactly(a: int, b: int)
    requires b != 0
    ensures RoundedUp(DivCeil(a, b), a, b) <==> b > 0 || b * TruncDiv(a, b) == a
  {
    if b > 0 { DivCeilIsCeiling(a, b); } else { NegativeQuotient(a, b); }
  }

  lemma NegativeQuotient(a: int, b: int)
    requires b < 0
    ensures a >= 0 ==> b * TruncDiv(a, b) <= a < b * TruncDiv(a, b) - b
    ensures a < 0 ==> b * TruncDiv(a, b) + b < a <= b * TruncDiv(a, b)
  {
    var c := if a >= 0 then a else -a;
    var q := c / -b;
    assert -b * q <= c < -b * q - b;
    assert b * -q == -b * q;
  }
}
