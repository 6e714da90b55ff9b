/**
 * Decimal rounding of single-precision values (`framework_significant_digits` in
 * crates/jet3-testkit/src/semantic_values.rs): the digits beyond the precision decide whether a carry is
 * propagated through the kept ones. The digits and exponent of the exact spelling are inputs.
 */
module Rounding {
  type Digit = d: int | 0 <= d < 10

  function Pow10(k: nat): (p: nat)
    ensures p > 0
  {
    if k == 0 then 1 else 10 * Pow10(k - 1)
  }

  /** The integer spelled by decimal digits. */
  function Value(digits: seq<Digit>): (n: nat) {
    if digits == [] then 0 else 10 * Value(digits[..|digits| - 1]) + digits[|digits| - 1]
  }

  /** `r` is `n` rounded half up to a multiple of 10^k, in units of 10^k. */
  predicate RoundsHalfUp(n: nat, k: nat, r: nat)
    requires k > 0
  {
    r * Pow10(k) <= n + 5 * Pow10(k - 1) < r * Pow10(k) + Pow10(k)
  }

  // ----- Digit arithmetic -----

  lemma {:induction false} ValueBound(digits: seq<Digit>)
    ensures Value(digits) < Pow10(|digits|)
  {
    if digits != [] {
      ValueBound(digits[..|digits| - 1]);
    }
  }

  lemma {:induction false} ValueSplit(digits: seq<Digit>, k: nat)
    requires k <= |digits|
    ensures Value(digits) == Value(digits[..k]) * Pow10(|digits| - k) + Value(digits[k..])
    decreases |digits|
  {
    var n := |digits|;
    if k == n {
      assert digits[..k] == digits && digits[k..] == [];
    } else {
      var shorter := digits[..n - 1];
      ValueSplit(shorter, k);
      assert shorter[..k] == digits[..k];
      assert digits[k..][..n - k - 1] == shorter[k..];
      TenTimes(Value(digits[..k]), Pow10(n - 1 - k));
      SplitStep(digits, k);
    }
  }

  lemma SplitStep(digits: seq<Digit>, k: nat)
    requires k < |digits|
    requires var n := |digits|;
             Value(digits[..n - 1]) == Value(digits[..k]) * Pow10(n - 1 - k) + Value(digits[k..][..n - k - 1])
    ensures Value(digits) == Value(digits[..k]) * Pow10(|digits| - k) + Value(digits[k..])
  {
    var n := |digits|;
    TenTimes(Value(digits[..k]), Pow10(n - 1 - k));
    var h, p := Value(digits[..k]), Pow10(n - 1 - k);
    assert Pow10(n - k) == 10 * p;
    assert Value(digits[k..]) == 10 * Value(digits[k..][..n - k - 1]) + digits[n - 1];
  }

  lemma TenTimes(h: int, p: int)
    ensures 10 * (h * p) == h * (10 * p)
  {
  }

  lemma ValueUpdate(digits: seq<Digit>, i: nat, d: Digit)
    requires i < |digits|
    ensures Value(digits[i := d]) == Value(digits) + (d - digits[i]) * Pow10(|digits| - 1 - i)
  {
    hide Value, Pow10;
    var changed, n := digits[i := d], |digits|;
    ValueSplit(digits, i + 1);
    ValueSplit(changed, i + 1);
    PrefixDifference(digits, i, d);
    Distribute(Value(digits[..i + 1]), d - digits[i], Pow10(n - 1 - i));
  }

  lemma PrefixDifference(digits: seq<Digit>, i: nat, d: Digit)
    requires i < |digits|
    ensures Value(digits[i := d][..i + 1]) == Value(digits[..i + 1]) + (d - digits[i])
    ensures digits[i := d][i + 1..] == digits[i + 1..]
  {
    assert digits[i := d][..i + 1][..i] == digits[..i + 1][..i];
  }

  lemma Distribute(a: int, b: int, p: int)
    ensures (a + b) * p == a * p + b * p
  {
  }

  /** The first discarded digit decides the rounding of everything that is discarded. */
  lemma FirstDiscardedDecides(tail: seq<Digit>)
    requires tail != []
    ensures tail[0] >= 5 <==> Value(tail) >= 5 * Pow10(|tail| - 1)
  {
    ValueSplit(tail, 1);
    ValueBound(tail[1..]);
    assert tail[..1] == [tail[0]] && tail[..1][..0] == [];
    assert Value(tail[..1]) == tail[0];
    var p := Pow10(|tail| - 1);
    if tail[0] >= 5 {
      MulAtLeast(tail[0], 5, p);
    } else {
      MulAtLeast(4, tail[0], p);
    }
  }

  lemma MulAtLeast(a: int, b: int, p: nat)
    requires a >= b
    ensures a * p >= b * p
  {
  }

  lemma RoundedHead(digits: seq<Digit>, precision: nat)
    requires precision < |digits|
    ensures RoundsHalfUp(Value(digits), |digits| - precision,
                         Value(digits[..precision]) + (if digits[precision] >= 5 then 1 else 0))
  {
    var k := |digits| - precision;
    var up := if digits[precision] >= 5 then 1 else 0;
    assert Pow10(k) == 10 * Pow10(k - 1);
    hide Value, Pow10;
    ValueSplit(digits, precision);
    ValueBound(digits[precision..]);
    FirstDiscardedDecides(digits[precision..]);
    Distribute(Value(digits[..precision]), up, Pow10(k));
  }

  // ----- The loop -----

  lemma {:induction false} ZerosValue(n: nat)
    ensures Value(seq(n, i => 0)) == 0
  {
    if n > 0 {
      assert seq(n, i => 0)[..n - 1] == seq(n - 1, i => 0);
      ZerosValue(n - 1);
    }
  }

  lemma LeadingOne(n: nat)
    requires n > 0
    ensures Value((seq(n, i => 0))[0 := 1]) == Pow10(n - 1)
  {
    ZerosValue(n);
    ValueUpdate(seq(n, i => 0), 0, 1);
  }

  /** Adds one to the kept digits from the last one on; `carry` is left when all of them were nines. */
  method PropagateCarry(digits: seq<Digit>) returns (rounded: seq<Digit>, carry: bool)
    ensures |rounded| == |digits|
    ensures Value(digits) + 1 == Value(rounded) + (if carry then Pow10(|digits|) else 0)
  {
    hide Value;
    rounded, carry := digits, true;
    var i := |digits|;
    while i > 0 && carry
      invariant 0 <= i <= |digits| == |rounded|
      invariant Value(digits) + 1 == Value(rounded) + (if carry then Pow10(|digits| - i) else 0)
      decreases i, carry
    {
      i := i - 1;
      assert Pow10(|digits| - i) == 10 * Pow10(|digits| - 1 - i);
      if rounded[i] == 9 {
        ValueUpdate(rounded, i, 0);
        rounded := rounded[i := 0];
      } else {
        ValueUpdate(rounded, i, rounded[i] + 1);
        rounded := rounded[i := rounded[i] + 1];
        carry := false;
      }
    }
  }

  /**
   * Keeping `precision` digits yields exactly round half up of the whole decimal: the kept digits times
   * ten per unit of added exponent are the rounded integer, and only an all-nines carry adds one.
   */
  method SignificantDigits(digits: seq<Digit>, exponent: int, precision: nat) returns (rounded: seq<Digit>, scale: int)
    requires 0 < precision < |digits|
    ensures |rounded| == precision
    ensures var exact := Value(rounded) * (if scale == exponent then 1 else 10);
            && (scale == exponent || scale == exponent + 1)
            && RoundsHalfUp(Value(digits), |digits| - precision, exact)
            && (scale == exponent + 1 <==> exact == Pow10(precision))
            && (scale == exponent + 1 ==> rounded[0] == 1 && forall i :: 0 < i < precision ==> rounded[i] == 0)
  {
    hide RoundsHalfUp;
    rounded, scale := digits[..precision], exponent;
    RoundedHead(digits, precision);
    ValueBound(digits[..precision]);
    if digits[precision] >= 5 {
      var carry;
      rounded, carry := PropagateCarry(rounded);
      ValueBound(rounded);
      if carry {
        rounded := seq(precision, i => 0);
        rounded := rounded[0 := 1];
        LeadingOne(precision);
        scale := scale + 1;
      }
    }
  }
}
