/**
 * Byte order of index keys is value order.
 *
 * `ValueLess` orders the values of one column without looking at their encoding: integers by value,
 * floating patterns by the exact number they denote (with -0 below +0), Binary and GUID bytewise, Text
 * by primary and then secondary weights, True before False, and null before everything. `TupleLess` is
 * the lexicographic order of rows under per-column directions. The main results say that the
 * concatenated components compare bytewise exactly like the tuples, with no key a prefix of another.
 */
module KeyOrder {
  import opened Bytes
  import opened KeyEncoding

  // ----- Value order -----

  /** The magnitude of a finite pattern, scaled by 2^(bias + fraction width - 1) to an integer. */
  function Magnitude(m: nat, fraction: nat): (r: int) {
    MagnitudeOf(m / Pow2(fraction), m % Pow2(fraction), Pow2(fraction))
  }

  /** Subnormal patterns denote their mantissa; the others add the hidden unit and scale. */
  function MagnitudeOf(exponent: int, mantissa: int, unit: int): (r: int) {
    if exponent <= 0 then mantissa else (unit + mantissa) * Pow2(exponent - 1)
  }

  function IsNegative(bits: nat, kind: Kind): (r: bool) {
    bits >= Half(Size(kind))
  }

  /** The number denoted by a floating pattern, times a constant of its kind. */
  function ScaledFloat(bits: nat, kind: Kind): (r: int) {
    var magnitude := Magnitude(bits % Half(Size(kind)), FractionWidth(kind));
    if IsNegative(bits, kind) then -magnitude else magnitude
  }

  predicate FloatLess(a: nat, b: nat, kind: Kind) {
    || ScaledFloat(a, kind) < ScaledFloat(b, kind)
    || (ScaledFloat(a, kind) == ScaledFloat(b, kind) && IsNegative(a, kind) && !IsNegative(b, kind))
  }

  predicate WeightLess(a: Weight, b: Weight) {
    Less(a.primary, b.primary) || (a.primary == b.primary && Less(a.accents, b.accents))
  }

  /** Strict order of two values admitted by one column. */
  predicate ValueLess(v: Value, w: Value, kind: Kind, table: Collation)
    requires ValidCollation(table)
  {
    match (v, w)
    case (Null, _) => w != Null
    case (Flag(a), Flag(b)) => a && !b
    case (Number(a), Number(b)) => a < b
    case (Float(a), Float(b)) => FloatLess(a, b, kind)
    case (Raw(a), Raw(b)) =>
      if kind == Text then
        var x, y := CollationKey(a, table), CollationKey(b, table);
        x.Accepted? && y.Accepted? && WeightLess(x.value, y.value)
      else Less(a, b)
    case _ => false
  }

  /** Equal values; Text values are equal when their collation weights are. */
  predicate ValueSame(v: Value, w: Value, kind: Kind, table: Collation)
    requires ValidCollation(table)
  {
    if v.Raw? && w.Raw? && kind == Text then CollationKey(v.data, table) == CollationKey(w.data, table) else v == w
  }

  /** Lexicographic order of rows, reversing every descending column. */
  predicate TupleLess(v: seq<Value>, w: seq<Value>, fields: seq<Field>, table: Collation)
    requires ValidCollation(table) && |v| == |w| == |fields|
  {
    fields != [] &&
    if ValueSame(v[0], w[0], fields[0].kind, table) then TupleLess(v[1..], w[1..], fields[1..], table)
    else if fields[0].descending then ValueLess(w[0], v[0], fields[0].kind, table)
    else ValueLess(v[0], w[0], fields[0].kind, table)
  }

  predicate TupleSame(v: seq<Value>, w: seq<Value>, fields: seq<Field>, table: Collation)
    requires ValidCollation(table) && |v| == |w| == |fields|
  {
    forall i :: 0 <= i < |fields| ==> ValueSame(v[i], w[i], fields[i].kind, table)
  }

  // ----- Floating patterns -----

  lemma MagnitudeStep(m: nat, fraction: nat)
    ensures Magnitude(m, fraction) < Magnitude(m + 1, fraction)
  {
    hide MagnitudeOf, Pow2;
    var unit := Pow2(fraction);
    var e, f := m / unit, m % unit;
    assert m == e * unit + f && 0 <= e && 0 <= f < unit by {
      DivModFacts(m, unit);
    }
    if f + 1 < unit {
      DivModUnique(m + 1, unit, e, f + 1);
      FieldStep(e, f, unit);
    } else {
      assert m + 1 == (e + 1) * unit + 0;
      DivModUnique(m + 1, unit, e + 1, 0);
      ExponentStep(e, unit);
    }
  }

  lemma FieldStep(e: int, f: int, unit: int)
    ensures MagnitudeOf(e, f, unit) < MagnitudeOf(e, f + 1, unit)
  {
    if e > 0 {
      var p := Pow2(e - 1);
      assert (unit + (f + 1)) * p == (unit + f) * p + p;
    }
  }

  /** A full mantissa carries into the exponent. */
  lemma ExponentStep(e: nat, unit: nat)
    requires unit > 0
    ensures MagnitudeOf(e, unit - 1, unit) < MagnitudeOf(e + 1, 0, unit)
  {
    if e > 0 {
      var p := Pow2(e - 1);
      assert Pow2(e) == 2 * p;
      assert (unit + (unit - 1)) * p == unit * (2 * p) - p;
    }
  }

  lemma DivModUnique(n: nat, d: nat, q: nat, r: nat)
    requires d > 0 && r < d && n == q * d + r
    ensures n / d == q && n % d == r
  {
    DivModFacts(n, d);
    var q' := n / d;
    if q < q' {
      MultiplesApart(q, q', d);
    } else if q' < q {
      MultiplesApart(q', q, d);
    }
  }

  lemma DivModFacts(n: nat, d: nat)
    requires d > 0
    ensures n == (n / d) * d + n % d && n / d >= 0 && 0 <= n % d < d
  {
  }

  lemma MultiplesApart(p: nat, q: nat, d: nat)
    requires p < q
    ensures p * d + d <= q * d
  {
    var k: nat := q - p - 1;
    assert k * d >= 0;
    assert q * d == (p + 1 + k) * d == p * d + d + k * d;
  }

  lemma {:induction false} MagnitudeMonotone(m: nat, n: nat, fraction: nat)
    requires m < n
    ensures Magnitude(m, fraction) < Magnitude(n, fraction)
    decreases n
  {
    MagnitudeStep(n - 1, fraction);
    if m < n - 1 {
      MagnitudeMonotone(m, n - 1, fraction);
    }
  }

  lemma MagnitudeNonNegative(m: nat, fraction: nat)
    ensures Magnitude(m, fraction) >= 0
  {
    DivModFacts(m, Pow2(fraction));
    var e, f := m / Pow2(fraction), m % Pow2(fraction);
    if e > 0 {
      NonNegativeProduct(Pow2(fraction) + f, Pow2(e - 1));
    }
  }

  lemma NonNegativeProduct(a: int, b: int)
    requires a >= 0 && b >= 0
    ensures a * b >= 0
  {
  }

  /** The rewritten pattern orders finite floating values by the number they denote. */
  lemma FloatBitsOrder(a: nat, b: nat, kind: Kind)
    requires IsFloating(kind) && a < Pow256(Size(kind)) && b < Pow256(Size(kind))
    ensures FloatLess(a, b, kind) <==> FloatBits(a, kind) < FloatBits(b, kind)
    ensures a == b <==> FloatBits(a, kind) == FloatBits(b, kind)
  {
    hide Magnitude, Pow2, Pow256;
    var half := Half(Size(kind));
    var m, n := if a >= half then a - half else a, if b >= half then b - half else b;
    assert a % half == m && b % half == n by {
      DivModUnique(a, half, if a >= half then 1 else 0, m);
      DivModUnique(b, half, if b >= half then 1 else 0, n);
    }
    MagnitudeNonNegative(m, FractionWidth(kind));
    MagnitudeNonNegative(n, FractionWidth(kind));
    if m < n {
      MagnitudeMonotone(m, n, FractionWidth(kind));
    } else if n < m {
      MagnitudeMonotone(n, m, FractionWidth(kind));
    }
  }

  // ----- Binary chunks -----

  /** A decided comparison is decided inside the first `n` bytes or after equal ones. */
  lemma {:induction false} BelowSplit(a: seq<byte>, b: seq<byte>, n: nat)
    requires Below(a, b) && n <= |a| && n <= |b|
    ensures Below(a[..n], b[..n]) || (a[..n] == b[..n] && Below(a[n..], b[n..]))
  {
    if n > 0 && a[0] == b[0] {
      BelowSplit(a[1..], b[1..], n - 1);
      assert a[..n] == [a[0]] + a[1..][..n - 1] && b[..n] == [b[0]] + b[1..][..n - 1];
      assert a[n..] == a[1..][n - 1..] && b[n..] == b[1..][n - 1..];
      assert a[..n][1..] == a[1..][..n - 1] && b[..n][1..] == b[1..][..n - 1];
    } else if n == 0 {
      assert a[n..] == a && b[n..] == b;
    }
  }

  lemma {:induction false} ZerosLowest(s: seq<byte>)
    ensures s == Zeros(|s|) || Below(Zeros(|s|), s)
  {
    if s != [] {
      assert Zeros(|s|)[1..] == Zeros(|s[1..]|);
      ZerosLowest(s[1..]);
      assert s == [s[0]] + s[1..] && Zeros(|s|) == [0] + Zeros(|s[1..]|);
    }
  }

  function Padded(s: seq<byte>, width: nat): (r: seq<byte>)
    requires |s| <= width
  {
    s + Zeros(width - |s|)
  }

  /** Zero padding to a common width never inverts the order. */
  lemma PaddingOrder(a: seq<byte>, b: seq<byte>, width: nat)
    requires Less(a, b) && |a| <= width && |b| <= width
    ensures Below(Padded(a, width), Padded(b, width)) || (Padded(a, width) == Padded(b, width) && |a| < |b|)
  {
    LessCases(a, b);
    if Below(a, b) {
      BelowExtends(a, b, Zeros(width - |a|), Zeros(width - |b|));
    } else {
      PrefixPadding(a, b, width);
    }
  }

  lemma PrefixPadding(a: seq<byte>, b: seq<byte>, width: nat)
    requires a <= b && |b| <= width
    ensures Below(Padded(a, width), Padded(b, width)) || Padded(a, width) == Padded(b, width)
  {
    var rest := Padded(b[|a|..], width - |a|);
    assert Padded(b, width) == a + rest;
    ZerosLowest(rest);
    if Below(Zeros(|rest|), rest) {
      BelowUnderPrefix(a, Zeros(|rest|), rest);
    }
  }

  /** Chunks with an explicit continuation byte: 9 ascending, the complement of 9 under a descending one. */
  function Framed(raw: seq<byte>, more: byte): (r: seq<byte>)
    requires raw != []
  {
    if |raw| <= 8 then raw + Zeros(8 - |raw|) + [|raw|] else raw[..8] + [more] + Framed(raw[8..], more)
  }

  lemma {:induction false} ChunksAreFramed(raw: seq<byte>, descending: bool)
    requires raw != []
    ensures Chunks(raw, descending) == Directed(Framed(raw, if descending then 246 else 9), descending)
  {
    var more: byte := if descending then 246 else 9;
    if |raw| <= 8 {
      assert Framed(raw, more) == (raw + Zeros(8 - |raw|)) + [|raw|];
      ComplementConcat(raw + Zeros(8 - |raw|), [|raw|]);
    } else {
      ChunksAreFramed(raw[8..], descending);
      ComplementConcat(raw[..8], [more]);
      ComplementConcat(raw[..8] + [more], Framed(raw[8..], more));
      assert Complement([246]) == [9];
    }
  }

  lemma {:induction false} FramedOrder(a: seq<byte>, b: seq<byte>, more: byte)
    requires a != [] && b != [] && Less(a, b) && more > 8
    ensures Below(Framed(a, more), Framed(b, more))
    decreases |a|
  {
    if |a| <= 8 {
      ShortFramedOrder(a, b, more);
    } else if |b| <= 8 {
      LongFramedOrder(a, b, more);
    } else {
      var tail, tail' := Framed(a[8..], more), Framed(b[8..], more);
      assert Framed(a, more) == a[..8] + ([more] + tail);
      assert Framed(b, more) == b[..8] + ([more] + tail');
      LessSplit(a, b, 8);
      if Below(a[..8], b[..8]) {
        BelowExtends(a[..8], b[..8], [more] + tail, [more] + tail');
      } else {
        FramedOrder(a[8..], b[8..], more);
        BelowUnderPrefix([more], tail, tail');
        BelowUnderPrefix(a[..8], [more] + tail, [more] + tail');
      }
    }
  }

  function FrameHead(b: seq<byte>): (r: seq<byte>) {
    if |b| <= 8 then b else b[..8]
  }

  function FrameTail(b: seq<byte>, more: byte): (r: seq<byte>)
    requires b != []
  {
    if |b| <= 8 then [|b|] else [more] + Framed(b[8..], more)
  }

  lemma FramedParts(b: seq<byte>, more: byte)
    requires b != []
    ensures Framed(b, more) == Padded(FrameHead(b), 8) + FrameTail(b, more)
  {
    assert FrameHead(b) + Zeros(0) == FrameHead(b);
  }

  lemma ShortFramedOrder(a: seq<byte>, b: seq<byte>, more: byte)
    requires a != [] && |a| <= 8 && b != [] && Less(a, b) && more > 8
    ensures Below(Framed(a, more), Framed(b, more))
  {
    FramedParts(a, more);
    FramedParts(b, more);
    HeadOrder(a, b);
    if Below(Padded(a, 8), Padded(FrameHead(b), 8)) {
      BelowExtends(Padded(a, 8), Padded(FrameHead(b), 8), FrameTail(a, more), FrameTail(b, more));
    } else {
      BelowUnderPrefix(Padded(a, 8), FrameTail(a, more), FrameTail(b, more));
    }
  }

  lemma HeadOrder(a: seq<byte>, b: seq<byte>)
    requires |a| <= 8 && Less(a, b)
    ensures Below(Padded(a, 8), Padded(FrameHead(b), 8)) || (Padded(a, 8) == Padded(FrameHead(b), 8) && |a| < |b|)
  {
    if |b| > 8 && a != b[..8] {
      TruncatedLess(a, b, 8);
    }
    if a != FrameHead(b) {
      PaddingOrder(a, FrameHead(b), 8);
    } else if a == b {
      LessIrreflexive(a);
    }
  }

  lemma LongFramedOrder(a: seq<byte>, b: seq<byte>, more: byte)
    requires |a| > 8 && b != [] && |b| <= 8 && Less(a, b) && more > 8
    ensures Below(Framed(a, more), Framed(b, more))
  {
    LessCases(a, b);
    BelowSplit(a, b, |b|);
    assert b[..|b|] == b && b[|b|..] == [];
    BelowExtends(a[..|b|], b, a[|b|..8], Zeros(8 - |b|));
    assert a[..8] == a[..|b|] + a[|b|..8];
    var tail := [more] + Framed(a[8..], more);
    assert Framed(a, more) == a[..8] + tail;
    BelowExtends(a[..8], Padded(b, 8), tail, [|b|]);
  }

  lemma TruncatedLess(a: seq<byte>, b: seq<byte>, n: nat)
    requires Less(a, b) && |a| <= n <= |b| && a != b[..n]
    ensures Less(a, b[..n])
  {
    LessCases(a, b);
    if Below(a, b) {
      BelowSplit(a, b, |a|);
      assert a[..|a|] == a && a[|a|..] == [];
      BelowExtends(a, b[..|a|], [], b[|a|..n]);
      assert b[..n] == b[..|a|] + b[|a|..n] && a + [] == a;
    } else {
      PrefixLess(a, b[..n]);
    }
  }

  lemma {:induction false} PrefixLess(a: seq<byte>, b: seq<byte>)
    requires a < b
    ensures Less(a, b)
  {
    if a != [] {
      PrefixLess(a[1..], b[1..]);
    }
  }

  lemma LessSplit(a: seq<byte>, b: seq<byte>, n: nat)
    requires Less(a, b) && n <= |a| && n <= |b|
    ensures Below(a[..n], b[..n]) || (a[..n] == b[..n] && Less(a[n..], b[n..]))
  {
    LessCases(a, b);
    if Below(a, b) {
      BelowSplit(a, b, n);
      if Below(a[n..], b[n..]) {
        BelowIsLess(a[n..], b[n..]);
      }
    } else {
      PrefixLess(a[n..], b[n..]);
    }
  }

  // ----- Text -----

  /** The nibble stream from a pending high nibble on, as bytes. */
  function Packed(high: byte, rest: seq<byte>): (r: seq<byte>)
    requires high < 16 && forall i :: 0 <= i < |rest| ==> rest[i] < 16
    ensures |r| > 0 && 16 * high <= r[0] <= 16 * high + 15
    decreases |rest|
  {
    if rest == [] then [16 * high]
    else if |rest| == 1 then [16 * high + rest[0], 0]
    else [16 * high + rest[0]] + Packed(rest[1], rest[2..])
  }

  lemma {:induction false} PackIsPacked(high: byte, rest: seq<byte>)
    requires high < 16 && forall i :: 0 <= i < |rest| ==> rest[i] < 16
    ensures var framed := [high] + rest + [0];
            Pack(if |framed| % 2 == 0 then framed else framed + [0]) == Packed(high, rest)
    decreases |rest|
  {
    var framed := [high] + rest + [0];
    var even := if |framed| % 2 == 0 then framed else framed + [0];
    if |rest| >= 2 {
      PackIsPacked(rest[1], rest[2..]);
      var framed' := [rest[1]] + rest[2..] + [0];
      assert even[2..] == if |framed'| % 2 == 0 then framed' else framed' + [0];
    } else if |rest| == 1 {
      assert even[2..] == [0, 0];
      assert Pack([0, 0]) == [0] + Pack([]);
    } else {
      assert even == [high, 0];
      assert even[2..] == [];
    }
  }

  lemma {:induction false} PackedOrder(high: byte, a: seq<byte>, b: seq<byte>)
    requires high < 16
    requires forall i :: 0 <= i < |a| ==> 0 < a[i] < 16
    requires forall i :: 0 <= i < |b| ==> 0 < b[i] < 16
    requires Less(a, b)
    ensures Below(Packed(high, a), Packed(high, b))
    decreases |a|
  {
    if a != [] && a[0] == b[0] {
      assert |b| >= 2;
      assert Packed(high, b)[1..] == Packed(b[1], b[2..]);
      if |a| >= 2 {
        assert Packed(high, a)[1..] == Packed(a[1], a[2..]);
        assert a[1..][1..] == a[2..] && b[1..][1..] == b[2..];
        if a[1] == b[1] {
          PackedOrder(a[1], a[2..], b[2..]);
        }
      }
    }
  }

  /** Weights of at least 16 dominate whatever follows a shorter list. */
  lemma WeightsThenRest(p: seq<byte>, x: seq<byte>, q: seq<byte>, y: seq<byte>)
    requires Less(p, q) && x != [] && x[0] < 16
    requires forall i :: 0 <= i < |q| ==> q[i] >= 16
    ensures Below(p + x, q + y)
  {
    LessCases(p, q);
    if Below(p, q) {
      BelowExtends(p, q, x, y);
    } else {
      var rest := q[|p|..] + y;
      assert q + y == p + rest && rest[0] == q[|p|];
      BelowUnderPrefix(p, x, rest);
    }
  }

  lemma TextKeyOrder(a: Weight, b: Weight)
    requires ValidWeight(a) && ValidWeight(b) && WeightLess(a, b)
    ensures Below(TextKey(a.primary, a.accents), TextKey(b.primary, b.accents))
  {
    TextKeyParts(a);
    TextKeyParts(b);
    var x, y := Packed(0, a.accents), Packed(0, b.accents);
    if Less(a.primary, b.primary) {
      WeightsThenRest(a.primary, x, b.primary, y);
    } else {
      PackedOrder(0, a.accents, b.accents);
      BelowUnderPrefix(a.primary, x, y);
    }
    BelowUnderPrefix([127], a.primary + x, b.primary + y);
  }

  lemma TextKeyParts(a: Weight)
    requires ValidWeight(a)
    ensures TextKey(a.primary, a.accents) == [127] + (a.primary + Packed(0, a.accents))
  {
    PackIsPacked(0, a.accents);
  }

  // ----- One component -----

  lemma NumberOrder(m: nat, n: nat, size: nat)
    requires m < n < Pow256(size)
    ensures Below([127] + BigEndian(m, size), [127] + BigEndian(n, size))
  {
    BigEndianOrder(m, n, size);
    BelowUnderPrefix([127], BigEndian(m, size), BigEndian(n, size));
  }

  lemma NumberBitsValue(n: int, kind: Kind)
    requires Fits(n, kind)
    ensures NumberBits(n, kind) == if kind == Byte then n else n + Half(Size(kind))
  {
  }

  /** The ascending form of a component; `Component` directs it. */
  function Ascending(value: Value, field: Field, table: Collation): (r: seq<byte>)
    requires ValidCollation(table) && Component(value, field, table).Accepted?
  {
    if value.Raw? && field.kind != Text then
      [127] + Framed(value.data, if field.descending then 246 else 9)
    else Component(value, field.(descending := false), table).value
  }

  lemma ComponentIsDirected(value: Value, field: Field, table: Collation)
    requires ValidCollation(table) && Component(value, field, table).Accepted?
    ensures Component(value, field, table).value == Directed(Ascending(value, field, table), field.descending)
  {
    if value.Raw? && field.kind != Text {
      var framed := Framed(value.data, if field.descending then 246 else 9);
      ChunksAreFramed(value.data, field.descending);
      ComplementConcat([127], framed);
    }
  }

  lemma AscendingOrder(v: Value, w: Value, field: Field, table: Collation)
    requires ValidCollation(table)
    requires Component(v, field, table).Accepted? && Component(w, field, table).Accepted?
    requires ValueLess(v, w, field.kind, table)
    ensures Below(Ascending(v, field, table), Ascending(w, field, table))
  {
    var kind := field.kind;
    match v
    case Null =>
      MarkerIsNotNull(w, field, table);
    case Flag(_) =>
      BelowUnderPrefix([127], [0], [255]);
    case Number(a) =>
      NumberBitsValue(a, kind);
      NumberBitsValue(w.n, kind);
      NumberOrder(NumberBits(a, kind), NumberBits(w.n, kind), Size(kind));
    case Float(a) =>
      FloatBitsOrder(a, w.bits, kind);
      NumberOrder(FloatBits(a, kind), FloatBits(w.bits, kind), Size(kind));
    case Raw(a) =>
      if kind == Text {
        CollationKeyValid(a, table);
        CollationKeyValid(w.data, table);
        TextKeyOrder(CollationKey(a, table).value, CollationKey(w.data, table).value);
      } else {
        var more: byte := if field.descending then 246 else 9;
        FramedOrder(a, w.data, more);
        BelowUnderPrefix([127], Framed(a, more), Framed(w.data, more));
      }
  }

  lemma MarkerIsNotNull(w: Value, field: Field, table: Collation)
    requires ValidCollation(table) && Component(w, field, table).Accepted? && w != Null
    ensures Ascending(w, field, table) != [] && Ascending(w, field, table)[0] == 127
  {
  }

  /** A smaller value has a smaller component, a larger one when the column is descending. */
  lemma ComponentOrder(v: Value, w: Value, field: Field, table: Collation)
    requires ValidCollation(table)
    requires Component(v, field, table).Accepted? && Component(w, field, table).Accepted?
    requires ValueLess(v, w, field.kind, table)
    ensures var x, y := Component(v, field, table).value, Component(w, field, table).value;
            if field.descending then Below(y, x) else Below(x, y)
  {
    ComponentIsDirected(v, field, table);
    ComponentIsDirected(w, field, table);
    AscendingOrder(v, w, field, table);
    ComplementReverses(Ascending(v, field, table), Ascending(w, field, table));
  }

  /** Two admitted values of one column are comparable, and equal ones have equal components. */
  lemma ValueOrderTotal(v: Value, w: Value, field: Field, table: Collation)
    requires ValidCollation(table)
    requires Component(v, field, table).Accepted? && Component(w, field, table).Accepted?
    ensures ValueSame(v, w, field.kind, table) || ValueLess(v, w, field.kind, table)
            || ValueLess(w, v, field.kind, table)
    ensures ValueSame(v, w, field.kind, table) ==> Component(v, field, table) == Component(w, field, table)
  {
    if v.Float? && w.Float? {
      FloatBitsOrder(v.bits, w.bits, field.kind);
      FloatBitsOrder(w.bits, v.bits, field.kind);
    } else if v.Raw? && w.Raw? {
      if field.kind == Text {
        var x, y := CollationKey(v.data, table).value, CollationKey(w.data, table).value;
        LessTotal(x.primary, y.primary);
        LessTotal(x.accents, y.accents);
      } else {
        LessTotal(v.data, w.data);
      }
    }
  }

  // ----- Composite keys -----

  /** Tuples are comparable, equal tuples share a key, and a smaller tuple has a decidedly smaller key. */
  lemma {:induction false} CompositeOrder(v: seq<Value>, w: seq<Value>, fields: seq<Field>, table: Collation)
    requires ValidCollation(table) && |v| == |w| == |fields|
    requires Key(v, fields, table).Accepted? && Key(w, fields, table).Accepted?
    ensures TupleSame(v, w, fields, table) || TupleLess(v, w, fields, table) || TupleLess(w, v, fields, table)
    ensures TupleSame(v, w, fields, table) ==> Key(v, fields, table) == Key(w, fields, table)
    ensures TupleLess(v, w, fields, table) ==> Below(Key(v, fields, table).value, Key(w, fields, table).value)
    ensures TupleLess(w, v, fields, table) ==> Below(Key(w, fields, table).value, Key(v, fields, table).value)
  {
    if fields != [] {
      var x, y := Component(v[0], fields[0], table).value, Component(w[0], fields[0], table).value;
      var xs, ys := Key(v[1..], fields[1..], table).value, Key(w[1..], fields[1..], table).value;
      ValueOrderTotal(v[0], w[0], fields[0], table);
      if ValueSame(v[0], w[0], fields[0].kind, table) {
        CompositeOrder(v[1..], w[1..], fields[1..], table);
        SameSymmetric(v[0], w[0], fields[0].kind, table);
        if TupleLess(v[1..], w[1..], fields[1..], table) {
          BelowUnderPrefix(x, xs, ys);
        }
        if TupleLess(w[1..], v[1..], fields[1..], table) {
          BelowUnderPrefix(x, ys, xs);
        }
        if TupleSame(v[1..], w[1..], fields[1..], table) {
          SameCons(v, w, fields, table);
        }
      } else {
        DecidedByFirst(v[0], w[0], fields[0], table, xs, ys);
      }
    }
  }

  lemma SameSymmetric(v: Value, w: Value, kind: Kind, table: Collation)
    requires ValidCollation(table)
    ensures ValueSame(v, w, kind, table) == ValueSame(w, v, kind, table)
  {
  }

  lemma SameCons(v: seq<Value>, w: seq<Value>, fields: seq<Field>, table: Collation)
    requires ValidCollation(table) && |v| == |w| == |fields| > 0
    ensures TupleSame(v, w, fields, table)
            <==> ValueSame(v[0], w[0], fields[0].kind, table) && TupleSame(v[1..], w[1..], fields[1..], table)
  {
    if ValueSame(v[0], w[0], fields[0].kind, table) && TupleSame(v[1..], w[1..], fields[1..], table) {
      forall i | 0 <= i < |fields| ensures ValueSame(v[i], w[i], fields[i].kind, table) {
        if i > 0 {
          assert ValueSame(v[1..][i - 1], w[1..][i - 1], fields[1..][i - 1].kind, table);
        }
      }
    }
    if TupleSame(v, w, fields, table) {
      forall i | 0 <= i < |fields[1..]| ensures ValueSame(v[1..][i], w[1..][i], fields[1..][i].kind, table) {
        assert ValueSame(v[i + 1], w[i + 1], fields[i + 1].kind, table);
      }
    }
  }

  lemma DecidedByFirst(v: Value, w: Value, field: Field, table: Collation, xs: seq<byte>, ys: seq<byte>)
    requires ValidCollation(table)
    requires Component(v, field, table).Accepted? && Component(w, field, table).Accepted?
    ensures var x, y := Component(v, field, table).value, Component(w, field, table).value;
            && (ValueLess(v, w, field.kind, table) ==>
                  if field.descending then Below(y + ys, x + xs) else Below(x + xs, y + ys))
            && (ValueLess(w, v, field.kind, table) ==>
                  if field.descending then Below(x + xs, y + ys) else Below(y + ys, x + xs))
  {
    var x, y := Component(v, field, table).value, Component(w, field, table).value;
    if ValueLess(v, w, field.kind, table) {
      ComponentOrder(v, w, field, table);
      if field.descending {
        BelowExtends(y, x, ys, xs);
      } else {
        BelowExtends(x, y, xs, ys);
      }
    }
    if ValueLess(w, v, field.kind, table) {
      ComponentOrder(w, v, field, table);
      if field.descending {
        BelowExtends(x, y, xs, ys);
      } else {
        BelowExtends(y, x, ys, xs);
      }
    }
  }

  /**
   * Index entries are keys followed by row locators. Keys agree exactly when the tuples do; otherwise
   * the entries compare like the tuples whatever the locators are, and neither key is a prefix of the other.
   */
  lemma EntryOrder(v: seq<Value>, w: seq<Value>, fields: seq<Field>, table: Collation, x: seq<byte>, y: seq<byte>)
    requires ValidCollation(table) && |v| == |w| == |fields|
    requires Key(v, fields, table).Accepted? && Key(w, fields, table).Accepted?
    ensures var k, l := Key(v, fields, table).value, Key(w, fields, table).value;
            && (k == l <==> TupleSame(v, w, fields, table))
            && (Less(k + x, l + y) <==>
                  TupleLess(v, w, fields, table) || (TupleSame(v, w, fields, table) && Less(x, y)))
            && (k != l ==> !(k <= l) && !(l <= k))
  {
    var k, l := Key(v, fields, table).value, Key(w, fields, table).value;
    CompositeOrder(v, w, fields, table);
    if TupleLess(v, w, fields, table) {
      BelowIsLess(k, l);
      BelowIsNotPrefix(k, l);
      BelowExtends(k, l, x, y);
      if TupleLess(w, v, fields, table) {
        BelowIsLess(l, k);
      }
    } else if TupleLess(w, v, fields, table) {
      BelowIsLess(l, k);
      BelowIsNotPrefix(l, k);
      BelowExtends(l, k, y, x);
      LessAsymmetric(l + y, k + x);
    } else {
      LessUnderPrefix(k, x, y);
    }
  }

  lemma {:induction false} LessUnderPrefix(p: seq<byte>, x: seq<byte>, y: seq<byte>)
    ensures Less(p + x, p + y) <==> Less(x, y)
  {
    if p == [] {
      assert p + x == x && p + y == y;
    } else {
      LessUnderPrefix(p[1..], x, y);
      assert (p + x)[1..] == p[1..] + x && (p + y)[1..] == p[1..] + y;
    }
  }
}
