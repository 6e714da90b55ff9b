/** Bytes, fixed-width integers and the bytewise order used by every Jet 3 structure. */
module Bytes {
  type byte = b: int | 0 <= b < 256

  /** The outcome of a strict decoder: every unmet `require` (and every index error) is a rejection. */
  datatype Result<+T> = Rejected | Accepted(value: T) {
    predicate IsFailure() { Rejected? }
    function PropagateFailure<U>(): (r: Result<U>)
      requires Rejected?
    {
      Rejected
    }
    function Extract(): (t: T)
      requires Accepted?
    {
      value
    }
  }

  // ----- Little- and big-endian integers -----

  function U16(data: seq<byte>, offset: nat): (n: nat)
    requires offset + 2 <= |data|
  {
    data[offset] as int + 0x100 * data[offset + 1] as int
  }

  function U32(data: seq<byte>, offset: nat): (n: nat)
    requires offset + 4 <= |data|
  {
    U16(data, offset) + 0x1_0000 * U16(data, offset + 2)
  }

  function Pow256(k: nat): (p: nat)
    ensures p > 0
  {
    if k == 0 then 1 else 256 * Pow256(k - 1)
  }

  /** The `k`-byte big-endian spelling of `n` (modulo 256^k). */
  function BigEndian(n: nat, k: nat): (s: seq<byte>)
    ensures |s| == k
  {
    if k == 0 then [] else BigEndian(n / 256, k - 1) + [n % 256]
  }

  function FromBigEndian(s: seq<byte>): (n: nat)
  {
    if s == [] then 0 else 256 * FromBigEndian(s[..|s| - 1]) + s[|s| - 1]
  }

  lemma {:induction false} BigEndianRoundTrip(n: nat, k: nat)
    requires n < Pow256(k)
    ensures FromBigEndian(BigEndian(n, k)) == n
  {
    if k > 0 {
      BigEndianRoundTrip(n / 256, k - 1);
      var s := BigEndian(n, k);
      assert s[..|s| - 1] == BigEndian(n / 256, k - 1);
    }
  }

  // ----- Bytewise order -----

  /** Python and Rust slice order: the first difference decides and a proper prefix is smaller. */
  predicate Less(a: seq<byte>, b: seq<byte>) {
    b != [] && (a == [] || a[0] < b[0] || (a[0] == b[0] && Less(a[1..], b[1..])))
  }

  predicate AtMost(a: seq<byte>, b: seq<byte>) {
    a == b || Less(a, b)
  }

  /** `a` and `b` first differ at a position both have, where `a` is smaller. */
  predicate Below(a: seq<byte>, b: seq<byte>) {
    a != [] && b != [] && (a[0] < b[0] || (a[0] == b[0] && Below(a[1..], b[1..])))
  }

  lemma {:induction false} LessIrreflexive(a: seq<byte>)
    ensures !Less(a, a)
  {
    if a != [] {
      LessIrreflexive(a[1..]);
    }
  }

  lemma {:induction false} LessTransitive(a: seq<byte>, b: seq<byte>, c: seq<byte>)
    requires Less(a, b) && Less(b, c)
    ensures Less(a, c)
  {
    if a != [] && a[0] == b[0] == c[0] {
      LessTransitive(a[1..], b[1..], c[1..]);
    }
  }

  lemma {:induction false} LessTotal(a: seq<byte>, b: seq<byte>)
    ensures Less(a, b) || a == b || Less(b, a)
  {
    if a != [] && b != [] && a[0] == b[0] {
      LessTotal(a[1..], b[1..]);
      assert a == [a[0]] + a[1..] && b == [b[0]] + b[1..];
    }
  }

  lemma LessAsymmetric(a: seq<byte>, b: seq<byte>)
    requires Less(a, b)
    ensures !Less(b, a) && a != b
  {
    LessIrreflexive(a);
    if Less(b, a) {
      LessTransitive(a, b, a);
    }
  }

  lemma AtMostTransitive(a: seq<byte>, b: seq<byte>, c: seq<byte>)
    requires AtMost(a, b) && AtMost(b, c)
    ensures AtMost(a, c)
    ensures Less(a, b) || Less(b, c) ==> Less(a, c)
  {
    if Less(a, b) && Less(b, c) {
      LessTransitive(a, b, c);
    }
  }

  /** A decided comparison survives any continuation, so it is also a strict order. */
  lemma {:induction false} BelowExtends(a: seq<byte>, b: seq<byte>, x: seq<byte>, y: seq<byte>)
    requires Below(a, b)
    ensures Below(a + x, b + y)
    ensures Less(a + x, b + y)
  {
    assert (a + x)[1..] == a[1..] + x && (b + y)[1..] == b[1..] + y;
    if a[0] == b[0] {
      BelowExtends(a[1..], b[1..], x, y);
    }
  }

  lemma {:induction false} BelowUnderPrefix(p: seq<byte>, a: seq<byte>, b: seq<byte>)
    requires Below(a, b)
    ensures Below(p + a, p + b)
  {
    if p == [] {
      assert p + a == a && p + b == b;
    } else {
      BelowUnderPrefix(p[1..], a, b);
      assert (p + a)[1..] == p[1..] + a && (p + b)[1..] == p[1..] + b;
    }
  }

  lemma {:induction false} BelowIsNotPrefix(a: seq<byte>, b: seq<byte>)
    requires Below(a, b)
    ensures !(a <= b) && !(b <= a)
  {
    if a[0] == b[0] {
      BelowIsNotPrefix(a[1..], b[1..]);
    }
  }

  lemma {:induction false} BelowTransitive(a: seq<byte>, b: seq<byte>, c: seq<byte>)
    requires Below(a, b) && Below(b, c)
    ensures Below(a, c)
  {
    if a[0] == b[0] == c[0] {
      BelowTransitive(a[1..], b[1..], c[1..]);
    }
  }

  lemma BelowIsLess(a: seq<byte>, b: seq<byte>)
    requires Below(a, b)
    ensures Less(a, b) && !Less(b, a) && a != b
  {
    BelowExtends(a, b, [], []);
    assert a + [] == a && b + [] == b;
    LessAsymmetric(a, b);
  }

  /** Less is either decided at a shared position or a proper prefix. */
  lemma {:induction false} LessCases(a: seq<byte>, b: seq<byte>)
    requires Less(a, b)
    ensures Below(a, b) || a < b
  {
    if a != [] && a[0] == b[0] {
      LessCases(a[1..], b[1..]);
      if a[1..] < b[1..] {
        assert a == [a[0]] + a[1..] && b == [b[0]] + b[1..];
      }
    }
  }

  /** Big-endian spellings of one width are ordered like the numbers. */
  lemma {:induction false} BigEndianOrder(m: nat, n: nat, k: nat)
    requires m < n < Pow256(k)
    ensures Below(BigEndian(m, k), BigEndian(n, k))
  {
    var hm, hn := BigEndian(m / 256, k - 1), BigEndian(n / 256, k - 1);
    if m / 256 < n / 256 {
      BigEndianOrder(m / 256, n / 256, k - 1);
      BelowExtends(hm, hn, [m % 256], [n % 256]);
    } else {
      BelowUnderPrefix(hm, [m % 256], [n % 256]);
    }
  }

  // ----- Complement: XOR with 255, used by descending keys -----

  function Complement(s: seq<byte>): (r: seq<byte>)
    ensures |r| == |s|
    ensures forall i :: 0 <= i < |s| ==> r[i] == 255 - s[i]
  {
    seq(|s|, i requires 0 <= i < |s| => 255 - s[i])
  }

  lemma ComplementConcat(a: seq<byte>, b: seq<byte>)
    ensures Complement(a + b) == Complement(a) + Complement(b)
  {
  }

  lemma {:induction false} ComplementReverses(a: seq<byte>, b: seq<byte>)
    requires Below(a, b)
    ensures Below(Complement(b), Complement(a))
  {
    assert Complement(a)[1..] == Complement(a[1..]) && Complement(b)[1..] == Complement(b[1..]);
    if a[0] == b[0] {
      ComplementReverses(a[1..], b[1..]);
    }
  }

  // ----- Sequences -----

  ghost predicate NoRepeats<T>(s: seq<T>) {
    forall i, j :: 0 <= i < j < |s| ==> s[i] != s[j]
  }

  lemma NoRepeatsSnoc<T>(rest: seq<T>, last: T)
    ensures NoRepeats(rest + [last]) <==> NoRepeats(rest) && last !in rest
  {
    var s := rest + [last];
    assert s[|rest|] == last && forall i :: 0 <= i < |rest| ==> s[i] == rest[i];
    if NoRepeats(s) {
      assert forall i, j :: 0 <= i < j < |rest| ==> s[i] != s[j];
    }
  }

  function Elements<T(==)>(s: seq<T>): (r: set<T>) {
    set x | x in s
  }

  /** A list has as many elements as places exactly when none repeats. */
  lemma {:induction false} ElementsSize<T>(s: seq<T>)
    ensures |Elements(s)| <= |s|
    ensures |Elements(s)| == |s| <==> NoRepeats(s)
  {
    if s == [] {
      assert Elements(s) == {};
    } else {
      var n := |s| - 1;
      var rest, last := s[..n], s[n];
      ElementsSize(rest);
      assert s == rest + [last];
      assert Elements(s) == Elements(rest) + {last};
      assert last in Elements(rest) <==> last in rest;
      NoRepeatsSnoc(rest, last);
    }
  }

  // ----- Concatenation -----

  function Concat(parts: seq<seq<byte>>): (r: seq<byte>) {
    if parts == [] then [] else Concat(parts[..|parts| - 1]) + parts[|parts| - 1]
  }

  lemma {:induction false} ConcatPrefix(parts: seq<seq<byte>>, i: nat)
    requires i < |parts|
    ensures |Concat(parts[..i])| + |parts[i]| == |Concat(parts[..i + 1])| <= |Concat(parts)|
    ensures Concat(parts)[|Concat(parts[..i])|..|Concat(parts[..i + 1])|] == parts[i]
  {
    assert parts[..i + 1][..i] == parts[..i];
    if i + 1 < |parts| {
      var shorter := parts[..|parts| - 1];
      ConcatPrefix(shorter, i);
      assert shorter[..i] == parts[..i] && shorter[..i + 1] == parts[..i + 1];
    } else {
      assert parts[..i + 1] == parts;
    }
  }

  lemma ConcatNothing(parts: seq<seq<byte>>)
    ensures parts[..0] == [] && Concat(parts[..0]) == []
  {
  }

  // ----- Bits of one byte -----

  /** `n & (1 << k) != 0`. */
  predicate Bit(n: nat, k: nat) {
    if k == 0 then n % 2 == 1 else Bit(n / 2, k - 1)
  }

  /** A quotient and a remainder in range are the only ones. */
  lemma DividedBy(n: int, p: int, q: int, rest: int)
    requires 0 <= rest < p && n == p * q + rest
    ensures n / p == q && n % p == rest
  {
    var d, e := n / p, n % p;
    Distributes(p, q, d);
    SmallMultiple(p, q - d, e - rest);
  }

  lemma Distributes(p: int, q: int, d: int)
    ensures p * (q - d) == p * q - p * d
  {
  }

  lemma SmallMultiple(p: int, k: int, x: int)
    requires p * k == x && -p < x < p
    ensures k == 0 && x == 0
  {
  }

  /** Bits are counted from the least significant one. */
  lemma {:induction false} BitValue(n: nat, k: nat)
    requires k < 8
    ensures Bit(n, k) <==> n / [1, 2, 4, 8, 16, 32, 64, 128][k] % 2 == 1
  {
    if k > 0 {
      BitValue(n / 2, k - 1);
    }
  }

  lemma {:induction false} ZeroHasNoBits(k: nat)
    ensures !Bit(0, k)
  {
    if k > 0 {
      ZeroHasNoBits(k - 1);
    }
  }

  /** `n | (1 << k)` or, when `on` is false, `n & ~(1 << k)`. */
  function PutBit(n: nat, k: nat, on: bool): (r: nat)
    ensures forall j: nat :: Bit(r, j) == if j == k then on else Bit(n, j)
  {
    if k == 0 then
      n - n % 2 + (if on then 1 else 0)
    else
      2 * PutBit(n / 2, k - 1, on) + n % 2
  }

  function PutByteBit(b: byte, k: nat, on: bool): (r: byte)
    requires k < 8
    ensures forall j: nat :: Bit(r, j) == if j == k then on else Bit(b, j)
  {
    PutBitBound(b, k, on, 8);
    PutBit(b, k, on)
  }

  function Pow2(k: nat): (p: nat)
    ensures p > 0
  {
    if k == 0 then 1 else 2 * Pow2(k - 1)
  }

  lemma Pow2Of8()
    ensures Pow2(8) == 256
  {
    assert Pow2(4) == 2 * 2 * Pow2(2);
    assert Pow2(8) == 2 * 2 * 2 * 2 * Pow2(4);
  }

  lemma {:induction false} PutBitBound(n: nat, k: nat, on: bool, width: nat)
    requires k < width && n < Pow2(width)
    ensures PutBit(n, k, on) < Pow2(width)
    ensures Pow2(8) == 256
  {
    Pow2Of8();
    if k > 0 {
      PutBitBound(n / 2, k - 1, on, width - 1);
    }
  }

  lemma {:induction false} BitsDetermine(a: nat, b: nat, width: nat)
    requires a < Pow2(width) && b < Pow2(width)
    requires forall i: nat | i < width :: Bit(a, i) == Bit(b, i)
    ensures a == b
  {
    if width > 0 {
      forall i: nat | i < width - 1 ensures Bit(a / 2, i) == Bit(b / 2, i) {
        assert Bit(a, i + 1) == Bit(b, i + 1);
      }
      BitsDetermine(a / 2, b / 2, width - 1);
      assert Bit(a, 0) == Bit(b, 0);
    }
  }
}
