/**
 * Key shortening (`shorten` in oracle/windows-dao/keys.py): keys over 255 bytes keep 253 bytes and a
 * 16-bit cyclic redundancy code of the rest. The code register is modelled as its sixteen bits, least
 * significant first, so that exclusive or is pointwise.
 */
module KeyShortening {
  import opened Bytes

  type Register = r: seq<bool> | |r| == 16 witness seq(16, i => false)

  function Zero(): (r: Register) {
    seq(16, i => false)
  }

  function Xor(a: Register, b: Register): (r: Register) {
    seq(16, i requires 0 <= i < 16 => a[i] != b[i])
  }

  /** The bits of the feedback 0x8005. */
  predicate Feedback(i: int) {
    i == 0 || i == 2 || i == 15
  }

  /** One left shift; a lost top bit feeds back. */
  function Shift(state: Register): (r: Register) {
    seq(16, i requires 0 <= i < 16 => (i > 0 && state[i - 1]) != (state[15] && Feedback(i)))
  }

  function Shifts(state: Register, n: nat): (r: Register) {
    if n == 0 then state else Shift(Shifts(state, n - 1))
  }

  function ToRegister(b: byte): (r: Register) {
    seq(16, i requires 0 <= i < 16 => i < 8 && Bit(b, i))
  }

  /** The code of `tail`, one byte at a time: eight shifts, then the byte. */
  function Code(tail: seq<byte>): (r: Register) {
    if tail == [] then Zero() else Xor(Shifts(Code(tail[..|tail| - 1]), 8), ToRegister(tail[|tail| - 1]))
  }

  /** The number with the given bits, least significant first. */
  function FromBits(bits: seq<bool>): (n: nat)
    ensures n < Pow2(|bits|)
  {
    if bits == [] then 0 else (if bits[0] then 1 else 0) + 2 * FromBits(bits[1..])
  }

  /** The register as a two-byte little-endian word. */
  function LittleEndian(w: Register): (r: seq<byte>)
    ensures |r| == 2
  {
    assert Pow2(8) == 2 * 2 * 2 * 2 * Pow2(4);
    [FromBits(w[..8]), FromBits(w[8..])]
  }

  function Shortened(key: seq<byte>): (r: seq<byte>) {
    if |key| > 255 then key[..253] + LittleEndian(Code(key[253..])) else key
  }

  method Shorten(key: seq<byte>) returns (r: seq<byte>)
    ensures r == Shortened(key)
  {
    r := key;
    if |key| > 255 {
      var tail := key[253..];
      var state := Zero();
      var i := 0;
      while i < |tail|
        invariant 0 <= i <= |tail|
        invariant state == Code(tail[..i])
      {
        ghost var start := state;
        for n := 0 to 8
          invariant state == Shifts(start, n)
        {
          state := Shift(state);
        }
        state := Xor(state, ToRegister(tail[i]));
        assert tail[..i + 1][..i] == tail[..i];
        i := i + 1;
      }
      assert tail[..i] == tail;
      r := key[..253] + LittleEndian(state);
    }
  }

  // ----- Bits determine bytes and registers -----

  lemma {:induction false} BitOfFromBits(bits: seq<bool>, i: nat)
    requires i < |bits|
    ensures Bit(FromBits(bits), i) == bits[i]
  {
    assert FromBits(bits) / 2 == FromBits(bits[1..]);
    if i > 0 {
      BitOfFromBits(bits[1..], i - 1);
    }
  }

  lemma LittleEndianInjective(v: Register, w: Register)
    requires LittleEndian(v) == LittleEndian(w)
    ensures v == w
  {
    forall i | 0 <= i < 16 ensures v[i] == w[i] {
      if i < 8 {
        BitOfFromBits(v[..8], i);
        BitOfFromBits(w[..8], i);
      } else {
        BitOfFromBits(v[8..], i - 8);
        BitOfFromBits(w[8..], i - 8);
      }
    }
  }

  lemma ToRegisterInjective(a: byte, b: byte)
    requires ToRegister(a) == ToRegister(b)
    ensures a == b
  {
    forall i: nat | i < 8 ensures Bit(a, i) == Bit(b, i) {
      assert ToRegister(a)[i] == ToRegister(b)[i];
    }
    assert Pow2(8) == 2 * 2 * 2 * 2 * Pow2(4);
    BitsDetermine(a, b, 8);
  }

  // ----- The register is linear and every shift is invertible -----

  lemma {:induction false} ShiftsLinear(a: Register, b: Register, n: nat)
    ensures Shifts(Xor(a, b), n) == Xor(Shifts(a, n), Shifts(b, n))
  {
    if n > 0 {
      ShiftsLinear(a, b, n - 1);
    }
  }

  /** The feedback is odd, so the low bit of a shifted register says whether feedback was applied. */
  lemma {:induction false} ShiftsInjective(a: Register, b: Register, n: nat)
    requires Shifts(a, n) == Shifts(b, n)
    ensures a == b
  {
    if n > 0 {
      var x, y := Shifts(a, n - 1), Shifts(b, n - 1);
      assert Shift(x)[0] == x[15] && Shift(y)[0] == y[15];
      forall i | 0 <= i < 15 ensures x[i] == y[i] {
        assert Shift(x)[i + 1] == Shift(y)[i + 1];
      }
      assert x == y;
      ShiftsInjective(a, b, n - 1);
    }
  }

  /** Shifting clear top bits out only moves the others up. */
  lemma {:induction false} PlainShifts(w: Register, n: nat)
    requires n <= 16 && forall i :: 16 - n <= i < 16 ==> !w[i]
    ensures forall i :: 0 <= i < 16 ==> Shifts(w, n)[i] == (i >= n && w[i - n])
  {
    if n > 0 {
      PlainShifts(w, n - 1);
    }
  }

  // ----- Discrimination -----

  /** Two codes with the same last byte agree exactly when the codes before it agree. */
  lemma SameLastByte(u: seq<byte>, v: seq<byte>)
    requires u != [] && v != [] && u[|u| - 1] == v[|v| - 1]
    ensures Code(u) == Code(v) <==> Code(u[..|u| - 1]) == Code(v[..|v| - 1])
  {
    hide Shifts, Xor, ToRegister;
    var before, after := Code(u[..|u| - 1]), Code(v[..|v| - 1]);
    XorRight(Shifts(before, 8), Shifts(after, 8), ToRegister(u[|u| - 1]));
    if Code(u) == Code(v) {
      ShiftsInjective(before, after, 8);
    }
  }

  lemma XorRight(x: Register, y: Register, last: Register)
    ensures Xor(x, last) == Xor(y, last) <==> x == y
  {
    if Xor(x, last) == Xor(y, last) {
      forall i | 0 <= i < 16 ensures x[i] == y[i] {
        assert Xor(x, last)[i] == Xor(y, last)[i];
      }
      assert x == y;
    }
  }

  /** How a difference before a byte and a difference in it combine. */
  lemma CodeDifference(p: seq<byte>, q: seq<byte>, a: byte, b: byte, d: Register, e: Register)
    requires Code(q) == Xor(Code(p), d) && ToRegister(b) == Xor(ToRegister(a), e)
    ensures Code(q + [b]) == Xor(Code(p + [a]), Xor(Shifts(d, 8), e))
  {
    assert (p + [a])[..|p|] == p && (q + [b])[..|q|] == q;
    ShiftsLinear(Code(p), d, 8);
    XorExchange(Shifts(Code(p), 8), Shifts(d, 8), ToRegister(a), e);
  }

  lemma XorExchange(a: Register, b: Register, c: Register, d: Register)
    ensures Xor(Xor(a, b), Xor(c, d)) == Xor(Xor(a, c), Xor(b, d))
  {
  }

  lemma XorCancels(a: Register, b: Register)
    ensures Xor(a, Xor(a, b)) == b
    ensures Xor(a, b) == a <==> b == Zero()
    ensures Xor(a, b) == Zero() <==> a == b
  {
    if Xor(a, b) == a || Xor(a, b) == Zero() {
      forall i | 0 <= i < 16 ensures Xor(a, b)[i] == (a[i] != b[i]) {
      }
      assert Xor(a, b) == a ==> b == Zero();
      assert Xor(a, b) == Zero() ==> a == b;
    }
  }

  /** Two final bytes can be read back from the code: eight shifts put the first clear of the second. */
  lemma LastTwoBytes(p: seq<byte>, a: byte, b: byte, c: byte, d: byte)
    requires Code(p + [a] + [b]) == Code(p + [c] + [d])
    ensures a == c && b == d
  {
    hide Xor, Shifts, ToRegister, Code;
    var x, y := Xor(ToRegister(a), ToRegister(c)), Xor(ToRegister(b), ToRegister(d));
    XorCancels(Code(p), Zero());
    XorCancels(ToRegister(a), ToRegister(c));
    XorCancels(ToRegister(b), ToRegister(d));
    CodeDifference(p, p, a, c, Zero(), x);
    ZeroShiftsAway(x);
    CodeDifference(p + [a], p + [c], b, d, x, y);
    XorCancels(Code(p + [a] + [b]), Xor(Shifts(x, 8), y));
    HighBitsClear(a, c);
    HighBitsClear(b, d);
    PlainShifts(x, 8);
    SplitZero(x, y);
    ToRegisterInjective(a, c);
    ToRegisterInjective(b, d);
  }

  lemma ZeroShiftsAway(x: Register)
    ensures Xor(Shifts(Zero(), 8), x) == x
  {
    hide Shifts;
    PlainShifts(Zero(), 8);
  }

  lemma HighBitsClear(a: byte, c: byte)
    ensures forall i :: 8 <= i < 16 ==> !Xor(ToRegister(a), ToRegister(c))[i]
  {
  }

  lemma SplitZero(x: Register, y: Register)
    requires forall i :: 8 <= i < 16 ==> !x[i] && !y[i]
    requires forall i :: 0 <= i < 16 ==> Shifts(x, 8)[i] == (i >= 8 && x[i - 8])
    requires Xor(Shifts(x, 8), y) == Zero()
    ensures x == Zero() && y == Zero()
  {
    forall i | 0 <= i < 16 ensures !x[i] && !y[i] {
      assert !Xor(Shifts(x, 8), y)[i];
      if i < 8 {
        assert !Xor(Shifts(x, 8), y)[i + 8];
      }
    }
  }

  /** Sequences that differ at most in positions `i` and `i + 1`. */
  predicate DifferWithin(u: seq<byte>, v: seq<byte>, i: int) {
    |u| == |v| && forall j :: 0 <= j < |u| && j != i && j != i + 1 ==> u[j] == v[j]
  }

  lemma {:induction false} AdjacentCodes(u: seq<byte>, v: seq<byte>, i: int)
    requires DifferWithin(u, v, i) && Code(u) == Code(v)
    ensures u == v
    decreases |u|
  {
    var n := |u|;
    if n == 1 {
      assert u == [u[0]] && v == [v[0]];
      SingleByteCode(u[0], v[0]);
    } else if n > 1 {
      if u[n - 1] == v[n - 1] {
        SameLastByte(u, v);
        AdjacentCodes(u[..n - 1], v[..n - 1], i);
        assert u == u[..n - 1] + [u[n - 1]] && v == v[..n - 1] + [v[n - 1]];
      } else {
        var p := u[..n - 2];
        assert p == v[..n - 2];
        assert u == p + [u[n - 2]] + [u[n - 1]] && v == p + [v[n - 2]] + [v[n - 1]];
        LastTwoBytes(p, u[n - 2], u[n - 1], v[n - 2], v[n - 1]);
      }
    }
  }

  lemma SingleByteCode(a: byte, b: byte)
    requires Code([a]) == Code([b])
    ensures a == b
  {
    var start := Shifts(Code([]), 8);
    assert [a][..0] == [] && [b][..0] == [];
    forall i | 0 <= i < 16 ensures ToRegister(a)[i] == ToRegister(b)[i] {
      assert Xor(start, ToRegister(a))[i] == Xor(start, ToRegister(b))[i];
    }
    ToRegisterInjective(a, b);
  }

  /** Shortened keys have at most 255 bytes, and keys that fit are kept. */
  lemma ShortenedBound(key: seq<byte>)
    ensures |Shortened(key)| <= 255
    ensures |key| <= 255 <==> Shortened(key) == key
    ensures |key| > 255 ==> |Shortened(key)| == 255 && Shortened(key)[..253] == key[..253]
  {
  }

  lemma NearKeysReadBack(k: seq<byte>, l: seq<byte>, i: int)
    requires DifferWithin(k, l, i) && Shortened(k) == Shortened(l)
    ensures k == l
  {
    if |k| > 255 {
      assert Shortened(k)[..253] == k[..253] && Shortened(l)[..253] == l[..253];
      var u, v := k[253..], l[253..];
      assert k == k[..253] + u && l == l[..253] + v;
      assert Shortened(k)[253..] == LittleEndian(Code(u)) && Shortened(l)[253..] == LittleEndian(Code(v));
      LittleEndianInjective(Code(u), Code(v));
      AdjacentCodes(u, v, i - 253);
    }
  }

  /** Different equally long keys whose differences lie in two adjacent bytes never shorten alike. */
  lemma ShorteningDiscriminates(k: seq<byte>, l: seq<byte>, i: int)
    requires DifferWithin(k, l, i) && k != l
    ensures Shortened(k) != Shortened(l)
  {
    if Shortened(k) == Shortened(l) {
      NearKeysReadBack(k, l, i);
    }
  }

  // ----- Three adjacent bytes are one too many -----

  function Flip(b: byte, k: nat): (r: byte)
    requires k < 8
  {
    PutByteBit(b, k, !Bit(b, k))
  }

  /** `tail` with the pattern 01 80 05 exclusive-ored into its last three bytes. */
  function Disturbed(tail: seq<byte>): (r: seq<byte>)
    requires |tail| >= 3
  {
    var n := |tail|;
    tail[..n - 3] + [Flip(tail[n - 3], 0)] + [Flip(tail[n - 2], 7)] + [Flip(Flip(tail[n - 1], 0), 2)]
  }

  lemma FlipIsXor(b: byte, k: nat, pattern: Register)
    requires k < 8 && forall i :: 0 <= i < 16 ==> pattern[i] == (i == k)
    ensures ToRegister(Flip(b, k)) == Xor(ToRegister(b), pattern)
  {
  }

  function Only(k: nat): (r: Register) {
    seq(16, i => i == k)
  }

  /** The disturbance x^16 + x^15 + x^2 + 1 is the feedback polynomial itself, so the code cannot see it. */
  lemma DisturbanceUnseen(tail: seq<byte>)
    requires |tail| >= 3
    ensures Code(Disturbed(tail)) == Code(tail)
    ensures Disturbed(tail) != tail
  {
    var n := |tail|;
    ThreeFlips(tail[..n - 3], tail[n - 3], tail[n - 2], tail[n - 1]);
    LastThree(tail);
    FlipChanges(tail[n - 3], 0);
  }

  lemma LastThree(tail: seq<byte>)
    requires |tail| >= 3
    ensures var n := |tail|; tail == tail[..n - 3] + [tail[n - 3]] + [tail[n - 2]] + [tail[n - 1]]
    ensures Disturbed(tail)[|tail| - 3] == Flip(tail[|tail| - 3], 0)
  {
  }

  lemma FlipChanges(b: byte, k: nat)
    requires k < 8
    ensures Flip(b, k) != b
  {
    assert Bit(Flip(b, k), k) != Bit(b, k);
  }

  lemma ThreeFlips(p: seq<byte>, a: byte, b: byte, c: byte)
    ensures Code(p + [Flip(a, 0)] + [Flip(b, 7)] + [Flip(Flip(c, 0), 2)]) == Code(p + [a] + [b] + [c])
  {
    var twin, low := Xor(Only(8), Only(7)), Xor(Only(0), Only(2));
    TwoFlips(p, a, b);
    FlipTwice(c);
    CodeDifference(p + [a] + [b], p + [Flip(a, 0)] + [Flip(b, 7)], c, Flip(Flip(c, 0), 2), twin, low);
    TwinFeedsBack(twin);
    XorCancels(low, low);
    XorCancels(Code(p + [a] + [b] + [c]), Zero());
  }

  lemma TwoFlips(p: seq<byte>, a: byte, b: byte)
    ensures Code(p + [Flip(a, 0)] + [Flip(b, 7)]) == Xor(Code(p + [a] + [b]), Xor(Only(8), Only(7)))
  {
    FlipIsXor(a, 0, Only(0));
    XorCancels(Code(p), Zero());
    CodeDifference(p, p, a, Flip(a, 0), Zero(), Only(0));
    PlainShifts(Zero(), 8);
    assert Xor(Shifts(Zero(), 8), Only(0)) == Only(0);
    FlipIsXor(b, 7, Only(7));
    CodeDifference(p + [a], p + [Flip(a, 0)], b, Flip(b, 7), Only(0), Only(7));
    PlainShifts(Only(0), 8);
    assert Shifts(Only(0), 8) == Only(8);
  }

  lemma FlipTwice(c: byte)
    ensures ToRegister(Flip(Flip(c, 0), 2)) == Xor(ToRegister(c), Xor(Only(0), Only(2)))
  {
    FlipIsXor(c, 0, Only(0));
    FlipIsXor(Flip(c, 0), 2, Only(2));
  }

  lemma TwinFeedsBack(twin: Register)
    requires twin == Xor(Only(8), Only(7))
    ensures Shifts(twin, 8) == Xor(Only(0), Only(2))
  {
    PlainShifts(twin, 7);
    var w := Shifts(twin, 7);
    assert w == Xor(Only(15), Only(14));
    assert Shifts(twin, 8) == Shift(w);
    forall i | 0 <= i < 16 ensures Shift(w)[i] == Xor(Only(0), Only(2))[i] {
    }
  }

  lemma {:induction false} CodeSuffix(u: seq<byte>, v: seq<byte>, rest: seq<byte>)
    requires Code(u) == Code(v)
    ensures Code(u + rest) == Code(v + rest)
  {
    if rest == [] {
      assert u + rest == u && v + rest == v;
    } else {
      var m := |rest| - 1;
      hide Code;
      CodeSuffix(u, v, rest[..m]);
      assert (u + rest)[..|u + rest| - 1] == u + rest[..m] && (v + rest)[..|v + rest| - 1] == v + rest[..m];
      SameLastByte(u + rest, v + rest);
    }
  }

  /** Two bytes is the exact limit: every long key has a partner three adjacent bytes away that shortens alike. */
  lemma ThreeBytesCollide(key: seq<byte>, i: nat)
    requires 253 <= i && i + 3 <= |key|
    ensures var other := key[..253] + Disturbed(key[253..i + 3]) + key[i + 3..];
            && |other| == |key| && other != key
            && (forall j :: 0 <= j < |key| && !(i <= j < i + 3) ==> other[j] == key[j])
            && Shortened(other) == Shortened(key)
  {
    var middle, rest := key[253..i + 3], key[i + 3..];
    var other := key[..253] + Disturbed(middle) + rest;
    DisturbanceUnseen(middle);
    CodeSuffix(Disturbed(middle), middle, rest);
    assert other[253..] == Disturbed(middle) + rest && key[253..] == middle + rest;
    assert other[..253] == key[..253];
    assert other[253..i + 3] == Disturbed(middle);
  }
}
