/**
 * The code that ends a shortened key (`shorten` in oracle/windows-dao/keys.py) as arithmetic on one 16-bit number:
 * eight times shift left and, for a lost top bit, exclusive or with 0x8005; then exclusive or with the byte.
 */
module KeyCodes {
  import opened Bytes
  import opened KeyShortening

  // ----- The number -----

  /** Exclusive or, bit by bit from the lowest. */
  function XorNumber(a: nat, b: nat): (n: nat)
    decreases a + b
  {
    if a == 0 && b == 0 then 0 else (if a % 2 != b % 2 then 1 else 0) + 2 * XorNumber(a / 2, b / 2)
  }

  function ShiftNumber(n: nat): (r: nat) {
    XorNumber(2 * n % 0x1_0000, if n >= 0x8000 then 0x8005 else 0)
  }

  function ShiftTimes(n: nat, k: nat): (r: nat) {
    if k == 0 then n else ShiftNumber(ShiftTimes(n, k - 1))
  }

  function CodeNumber(tail: seq<byte>): (n: nat) {
    if tail == [] then 0 else XorNumber(ShiftTimes(CodeNumber(tail[..|tail| - 1]), 8), tail[|tail| - 1])
  }

  // ----- Number and register -----

  /** The register holds the bits of the number. */
  ghost predicate Holds(r: Register, n: nat) {
    n < 0x1_0000 && forall i: nat :: i < 16 ==> (r[i] <==> Bit(n, i))
  }

  lemma {:induction false} XorBit(a: nat, b: nat, i: nat)
    ensures Bit(XorNumber(a, b), i) <==> Bit(a, i) != Bit(b, i)
    decreases a + b
  {
    if a == 0 && b == 0 {
      ZeroHasNoBits(i);
    } else if i > 0 {
      assert XorNumber(a, b) / 2 == XorNumber(a / 2, b / 2);
      XorBit(a / 2, b / 2, i - 1);
    }
  }

  lemma {:induction false} XorBound(a: nat, b: nat, width: nat)
    requires a < Pow2(width) && b < Pow2(width)
    ensures XorNumber(a, b) < Pow2(width)
    decreases a + b
  {
    if a != 0 || b != 0 {
      XorBound(a / 2, b / 2, width - 1);
    }
  }

  lemma {:induction false} LowBits(n: nat, width: nat, i: nat)
    ensures Bit(n % Pow2(width), i) <==> i < width && Bit(n, i)
  {
    if width == 0 {
      ZeroHasNoBits(i);
    } else {
      HalfOfRemainder(n, Pow2(width - 1));
      if i > 0 {
        LowBits(n / 2, width - 1, i - 1);
      }
    }
  }

  lemma HalfOfRemainder(n: nat, p: nat)
    requires p > 0
    ensures n % (2 * p) / 2 == n / 2 % p && n % (2 * p) % 2 == n % 2
  {
    var q, r := n / 2 / p, n / 2 % p;
    var whole, rest := 2 * p, 2 * r + n % 2;
    assert n / 2 == p * q + r && n == 2 * (n / 2) + n % 2;
    assert n == whole * q + rest && 0 <= rest < whole;
    DividedBy(n, whole, q, rest);
  }

  lemma TwoUp(n: nat, i: nat)
    ensures Bit(n, i + 2) == Bit(n / 4, i)
  {
    assert Bit(n, i + 2) == Bit(n / 2, i + 1) == Bit(n / 2 / 2, i);
  }

  lemma HighBit(n: nat, i: nat)
    ensures Bit(n, i + 8) == Bit(n / 256, i)
  {
    hide Bit;
    TwoUp(n, i + 6);
    TwoUp(n / 4, i + 4);
    TwoUp(n / 16, i + 2);
    TwoUp(n / 64, i);
  }

  /** The bits of 0x8005. */
  lemma FeedbackBits(i: nat)
    requires i < 16
    ensures Bit(0x8005, i) <==> Feedback(i)
  {
    if i >= 8 {
      HighBit(0x8005, i - 8);
      SmallBits(i - 8);
    } else {
      SmallBits(i);
    }
  }

  lemma SmallBits(i: nat)
    requires i < 8
    ensures (Bit(0x80, i) <==> i == 7) && (Bit(0x8005, i) <==> i == 0 || i == 2)
  {
    BitValue(0x80, i);
    BitValue(0x8005, i);
  }

  lemma Pow2Of16()
    ensures Pow2(16) == 0x1_0000 && Pow2(15) == 0x8000
  {
    Pow2Of8();
    assert Pow2(9) == 512 && Pow2(12) == 8 * Pow2(9) && Pow2(15) == 8 * Pow2(12);
  }

  // ----- One step -----

  lemma Shifted(r: Register, n: nat)
    requires Holds(r, n)
    ensures Holds(Shift(r), ShiftNumber(n))
  {
    hide Bit, XorNumber;
    Pow2Of16();
    var feedback := if n >= 0x8000 then 0x8005 else 0;
    XorBound(2 * n % 0x1_0000, feedback, 16);
    TopBit(n);
    forall i: nat | i < 16 ensures Shift(r)[i] <==> Bit(ShiftNumber(n), i) {
      XorBit(2 * n % 0x1_0000, feedback, i);
      LowBits(2 * n, 16, i);
      DoubledBit(n, i);
      FeedbackBits(i);
      ZeroHasNoBits(i);
    }
  }

  lemma DoubledBit(n: nat, i: nat)
    ensures Bit(2 * n, i) <==> i > 0 && Bit(n, i - 1)
  {
  }

  lemma TopBit(n: nat)
    requires n < 0x1_0000
    ensures Bit(n, 15) <==> n >= 0x8000
  {
    HighBit(n, 7);
    BitValue(n / 256, 7);
  }

  lemma {:induction false} ShiftedTimes(r: Register, n: nat, k: nat)
    requires Holds(r, n)
    ensures Holds(Shifts(r, k), ShiftTimes(n, k))
  {
    if k > 0 {
      ShiftedTimes(r, n, k - 1);
      Shifted(Shifts(r, k - 1), ShiftTimes(n, k - 1));
    }
  }

  lemma Combined(r: Register, n: nat, b: byte)
    requires Holds(r, n)
    ensures Holds(Xor(r, ToRegister(b)), XorNumber(n, b))
  {
    hide Bit, XorNumber;
    Pow2Of16();
    XorBound(n, b, 16);
    forall i: nat | i < 16 ensures Xor(r, ToRegister(b))[i] <==> Bit(XorNumber(n, b), i) {
      XorBit(n, b, i);
      ByteBits(b, i);
    }
  }

  lemma ByteBits(b: byte, i: nat)
    ensures i >= 8 ==> !Bit(b, i)
  {
    if i >= 8 {
      HighBit(b, i - 8);
      ZeroHasNoBits(i - 8);
    }
  }

  lemma {:induction false} CodeHolds(tail: seq<byte>)
    ensures Holds(Code(tail), CodeNumber(tail))
  {
    hide Shifts, ShiftTimes, XorNumber, Xor;
    if tail == [] {
      ZeroHolds();
    } else {
      var n := |tail| - 1;
      CodeHolds(tail[..n]);
      ShiftedTimes(Code(tail[..n]), CodeNumber(tail[..n]), 8);
      Combined(Shifts(Code(tail[..n]), 8), ShiftTimes(CodeNumber(tail[..n]), 8), tail[n]);
    }
  }

  lemma ZeroHolds()
    ensures Holds(Zero(), 0)
  {
    forall i: nat ensures !Bit(0, i) {
      ZeroHasNoBits(i);
    }
  }

  // ----- The two bytes -----

  /** The bits of the two code bytes are the bits of the number. */
  lemma CodeBytes(r: Register, n: nat)
    requires Holds(r, n)
    ensures LittleEndian(r) == [n % 256, n / 256]
  {
    hide Bit, FromBits;
    Pow2Of8();
    var low, high := LittleEndian(r)[0], LittleEndian(r)[1];
    forall i: nat | i < 8 ensures Bit(low, i) == Bit(n % 256, i) && Bit(high, i) == Bit(n / 256, i) {
      BitOfFromBits(r[..8], i);
      BitOfFromBits(r[8..], i);
      LowBits(n, 8, i);
      HighBit(n, i);
    }
    BitsDetermine(low, n % 256, 8);
    BitsDetermine(high, n / 256, 8);
  }

  /** A key over 255 bytes keeps 253 of them and ends in the code of the rest, low byte first. */
  lemma ShortenedExactly(key: seq<byte>)
    ensures CodeNumber(if |key| > 255 then key[253..] else []) < 0x1_0000
    ensures Shortened(key)
            == if |key| > 255 then key[..253] + [CodeNumber(key[253..]) % 256, CodeNumber(key[253..]) / 256] else key
  {
    hide Code, CodeNumber, LittleEndian;
    CodeHolds(if |key| > 255 then key[253..] else []);
    if |key| > 255 {
      CodeBytes(Code(key[253..]), CodeNumber(key[253..]));
    }
  }
}
