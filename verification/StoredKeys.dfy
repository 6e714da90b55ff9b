/**
 * From the stored bytes of a field to the bytes of its index key (`decode_value`, `index_key` in
 * oracle/windows-dao/structure.py and `component` in oracle/windows-dao/keys.py), without any number in between:
 * integers and dates are reversed, and their sign decides whether one bit or all bits are inverted.
 */
module StoredKeys {
  import opened Bytes
  import opened DataPages
  import opened KeyEncoding
  import opened IndexKeys
  import FieldValues
  import RowLayout
  import TableRows

  function Reverse(s: seq<byte>): (r: seq<byte>)
    ensures |r| == |s|
  {
    seq(|s|, i requires 0 <= i < |s| => s[|s| - 1 - i])
  }

  /** The first byte with its top bit inverted. */
  function TopFlipped(s: seq<byte>): (r: seq<byte>)
    requires s != []
    ensures |r| == |s|
  {
    [if s[0] >= 128 then s[0] - 128 else s[0] + 128] + s[1..]
  }

  // ----- Spellings of one number -----

  lemma {:induction false} ReversedSpelling(field: seq<byte>)
    ensures BigEndian(FieldValues.Unsigned(field), |field|) == Reverse(field)
  {
    if field != [] {
      ReversedSpelling(field[1..]);
      assert Reverse(field) == Reverse(field[1..]) + [field[0]];
    }
  }

  lemma FlipStep(bits: nat, size: nat)
    requires size > 1 && bits < Pow256(size)
    ensures bits / 256 < Pow256(size - 1)
    ensures FlipTop(bits, size) / 256 == FlipTop(bits / 256, size - 1) && FlipTop(bits, size) % 256 == bits % 256
  {
    assert Half(size) == 256 * Half(size - 1);
    assert FlipTop(bits, size) == 256 * FlipTop(bits / 256, size - 1) + bits % 256;
  }

  lemma TopFlippedAppended(s: seq<byte>, b: byte)
    requires s != []
    ensures TopFlipped(s + [b]) == TopFlipped(s) + [b]
  {
  }

  lemma {:induction false} FlippedSpelling(bits: nat, size: nat)
    requires size > 0 && bits < Pow256(size)
    ensures BigEndian(FlipTop(bits, size), size) == TopFlipped(BigEndian(bits, size))
  {
    if size == 1 {
      assert BigEndian(bits, 1) == [] + [bits];
    } else {
      hide FlipTop, TopFlipped, Pow256;
      FlipStep(bits, size);
      FlippedSpelling(bits / 256, size - 1);
      TopFlippedAppended(BigEndian(bits / 256, size - 1), bits % 256);
    }
  }

  lemma {:induction false} InvertedSpelling(bits: nat, k: nat)
    requires bits < Pow256(k)
    ensures BigEndian(Pow256(k) - 1 - bits, k) == Complement(BigEndian(bits, k))
  {
    if k > 0 {
      InvertedSpelling(bits / 256, k - 1);
      var n := Pow256(k) - 1 - bits;
      assert n / 256 == Pow256(k - 1) - 1 - bits / 256 && n % 256 == 255 - bits % 256;
    }
  }

  // ----- Integers -----

  /** The key of a stored two's complement integer: its bytes reversed, with the sign bit inverted. */
  lemma StoredIntegerKey(kind: Kind, field: seq<byte>, descending: bool, table: Collation)
    requires ValidCollation(table) && kind in {Integer, Long, Currency} && |field| == Size(kind)
    ensures StoredKeyValue(kind, field).Accepted?
    ensures Component(StoredKeyValue(kind, field).value, Field(kind, descending), table)
            == Accepted(Directed([127] + TopFlipped(Reverse(field)), descending))
  {
    hide FieldValues.Unsigned, Pow256, FlipTop, TopFlipped, Reverse, ValidCollation, BigEndian;
    var size := Size(kind);
    FieldValues.UnsignedRoundTrip(field);
    var n := FieldValues.Signed(field);
    assert Fits(n, kind) && NumberBits(n, kind) == FlipTop(FieldValues.Unsigned(field), size);
    ReversedSpelling(field);
    FlippedSpelling(FieldValues.Unsigned(field), size);
  }

  lemma StoredByteKey(field: seq<byte>, descending: bool, table: Collation)
    requires ValidCollation(table) && |field| == 1
    ensures StoredKeyValue(Byte, field).Accepted?
    ensures Component(StoredKeyValue(Byte, field).value, Field(Byte, descending), table)
            == Accepted(Directed([127, field[0]], descending))
  {
    hide ValidCollation;
    var n, column := field[0], Field(Byte, descending);
    assert NumberBits(n, Byte) == n && Fits(n, Byte) && Size(Byte) == 1;
    var spelled := BigEndian(n, 1);
    assert spelled == [n] by {
      assert BigEndian(n / 256, 0) == [] && n % 256 == n;
    }
    var key: seq<byte> := [127] + spelled;
    assert key == [127, n];
    assert Component(Number(n), column, table) == Accepted(Directed(key, descending));
  }

  // ----- Flags and nulls -----

  /** The key of a Boolean column is the marker and 0 for a set presence bit, 255 for a clear one. */
  lemma StoredFlagKey(on: bool, descending: bool, table: Collation)
    requires ValidCollation(table)
    ensures var v := KeyValue(Boolean, TableRows.Plain(FieldValues.ScalarOf(Boolean, RowLayout.Flag(on))));
            && v.Accepted?
            && Component(v.value, Field(Boolean, descending), table)
               == Accepted(if descending then [128, if on then 255 else 0] else [127, if on then 0 else 255])
  {
    hide ValidCollation;
    var key: seq<byte> := [127, if on then 0 else 255];
    assert Directed(key, true) == [128, if on then 255 else 0];
  }

  /** The key of a field that is not present is one byte, below the markers of values or above them. */
  lemma StoredNullKey(kind: Kind, descending: bool, table: Collation)
    requires ValidCollation(table) && kind != Boolean
    ensures var v := KeyValue(kind, TableRows.Plain(FieldValues.ScalarOf(kind, RowLayout.Absent)));
            && v.Accepted?
            && Component(v.value, Field(kind, descending), table) == Accepted([if descending then 255 else 0])
  {
    hide ValidCollation;
    assert Directed([0], true) == [255];
  }

  // ----- Dates -----

  lemma {:induction false} UnsignedJoined(low: seq<byte>, high: seq<byte>)
    ensures FieldValues.Unsigned(low + high)
            == FieldValues.Unsigned(low) + Pow256(|low|) * FieldValues.Unsigned(high)
  {
    if low == [] {
      assert low + high == high;
    } else {
      UnsignedJoined(low[1..], high);
      assert (low + high)[1..] == low[1..] + high;
      Scaled(Pow256(|low| - 1), FieldValues.Unsigned(high));
    }
  }

  lemma Scaled(p: nat, n: nat)
    ensures 256 * p * n == 256 * (p * n)
  {
  }

  /** The two highest bytes of a pattern and the bytes below them. */
  lemma HighBytes(field: seq<byte>)
    requires |field| == 8
    ensures FieldValues.Unsigned(field[..6]) < 0x1_0000_0000_0000
    ensures FieldValues.Unsigned(field)
            == FieldValues.Unsigned(field[..6]) + 0x1_0000_0000_0000 * (field[6] as int + 256 * field[7] as int)
  {
    hide FieldValues.Unsigned;
    assert Pow256(6) == 0x1_0000_0000_0000;
    FieldValues.UnsignedRoundTrip(field[..6]);
    UnsignedJoined(field[..6], field[6..]);
    FieldValues.TwoBytes(field[6..]);
    assert field == field[..6] + field[6..];
  }

  lemma {:induction false} Pow2Sum(a: nat, b: nat)
    ensures Pow2(a + b) == Pow2(a) * Pow2(b)
  {
    if a > 0 {
      Pow2Sum(a - 1, b);
      assert Pow2(a) * Pow2(b) == 2 * (Pow2(a - 1) * Pow2(b));
    }
  }

  lemma DateWidths()
    ensures Pow2(FractionWidth(Date)) == 0x10_0000_0000_0000 && Pow2(ExponentWidth(Date)) == 2048
    ensures Half(Size(Date)) == 0x8000_0000_0000_0000
  {
    hide Pow2;
    SmallPowers();
    Pow2Sum(8, 8);
    Pow2Sum(16, 16);
    Pow2Sum(32, 16);
    Pow2Sum(48, 4);
    Pow2Sum(8, 3);
    assert Pow256(7) == 0x100_0000_0000_0000;
  }

  lemma SmallPowers()
    ensures Pow2(3) == 8 && Pow2(4) == 16 && Pow2(8) == 256
  {
    Pow2Of8();
    assert Pow2(1) == 2 && Pow2(2) == 4;
  }

  /** The decoder's finiteness test on the two highest bytes is the one of the key model on the whole pattern. */
  lemma FiniteAlike(field: seq<byte>)
    requires |field| == 8
    ensures FieldValues.FiniteDate(field) <==> Finite(FieldValues.Unsigned(field), Date)
  {
    hide FieldValues.Unsigned;
    FieldValues.UnsignedRoundTrip(field);
    HighBytes(field);
    DateWidths();
    var low, six, seven := FieldValues.Unsigned(field[..6]), field[6] as int, field[7] as int;
    HighPart(low, six, seven);
  }

  lemma HighPart(low: nat, six: nat, seven: nat)
    requires low < 0x1_0000_0000_0000 && six < 256 && seven < 256
    ensures (low + 0x1_0000_0000_0000 * (six + 256 * seven)) % 0x8000_0000_0000_0000 / 0x10_0000_0000_0000
            == seven % 128 * 16 + six / 16
  {
    var half, unit := 0x8000_0000_0000_0000, 0x10_0000_0000_0000;
    var rest, below := low + 0x1_0000_0000_0000 * (six + 256 * (seven % 128)), low + 0x1_0000_0000_0000 * (six % 16);
    assert six == 16 * (six / 16) + six % 16 && seven == 128 * (seven / 128) + seven % 128;
    DividedBy(low + 0x1_0000_0000_0000 * (six + 256 * seven), half, seven / 128, rest);
    DividedBy(rest, unit, seven % 128 * 16 + six / 16, below);
  }

  lemma {:induction false} TopByte(bits: nat, size: nat)
    requires size > 0 && bits < Pow256(size)
    ensures bits >= Half(size) <==> BigEndian(bits, size)[0] >= 128
  {
    if size > 1 {
      TopByte(bits / 256, size - 1);
      assert Half(size) == 256 * Half(size - 1);
    } else {
      assert BigEndian(bits, 1) == [] + [bits];
    }
  }

  /** The key of a floating pattern, from its big-endian bytes. */
  lemma FloatingKeyBytes(bits: nat, kind: Kind)
    requires IsFloating(kind) && bits < Pow256(Size(kind))
    ensures var spelled := BigEndian(bits, Size(kind));
            BigEndian(FloatBits(bits, kind), Size(kind))
            == if spelled[0] >= 128 then Complement(spelled) else TopFlipped(spelled)
  {
    hide Pow256, BigEndian, FlipTop, Half;
    TopByte(bits, Size(kind));
    FlippedSpelling(bits, Size(kind));
    InvertedSpelling(bits, Size(kind));
  }

  /** The key of a stored date: its bytes reversed, all inverted for a negative pattern, else only the sign bit. */
  lemma StoredDateKey(field: seq<byte>, descending: bool, table: Collation)
    requires ValidCollation(table) && FieldValues.FiniteDate(field)
    ensures StoredKeyValue(Date, field).Accepted?
    ensures Component(StoredKeyValue(Date, field).value, Field(Date, descending), table)
            == Accepted(Directed(
                 [127] + (if field[7] >= 128 then Complement(Reverse(field)) else TopFlipped(Reverse(field))),
                     descending))
  {
    hide FieldValues.Unsigned, Pow256, FlipTop, TopFlipped, Reverse, ValidCollation, BigEndian, Finite, Half;
    FiniteAlike(field);
    FieldValues.UnsignedRoundTrip(field);
    var bits := FieldValues.Unsigned(field);
    SignOfDate(field);
    ReversedSpelling(field);
    FlippedSpelling(bits, 8);
    InvertedSpelling(bits, 8);
  }

  lemma SignOfDate(field: seq<byte>)
    requires |field| == 8
    ensures FieldValues.Unsigned(field) >= Half(8) <==> field[7] >= 128
  {
    hide FieldValues.Unsigned;
    HighBytes(field);
    DateWidths();
  }

  // ----- Binary values -----

  function Inverted(b: byte, descending: bool): (r: byte) {
    if descending then 255 - b else b
  }

  /**
   * The bytes behind the marker, by position: nine to a chunk, eight of the value, or zeros behind its end, and one
   * that is 9 inside the value and counts the value's bytes in the last chunk. Only the inner 9 is never inverted.
   */
  ghost predicate ChunksSpelled(s: seq<byte>, raw: seq<byte>, descending: bool) {
    && raw != [] && |s| == 9 * ((|raw| + 7) / 8)
    && forall p: nat :: p < |s| ==> s[p] == ChunkByte(raw, descending, p)
  }

  function ChunkByte(raw: seq<byte>, descending: bool, p: nat): (b: byte)
    requires p < 9 * ((|raw| + 7) / 8)
  {
    var c, within := p / 9, p % 9;
    if within < 8 then Inverted(if 8 * c + within < |raw| then raw[8 * c + within] else 0, descending)
    else if 8 * c + 8 < |raw| then 9
    else Inverted(|raw| - 8 * c, descending)
  }

  lemma DirectedIs(s: seq<byte>, descending: bool)
    ensures forall i :: 0 <= i < |s| ==> Directed(s, descending)[i] == Inverted(s[i], descending)
  {
  }

  lemma NextChunk(raw: seq<byte>, descending: bool, p: nat)
    requires |raw| > 8 && 9 <= p < 9 * ((|raw| + 7) / 8)
    ensures ChunkByte(raw, descending, p) == ChunkByte(raw[8..], descending, p - 9)
  {
    assert p / 9 == (p - 9) / 9 + 1 && p % 9 == (p - 9) % 9;
  }

  lemma LastChunkByPosition(raw: seq<byte>, descending: bool)
    requires 1 <= |raw| <= 8
    ensures ChunksSpelled(Chunks(raw, descending), raw, descending)
  {
    hide Directed, Inverted;
    DirectedIs(raw + Zeros(8 - |raw|), descending);
    DirectedIs([|raw|], descending);
  }

  lemma {:induction false} ChunksByPosition(raw: seq<byte>, descending: bool)
    requires raw != []
    ensures ChunksSpelled(Chunks(raw, descending), raw, descending)
  {
    hide Directed, Inverted;
    var s := Chunks(raw, descending);
    if |raw| <= 8 {
      LastChunkByPosition(raw, descending);
    } else {
      ChunksByPosition(raw[8..], descending);
      DirectedIs(raw[..8], descending);
      var rest := Chunks(raw[8..], descending);
      forall p: nat | p < |s| ensures s[p] == ChunkByte(raw, descending, p) {
        if p >= 9 {
          NextChunk(raw, descending, p);
          assert s[p] == rest[p - 9];
        }
      }
    }
  }

  /** A stored Binary field has a key exactly from 1 to 255 bytes, which spells it chunk by chunk. */
  lemma StoredBinaryKey(field: seq<byte>, descending: bool, table: Collation)
    requires ValidCollation(table)
    ensures StoredKeyValue(Binary, field).Accepted?
    ensures var key := Component(StoredKeyValue(Binary, field).value, Field(Binary, descending), table);
            && (key.Accepted? <==> 1 <= |field| <= 255)
            && (key.Accepted? ==>
                  && |key.value| > 0 && key.value[0] == Inverted(127, descending)
                  && ChunksSpelled(key.value[1..], field, descending))
  {
    hide ValidCollation, Chunks, ChunksSpelled;
    if 1 <= |field| <= 255 {
      ChunksByPosition(field, descending);
      var key := Directed([127], descending) + Chunks(field, descending);
      assert key[1..] == Chunks(field, descending);
    }
  }

  /** The key of a 16-byte identifier is its bytes in two framed halves. */
  lemma IdentifierKey(id: seq<byte>, descending: bool, table: Collation)
    requires ValidCollation(table) && |id| == 16
    ensures var key := Component(Raw(id), Field(Guid, descending), table);
            && key.Accepted? && |key.value| == 19 && key.value[0] == Inverted(127, descending)
            && ChunksSpelled(key.value[1..], id, descending)
  {
    hide ValidCollation, Chunks, ChunkByte;
    ChunksByPosition(id, descending);
    var key := Directed([127], descending) + Chunks(id, descending);
    assert key[1..] == Chunks(id, descending);
  }

  // ----- Locators -----

  /** A locator is read back from its bytes: the page is big-endian, the row comes last. */
  lemma LocatorRead(w: Locator)
    requires Locatable(w)
    ensures FromBigEndian(LocatorBytes(w)[..3]) == w.page && LocatorBytes(w)[3] == w.row
  {
    assert Pow256(3) == 0x100_0000;
    BigEndianRoundTrip(w.page, 3);
    assert LocatorBytes(w)[..3] == BigEndian(w.page, 3);
  }

  /** So entries with one key are ordered by page and then by row. */
  lemma LocatorOrder(v: Locator, w: Locator)
    requires Locatable(v) && Locatable(w)
    ensures Less(LocatorBytes(v), LocatorBytes(w)) <==> v.page < w.page || (v.page == w.page && v.row < w.row)
  {
    LocatorsBelow(v, w);
    LocatorsBelow(w, v);
    if v == w {
      LessIrreflexive(LocatorBytes(v));
    }
  }

  lemma LocatorsBelow(v: Locator, w: Locator)
    requires Locatable(v) && Locatable(w)
    ensures v.page < w.page || (v.page == w.page && v.row < w.row) ==>
              Less(LocatorBytes(v), LocatorBytes(w)) && !Less(LocatorBytes(w), LocatorBytes(v))
  {
    hide BigEndian;
    assert Pow256(3) == 0x100_0000;
    if v.page < w.page {
      BigEndianOrder(v.page, w.page, 3);
      BelowExtends(BigEndian(v.page, 3), BigEndian(w.page, 3), [v.row], [w.row]);
      BelowIsLess(LocatorBytes(v), LocatorBytes(w));
    } else if v.page == w.page && v.row < w.row {
      BelowUnderPrefix(BigEndian(v.page, 3), [v.row], [w.row]);
      BelowIsLess(LocatorBytes(v), LocatorBytes(w));
    }
  }
}
