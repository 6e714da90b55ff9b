/**
 * Scalar values of present fields (`decode_value` in oracle/windows-dao/structure.py) and the bytes that
 * `index_key` takes back from them. Dates are kept as their bit patterns, text as code points.
 */
module FieldValues {
  import opened Bytes
  import RowLayout
  import KeyEncoding

  type Kind = KeyEncoding.Kind

  /** A decoded value; a field that has no value of its kind keeps its bytes. */
  datatype Scalar =
    | Missing
    | On(on: bool)
    | Whole(n: int)
    | Days(bits: seq<byte>)
    | Characters(text: seq<nat>)
    | Octets(data: seq<byte>)
    | Unmodeled(data: seq<byte>)

  // ----- Little-endian integers -----

  function Unsigned(field: seq<byte>): (n: nat) {
    if field == [] then 0 else field[0] + 256 * Unsigned(field[1..])
  }

  function Signed(field: seq<byte>): (n: int) {
    var n, limit := Unsigned(field), Pow256(|field|);
    if 2 * n < limit then n else n - limit
  }

  function Spelled(n: nat, width: nat): (r: seq<byte>)
    ensures |r| == width
  {
    if width == 0 then [] else [n % 256] + Spelled(n / 256, width - 1)
  }

  lemma {:induction false} UnsignedRoundTrip(field: seq<byte>)
    ensures Unsigned(field) < Pow256(|field|) && Spelled(Unsigned(field), |field|) == field
  {
    if field != [] {
      UnsignedRoundTrip(field[1..]);
      assert field == [field[0]] + field[1..];
    }
  }

  /** Later bytes weigh more. */
  lemma {:induction false} UnsignedGrows(field: seq<byte>, last: byte)
    ensures Unsigned(field + [last]) == Unsigned(field) + last * Pow256(|field|)
  {
    if field != [] {
      UnsignedGrows(field[1..], last);
      assert (field + [last])[1..] == field[1..] + [last];
    }
  }

  /** A spelling determines and is determined by its number. */
  lemma {:induction false} SpelledUnsigned(n: nat, width: nat)
    requires n < Pow256(width)
    ensures Unsigned(Spelled(n, width)) == n
  {
    if width > 0 {
      SpelledUnsigned(n / 256, width - 1);
      assert Spelled(n, width)[1..] == Spelled(n / 256, width - 1);
    }
  }

  lemma TwoBytes(field: seq<byte>)
    requires |field| == 2
    ensures Unsigned(field) == field[0] as int + 256 * field[1] as int
  {
    var high := field[1..];
    assert high[1..] == [] && Unsigned(high[1..]) == 0;
    assert Unsigned(high) == high[0] as int + 256 * Unsigned(high[1..]);
  }

  /** The fixed-offset words of every structure are little-endian fields. */
  lemma WordsUnsigned(data: seq<byte>, offset: nat)
    requires offset + 4 <= |data|
    ensures U16(data, offset) == Unsigned(data[offset..offset + 2])
    ensures U32(data, offset) == Unsigned(data[offset..offset + 4])
    ensures Spelled(U32(data, offset), 4) == data[offset..offset + 4]
  {
    var low, high, four := data[offset..offset + 2], data[offset + 2..offset + 4], data[offset..offset + 4];
    TwoBytes(low);
    TwoBytes(high);
    assert four[1..][1..] == high;
    assert Unsigned(four) == four[0] + 256 * (four[1] + 256 * Unsigned(high));
    UnsignedRoundTrip(four);
  }

  // ----- Code page 1252 -----

  predicate HasCodePoint(b: byte) {
    b !in {0x81, 0x8d, 0x8f, 0x90, 0x9d}
  }

  function CodePoint(b: byte): (c: nat)
    requires HasCodePoint(b)
  {
    match b
    case 0x80 => 0x20ac case 0x82 => 0x201a case 0x83 => 0x0192 case 0x84 => 0x201e case 0x85 => 0x2026
    case 0x86 => 0x2020 case 0x87 => 0x2021 case 0x88 => 0x02c6 case 0x89 => 0x2030 case 0x8a => 0x0160
    case 0x8b => 0x2039 case 0x8c => 0x0152 case 0x8e => 0x017d case 0x91 => 0x2018 case 0x92 => 0x2019
    case 0x93 => 0x201c case 0x94 => 0x201d case 0x95 => 0x2022 case 0x96 => 0x2013 case 0x97 => 0x2014
    case 0x98 => 0x02dc case 0x99 => 0x2122 case 0x9a => 0x0161 case 0x9b => 0x203a case 0x9c => 0x0153
    case 0x9e => 0x017e case 0x9f => 0x0178
    case _ => b
  }

  function ByteOf(c: nat): (b: byte) {
    match c
    case 0x20ac => 0x80 case 0x201a => 0x82 case 0x0192 => 0x83 case 0x201e => 0x84 case 0x2026 => 0x85
    case 0x2020 => 0x86 case 0x2021 => 0x87 case 0x02c6 => 0x88 case 0x2030 => 0x89 case 0x0160 => 0x8a
    case 0x2039 => 0x8b case 0x0152 => 0x8c case 0x017d => 0x8e case 0x2018 => 0x91 case 0x2019 => 0x92
    case 0x201c => 0x93 case 0x201d => 0x94 case 0x2022 => 0x95 case 0x2013 => 0x96 case 0x2014 => 0x97
    case 0x02dc => 0x98 case 0x2122 => 0x99 case 0x0161 => 0x9a case 0x203a => 0x9b case 0x0153 => 0x9c
    case 0x017e => 0x9e case 0x0178 => 0x9f
    case _ => if c < 256 then c else 0
  }

  lemma CharacterRoundTrip(b: byte)
    requires HasCodePoint(b)
    ensures ByteOf(CodePoint(b)) == b
  {
  }

  predicate Decodable(field: seq<byte>) {
    forall i :: 0 <= i < |field| ==> HasCodePoint(field[i])
  }

  function Decoded(field: seq<byte>): (text: seq<nat>)
    requires Decodable(field)
    ensures |text| == |field| && forall i :: 0 <= i < |field| ==> text[i] == CodePoint(field[i])
  {
    seq(|field|, i requires 0 <= i < |field| => CodePoint(field[i]))
  }

  function Encoded(text: seq<nat>): (field: seq<byte>)
    ensures |field| == |text| && forall i :: 0 <= i < |text| ==> field[i] == ByteOf(text[i])
  {
    seq(|text|, i requires 0 <= i < |text| => ByteOf(text[i]))
  }

  lemma TextRoundTrip(field: seq<byte>)
    requires Decodable(field)
    ensures Encoded(Decoded(field)) == field
  {
    forall i | 0 <= i < |field| ensures Encoded(Decoded(field))[i] == field[i] {
      CharacterRoundTrip(field[i]);
    }
  }

  // ----- Decoding -----

  /** A double whose exponent is not all ones: neither infinite nor a NaN. */
  predicate FiniteDate(field: seq<byte>) {
    |field| == 8 && field[7] as int % 128 * 16 + field[6] as int / 16 != 0x7ff
  }

  function DecodeValue(kind: Kind, field: seq<byte>): (v: Scalar) {
    match kind
    case Long => if |field| == 4 then Whole(Signed(field)) else Unmodeled(field)
    case Integer => if |field| == 2 then Whole(Signed(field)) else Unmodeled(field)
    case Byte => if |field| == 1 then Whole(Unsigned(field)) else Unmodeled(field)
    case Date => if FiniteDate(field) then Days(field) else Unmodeled(field)
    case Text => if Decodable(field) then Characters(Decoded(field)) else Unmodeled(field)
    case Binary => Octets(field)
    case _ => Unmodeled(field)
  }

  function IntegerWidth(kind: Kind): (n: nat) {
    match kind case Long => 4 case Integer => 2 case _ => 1
  }

  /** The stored bytes of a decoded value. */
  function StoredBytes(kind: Kind, v: Scalar): (field: seq<byte>) {
    match v
    case Whole(n) => Spelled(n % Pow256(IntegerWidth(kind)), IntegerWidth(kind))
    case Days(bits) => bits
    case Characters(text) => Encoded(text)
    case Octets(data) => data
    case Unmodeled(data) => data
    case _ => []
  }

  lemma SignedRoundTrip(field: seq<byte>)
    ensures Spelled(Signed(field) % Pow256(|field|), |field|) == field
  {
    hide Unsigned, Spelled, Pow256;
    UnsignedRoundTrip(field);
    ModuloShift(Unsigned(field), Pow256(|field|));
  }

  lemma ModuloShift(n: nat, limit: nat)
    requires n < limit
    ensures n % limit == n && (n - limit) % limit == n
  {
    var q, r := (n - limit) / limit, (n - limit) % limit;
    assert n - limit == limit * q + r;
  }

  /** A decoded value gives back exactly the bytes it was decoded from, in every column and for every field. */
  lemma ValueRoundTrip(kind: Kind, field: seq<byte>)
    ensures StoredBytes(kind, DecodeValue(kind, field)) == field
  {
    hide Unsigned, Spelled, Pow256;
    match kind
    case Long => SignedRoundTrip(field);
    case Integer => SignedRoundTrip(field);
    case Byte =>
      if |field| == 1 {
        OneByte(field);
      }
    case Text =>
      if Decodable(field) {
        TextRoundTrip(field);
      }
    case _ =>
  }

  lemma OneByte(field: seq<byte>)
    requires |field| == 1
    ensures Spelled(Unsigned(field) % Pow256(1), 1) == field
  {
    UnsignedRoundTrip(field);
    ModuloShift(Unsigned(field), Pow256(1));
  }

  /** So decoding loses nothing: equal values of a column come from equal bytes. */
  lemma DecodeInjective(kind: Kind, a: seq<byte>, b: seq<byte>)
    ensures DecodeValue(kind, a) == DecodeValue(kind, b) <==> a == b
  {
    ValueRoundTrip(kind, a);
    ValueRoundTrip(kind, b);
  }

  /** The value of a field that is not a long value. */
  function ScalarOf(kind: Kind, f: RowLayout.FieldValue): (v: Scalar) {
    match f
    case Absent => Missing
    case Flag(on) => On(on)
    case Present(data) => DecodeValue(kind, data)
  }
}
