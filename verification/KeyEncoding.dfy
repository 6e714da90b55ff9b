/**
 * Directed index-key components (oracle/windows-dao/keys.py).
 *
 * A key is the concatenation of one component per indexed column. The arms that are expressions in
 * the source are functions; the chunking, weight-collecting and list-popping loops are methods proved
 * against the functions that specify them.
 */
module KeyEncoding {
  import opened Bytes

  datatype Kind =
    | Boolean | Byte | Integer | Long | Currency | Single | Double | Date | Binary | Text | Guid

  /** Column values before encoding; floating values are IEEE bit patterns, Binary/GUID/Text are bytes. */
  datatype Value = Null | Flag(on: bool) | Number(n: int) | Float(bits: nat) | Raw(data: seq<byte>)

  datatype Field = Field(kind: Kind, descending: bool)

  /** Primary weights and explicit secondary nibbles of one text byte. */
  datatype Weight = Weight(primary: seq<byte>, accents: seq<byte>)

  /** A collation; bytes missing from the map are undefined in the code page. */
  type Collation = map<byte, Weight>

  /** What the captured tables guarantee: primary weights of at least 16 and nibbles from 2 to 10. */
  ghost predicate ValidCollation(table: Collation) {
    forall b :: b in table ==>
      && (forall i :: 0 <= i < |table[b].primary| ==> table[b].primary[i] >= 16)
      && (forall i :: 0 <= i < |table[b].accents| ==> 2 <= table[b].accents[i] <= 10)
  }

  const ACCENTED: set<byte> := {96, 98, 102, 106, 112, 114, 118, 120, 125}

  function Size(kind: Kind): (n: nat) {
    match kind
    case Boolean | Byte => 1
    case Integer => 2
    case Long | Single => 4
    case Currency | Double | Date => 8
    case Binary | Text => 255
    case Guid => 16
  }

  // ----- Fixed-width numbers -----

  /** The weight of the top bit of a `size`-byte word. */
  function Half(size: nat): (h: nat)
    requires size > 0
    ensures 2 * h == Pow256(size) && h > 0
  {
    128 * Pow256(size - 1)
  }

  /** XOR with the top bit. */
  function FlipTop(bits: nat, size: nat): (r: nat)
    requires size > 0 && bits < Pow256(size)
    ensures r < Pow256(size)
  {
    if bits >= Half(size) then bits - Half(size) else bits + Half(size)
  }

  predicate Fits(n: int, kind: Kind) {
    if kind == Byte then 0 <= n < 256 else -(Half(Size(kind)) as int) <= n < Half(Size(kind))
  }

  /** Two's complement, with the sign flipped for every signed kind. */
  function NumberBits(n: int, kind: Kind): (bits: nat)
    requires Fits(n, kind)
    ensures bits < Pow256(Size(kind))
  {
    if kind == Byte then n
    else
      var word: nat := if n < 0 then n + Pow256(Size(kind)) else n;
      FlipTop(word, Size(kind))
  }

  predicate IsFloating(kind: Kind) {
    kind == Single || kind == Double || kind == Date
  }

  function FractionWidth(kind: Kind): (n: nat) {
    if kind == Single then 23 else 52
  }

  function ExponentWidth(kind: Kind): (n: nat) {
    if kind == Single then 8 else 11
  }

  /** A finite bit pattern of the kind's width: the exponent field is not all ones. */
  predicate Finite(bits: nat, kind: Kind) {
    && bits < Pow256(Size(kind))
    && (bits % Half(Size(kind))) / Pow2(FractionWidth(kind)) < Pow2(ExponentWidth(kind)) - 1
  }

  /** Negative patterns are inverted and the others get the sign bit. */
  function FloatBits(bits: nat, kind: Kind): (r: nat)
    requires bits < Pow256(Size(kind))
    ensures r < Pow256(Size(kind))
  {
    if bits >= Half(Size(kind)) then Pow256(Size(kind)) - 1 - bits else FlipTop(bits, Size(kind))
  }

  // ----- Binary and GUID chunks -----

  function Directed(s: seq<byte>, descending: bool): (r: seq<byte>)
    ensures |r| == |s|
  {
    if descending then Complement(s) else s
  }

  function Zeros(n: nat): (s: seq<byte>)
    ensures |s| == n
    ensures forall i :: 0 <= i < n ==> s[i] == 0
  {
    seq(n, i => 0)
  }

  /** Eight-byte chunks, each followed by an undirected 9 or, for the last, its directed length. */
  function Chunks(raw: seq<byte>, descending: bool): (r: seq<byte>)
    requires raw != []
  {
    if |raw| <= 8 then
      Directed(raw + Zeros(8 - |raw|), descending) + Directed([|raw|], descending)
    else
      Directed(raw[..8], descending) + [9] + Chunks(raw[8..], descending)
  }

  /** What remains to be written from `offset` on. */
  function ChunksFrom(raw: seq<byte>, offset: nat, descending: bool): (r: seq<byte>) {
    if offset < |raw| then Chunks(raw[offset..], descending) else []
  }

  lemma ChunkStep(raw: seq<byte>, offset: nat, descending: bool)
    requires offset < |raw|
    ensures offset + 8 < |raw| ==>
              ChunksFrom(raw, offset, descending)
              == Directed(raw[offset..offset + 8], descending) + [9] + ChunksFrom(raw, offset + 8, descending)
  {
    if offset + 8 < |raw| {
      assert raw[offset..][..8] == raw[offset..offset + 8] && raw[offset..][8..] == raw[offset + 8..];
    }
  }

  method EncodeChunks(raw: seq<byte>, descending: bool) returns (result: seq<byte>)
    requires raw != []
    ensures result == Directed([127], descending) + Chunks(raw, descending)
  {
    result := Directed([127], descending);
    ghost var whole := result + Chunks(raw, descending);
    var offset := 0;
    assert raw[0..] == raw;
    while offset < |raw|
      invariant 0 <= offset
      invariant result + ChunksFrom(raw, offset, descending) == whole
    {
      ChunkStep(raw, offset, descending);
      if offset + 8 < |raw| {
        var chunk := raw[offset..offset + 8];
        assert chunk + Zeros(8 - |chunk|) == chunk;
        result := result + Directed(chunk + Zeros(8 - |chunk|), descending) + [9];
      } else {
        var chunk := raw[offset..];
        result := result + Directed(chunk + Zeros(8 - |chunk|), descending) + Directed([|chunk|], descending);
      }
      offset := offset + 8;
    }
  }

  // ----- Text -----

  function TrimSpaces(raw: seq<byte>): (r: seq<byte>) {
    if raw != [] && raw[|raw| - 1] == 32 then TrimSpaces(raw[..|raw| - 1]) else raw
  }

  /** Explicit accents, or a default 2 for every weight that can carry one. */
  function SecondaryOf(weight: Weight): (r: seq<byte>) {
    if weight.accents != [] then weight.accents else Defaults(weight.primary)
  }

  function Defaults(primary: seq<byte>): (r: seq<byte>) {
    if primary == [] then []
    else (if primary[0] in ACCENTED then [2] else []) + Defaults(primary[1..])
  }

  /** Concatenated weights of `raw`, rejected at the first undefined byte. */
  function Collect(raw: seq<byte>, table: Collation): (r: Result<Weight>) {
    if raw == [] then Accepted(Weight([], []))
    else
      var last := raw[|raw| - 1];
      var rest :- Collect(raw[..|raw| - 1], table);
      if last !in table then Rejected
      else Accepted(Weight(rest.primary + table[last].primary, rest.accents + SecondaryOf(table[last])))
  }

  function StripDefaults(secondary: seq<byte>): (r: seq<byte>) {
    if secondary != [] && secondary[|secondary| - 1] == 2 then StripDefaults(secondary[..|secondary| - 1])
    else secondary
  }

  /** The collation weights that decide where a text value sorts. */
  function CollationKey(raw: seq<byte>, table: Collation): (r: Result<Weight>) {
    var weights :- Collect(TrimSpaces(raw), table);
    Accepted(Weight(weights.primary, StripDefaults(weights.accents)))
  }

  /** Zero, the nibbles, a terminating zero and padding to an even count. */
  function Nibbles(secondary: seq<byte>): (r: seq<byte>)
    ensures |r| % 2 == 0
  {
    var framed := [0] + secondary + [0];
    if |framed| % 2 == 0 then framed else framed + [0]
  }

  function Pack(nibbles: seq<byte>): (r: seq<byte>)
    requires |nibbles| % 2 == 0
    requires forall i :: 0 <= i < |nibbles| ==> nibbles[i] < 16
  {
    if nibbles == [] then [] else [nibbles[0] * 16 + nibbles[1]] + Pack(nibbles[2..])
  }

  function TextKey(primary: seq<byte>, stripped: seq<byte>): (r: seq<byte>)
    requires forall i :: 0 <= i < |stripped| ==> stripped[i] < 16
  {
    [127] + primary + Pack(Nibbles(stripped))
  }

  /** `_secondary`: pops trailing defaults, frames and packs. */
  method AssembleText(primary: seq<byte>, secondary: seq<byte>) returns (key: seq<byte>)
    requires forall i :: 0 <= i < |secondary| ==> secondary[i] < 16
    ensures forall i :: 0 <= i < |StripDefaults(secondary)| ==> StripDefaults(secondary)[i] < 16
    ensures key == TextKey(primary, StripDefaults(secondary))
  {
    var left := secondary;
    while left != [] && left[|left| - 1] == 2
      invariant left <= secondary
      invariant StripDefaults(left) == StripDefaults(secondary)
    {
      left := left[..|left| - 1];
    }
    key := [127] + primary + Pack(Nibbles(left));
  }

  lemma {:induction false} SecondaryIsNibbles(weight: Weight)
    requires forall i :: 0 <= i < |weight.accents| ==> 2 <= weight.accents[i] <= 10
    ensures forall i :: 0 <= i < |SecondaryOf(weight)| ==> 2 <= SecondaryOf(weight)[i] <= 10
  {
    DefaultsAreTwo(weight.primary);
  }

  lemma {:induction false} DefaultsAreTwo(primary: seq<byte>)
    ensures forall i :: 0 <= i < |Defaults(primary)| ==> Defaults(primary)[i] == 2
  {
    if primary != [] {
      DefaultsAreTwo(primary[1..]);
    }
  }

  ghost predicate ValidWeight(w: Weight) {
    && (forall i :: 0 <= i < |w.primary| ==> w.primary[i] >= 16)
    && (forall i :: 0 <= i < |w.accents| ==> 2 <= w.accents[i] <= 10)
  }

  lemma {:induction false} CollectValid(raw: seq<byte>, table: Collation)
    requires ValidCollation(table) && Collect(raw, table).Accepted?
    ensures ValidWeight(Collect(raw, table).value)
  {
    if raw != [] {
      CollectValid(raw[..|raw| - 1], table);
      SecondaryIsNibbles(table[raw[|raw| - 1]]);
    }
  }

  lemma {:induction false} StripIsPrefix(secondary: seq<byte>)
    ensures StripDefaults(secondary) <= secondary
  {
    if secondary != [] && secondary[|secondary| - 1] == 2 {
      StripIsPrefix(secondary[..|secondary| - 1]);
    }
  }

  lemma CollationKeyValid(raw: seq<byte>, table: Collation)
    requires ValidCollation(table) && CollationKey(raw, table).Accepted?
    ensures ValidWeight(CollationKey(raw, table).value)
  {
    var weights := Collect(TrimSpaces(raw), table).value;
    CollectValid(TrimSpaces(raw), table);
    StripIsPrefix(weights.accents);
  }

  /** `general_text`: collects weights byte by byte, then assembles and directs them. */
  method GeneralText(raw: seq<byte>, descending: bool, table: Collation) returns (r: Result<seq<byte>>)
    requires ValidCollation(table)
    ensures r == TextComponent(raw, descending, table)
  {
    var trimmed := TrimSpaces(raw);
    var primary: seq<byte>, secondary: seq<byte> := [], [];
    var i := 0;
    while i < |trimmed|
      invariant 0 <= i <= |trimmed|
      invariant Collect(trimmed[..i], table) == Accepted(Weight(primary, secondary))
    {
      assert trimmed[..i + 1][..i] == trimmed[..i];
      if trimmed[i] !in table {
        UndefinedByteRejects(trimmed, table, i);
        return Rejected;
      }
      var weight := table[trimmed[i]];
      primary := primary + weight.primary;
      secondary := secondary + SecondaryOf(weight);
      i := i + 1;
    }
    assert trimmed[..i] == trimmed;
    CollectValid(trimmed, table);
    var data := AssembleText(primary, secondary);
    return Accepted(Directed(data, descending));
  }

  lemma {:induction false} UndefinedByteRejects(raw: seq<byte>, table: Collation, i: nat)
    requires i < |raw| && raw[i] !in table
    ensures Collect(raw, table).Rejected?
  {
    if i < |raw| - 1 {
      UndefinedByteRejects(raw[..|raw| - 1], table, i);
    }
  }

  function TextComponent(raw: seq<byte>, descending: bool, table: Collation): (r: Result<seq<byte>>)
    requires ValidCollation(table)
  {
    var weights :- CollationKey(raw, table);
    CollationKeyValid(raw, table);
    Accepted(Directed(TextKey(weights.primary, weights.accents), descending))
  }

  // ----- Components and keys -----

  /** One directed key component; rejected when the value is outside the kind's admitted input. */
  function Component(value: Value, field: Field, table: Collation): (r: Result<seq<byte>>)
    requires ValidCollation(table)
  {
    var kind, descending := field.kind, field.descending;
    match value
    case Null =>
      if kind == Boolean then Rejected else Accepted(Directed([0], descending))
    case Raw(data) =>
      if kind == Text then TextComponent(data, descending, table)
      else if (kind == Binary && 0 < |data| <= 255) || (kind == Guid && |data| == 16) then
        Accepted(Directed([127], descending) + Chunks(data, descending))
      else Rejected
    case Flag(on) =>
      if kind == Boolean then Accepted(Directed([127, if on then 0 else 255], descending)) else Rejected
    case Float(bits) =>
      if IsFloating(kind) && Finite(bits, kind) then
        Accepted(Directed([127] + BigEndian(FloatBits(bits, kind), Size(kind)), descending))
      else Rejected
    case Number(n) =>
      if kind in {Byte, Integer, Long, Currency} && Fits(n, kind) then
        Accepted(Directed([127] + BigEndian(NumberBits(n, kind), Size(kind)), descending))
      else Rejected
  }

  /** The concatenated components of one row's indexed values. */
  function Key(values: seq<Value>, fields: seq<Field>, table: Collation): (r: Result<seq<byte>>)
    requires ValidCollation(table) && |values| == |fields|
  {
    if fields == [] then Accepted([])
    else
      var first :- Component(values[0], fields[0], table);
      var rest :- Key(values[1..], fields[1..], table);
      Accepted(first + rest)
  }
}
