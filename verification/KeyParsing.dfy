/**
 * Self-delimiting keys: `_record_width` in oracle/windows-dao/structure.py walks the components of an
 * index record and finds where the key ends. The walk is stated as functions over a position in the
 * record; the loops of the source are methods proved equal to them. The main results say that the walk
 * recovers the exact extent of every printed key, whatever follows it, and therefore that the width rule
 * of the tree decoder accepts every entry the key model can produce.
 */
module KeyParsing {
  import opened Bytes
  import opened KeyEncoding
  import opened KeyShortening
  import KeyOrder

  /** The byte at a position with the column's direction removed. */
  function At(record: seq<byte>, i: nat, descending: bool): (b: byte)
    requires i < |record|
  {
    if descending then 255 - record[i] else record[i]
  }

  // ----- The walk -----

  /** Skips primary weights, which are all at least 16. */
  function SkipPrimary(record: seq<byte>, offset: nat, descending: bool): (r: nat)
    requires offset <= |record|
    ensures offset <= r <= |record|
    decreases |record| - offset
  {
    if offset < |record| && At(record, offset, descending) >= 16 then SkipPrimary(record, offset + 1, descending)
    else offset
  }

  /** Scans secondary nibbles to their terminator; the result is the offset after its byte. */
  function ScanNibbles(record: seq<byte>, nibble: nat, descending: bool): (r: Result<nat>)
    decreases 2 * |record| - nibble
  {
    if nibble >= 2 * |record| then Rejected
    else
      var b := At(record, nibble / 2, descending);
      var value := if nibble % 2 == 0 then b / 16 else b % 16;
      if value == 0 then
        if nibble % 2 == 1 || b % 16 == 0 then Accepted(nibble / 2 + 1) else Rejected
      else if 2 <= value <= 10 then ScanNibbles(record, nibble + 1, descending)
      else Rejected
  }

  function TextEnd(record: seq<byte>, offset: nat, descending: bool): (r: Result<nat>)
    requires offset <= |record|
  {
    var end := SkipPrimary(record, offset, descending);
    if end >= |record| then Rejected else ScanNibbles(record, 2 * end + 1, descending)
  }

  /** Scans at most 32 chunks; a directed length from 1 to 8 ends the component. */
  function ScanChunks(record: seq<byte>, offset: nat, chunk: nat, descending: bool): (r: Result<nat>)
    decreases 32 - chunk
  {
    if chunk >= 32 || offset + 9 > |record| then Rejected
    else if record[offset + 8] == 9 then ScanChunks(record, offset + 9, chunk + 1, descending)
    else
      var width := At(record, offset + 8, descending);
      var padding: byte := if descending then 255 else 0;
      if !(1 <= width <= 8 && chunk * 8 + width <= 255) then Rejected
      else if exists i :: offset + width <= i < offset + 8 && record[i] != padding then Rejected
      else Accepted(offset + 9)
  }

  /** The offset after the component that starts at `offset`. */
  function ComponentEnd(record: seq<byte>, offset: nat, field: Field): (r: Result<nat>) {
    if offset >= |record| then Rejected
    else
      var marker := At(record, offset, field.descending);
      if marker == 0 then
        if field.kind == Boolean then Rejected else Accepted(offset + 1)
      else if marker != 127 then Rejected
      else
        match field.kind
        case Text => TextEnd(record, offset + 1, field.descending)
        case Guid =>
          if offset + 19 <= |record| && record[offset + 9] == 9 && At(record, offset + 18, field.descending) == 8 then
            Accepted(offset + 19)
          else Rejected
        case Binary => ScanChunks(record, offset + 1, 0, field.descending)
        case _ => Accepted(offset + 1 + Size(field.kind))
  }

  function KeyEnd(record: seq<byte>, offset: nat, fields: seq<Field>): (r: Result<nat>)
    decreases |fields|
  {
    if fields == [] then Accepted(offset)
    else
      var next :- ComponentEnd(record, offset, fields[0]);
      KeyEnd(record, next, fields[1..])
  }

  /** `_record_width`: the key and its four-byte row locator. */
  function RecordWidth(record: seq<byte>, fields: seq<Field>): (r: Result<nat>) {
    var end :- KeyEnd(record, 0, fields);
    Accepted(end + 4)
  }

  // ----- The loops of the source -----

  method MeasureText(record: seq<byte>, start: nat, descending: bool) returns (r: Result<nat>)
    requires start <= |record|
    ensures r == TextEnd(record, start, descending)
  {
    var offset := start;
    while offset < |record| && At(record, offset, descending) >= 16
      invariant start <= offset <= |record|
      invariant SkipPrimary(record, offset, descending) == SkipPrimary(record, start, descending)
    {
      offset := offset + 1;
    }
    if offset >= |record| {
      return Rejected;
    }
    var nibble := offset * 2 + 1;
    while nibble < |record| * 2
      invariant ScanNibbles(record, nibble, descending) == TextEnd(record, start, descending)
    {
      var b := At(record, nibble / 2, descending);
      var value := if nibble % 2 == 0 then b / 16 else b % 16;
      if value == 0 {
        if nibble % 2 == 1 || b % 16 == 0 {
          return Accepted(nibble / 2 + 1);
        }
        return Rejected;
      }
      if !(2 <= value <= 10) {
        return Rejected;
      }
      nibble := nibble + 1;
    }
    return Rejected;
  }

  method MeasureBinary(record: seq<byte>, start: nat, descending: bool) returns (r: Result<nat>)
    ensures r == ScanChunks(record, start, 0, descending)
  {
    var offset := start;
    for chunk := 0 to 32
      invariant offset >= 0
      invariant ScanChunks(record, offset, chunk, descending) == ScanChunks(record, start, 0, descending)
    {
      if offset + 9 > |record| {
        return Rejected;
      }
      var suffix := record[offset + 8];
      offset := offset + 9;
      if suffix != 9 {
        var width: int := if descending then 255 - suffix else suffix;
        if !(1 <= width <= 8 && chunk * 8 + width <= 255) {
          return Rejected;
        }
        if exists i :: offset - 9 + width <= i < offset - 1 && record[i] != (if descending then 255 else 0) {
          return Rejected;
        }
        return Accepted(offset);
      }
    }
    return Rejected;
  }

  method MeasureRecord(record: seq<byte>, fields: seq<Field>) returns (r: Result<nat>)
    ensures r == RecordWidth(record, fields)
  {
    var offset := 0;
    for i := 0 to |fields|
      invariant offset >= 0
      invariant KeyEnd(record, 0, fields) == KeyEnd(record, offset, fields[i..])
    {
      var kind, descending := fields[i].kind, fields[i].descending;
      assert fields[i..][0] == fields[i] && fields[i..][1..] == fields[i + 1..];
      if offset >= |record| {
        return Rejected;
      }
      var marker := At(record, offset, descending);
      if (marker != 0 && marker != 127) || (kind == Boolean && marker == 0) {
        return Rejected;
      }
      offset := offset + 1;
      if marker != 0 {
        var next: Result<nat>;
        if kind == Text {
          next := MeasureText(record, offset, descending);
        } else if kind == Guid {
          next := if offset + 18 <= |record| && record[offset + 8] == 9 && At(record, offset + 17, descending) == 8
          then Accepted(offset + 18) else Rejected;
        } else if kind == Binary {
          next := MeasureBinary(record, offset, descending);
        } else {
          next := Accepted(offset + Size(kind));
        }
        if next.Rejected? {
          return Rejected;
        }
        offset := next.value;
      }
    }
    return Accepted(offset + 4);
  }

  // ----- Printed components are found exactly -----

  /** `part` is written at `offset`; nothing is said about what follows it. */
  predicate Written(record: seq<byte>, offset: nat, part: seq<byte>) {
    offset + |part| <= |record| && record[offset..offset + |part|] == part
  }

  lemma WrittenParts(record: seq<byte>, offset: nat, a: seq<byte>, b: seq<byte>)
    requires Written(record, offset, a + b)
    ensures Written(record, offset, a) && Written(record, offset + |a|, b)
  {
    var whole := record[offset..offset + |a + b|];
    assert record[offset..offset + |a|] == whole[..|a|] == a;
    assert record[offset + |a|..offset + |a| + |b|] == whole[|a|..] == b;
  }

  lemma WrittenAt(record: seq<byte>, offset: nat, part: seq<byte>, descending: bool, i: nat)
    requires Written(record, offset, Directed(part, descending)) && i < |part|
    ensures offset + i < |record| && At(record, offset + i, descending) == part[i]
  {
    var whole := record[offset..offset + |part|];
    assert record[offset + i] == whole[i];
  }

  lemma DirectedConcat(a: seq<byte>, b: seq<byte>, descending: bool)
    ensures Directed(a + b, descending) == Directed(a, descending) + Directed(b, descending)
  {
    ComplementConcat(a, b);
  }

  lemma {:induction false} SkipsExactly(record: seq<byte>, offset: nat, end: nat, descending: bool)
    requires offset <= end < |record| && At(record, end, descending) < 16
    requires forall i :: offset <= i < end ==> At(record, i, descending) >= 16
    ensures SkipPrimary(record, offset, descending) == end
    decreases end - offset
  {
    if offset < end {
      SkipsExactly(record, offset + 1, end, descending);
    }
  }

  lemma DirectedSize(b: byte, descending: bool)
    ensures |Directed([b], descending)| == 1
  {
  }

  lemma {:induction false} ScansPacked(record: seq<byte>, offset: nat, high: byte, rest: seq<byte>, descending: bool)
    requires high < 16 && forall i :: 0 <= i < |rest| ==> 2 <= rest[i] <= 10
    requires Written(record, offset, Directed(KeyOrder.Packed(high, rest), descending))
    ensures ScanNibbles(record, 2 * offset + 1, descending) == Accepted(offset + |KeyOrder.Packed(high, rest)|)
    decreases |rest|
  {
    hide Written, Directed, At;
    var packed := KeyOrder.Packed(high, rest);
    WrittenAt(record, offset, packed, descending, 0);
    assert (2 * offset + 1) / 2 == offset && (2 * offset + 2) / 2 == offset + 1;
    if rest != [] {
      assert packed[0] % 16 == rest[0];
      WrittenAt(record, offset, packed, descending, 1);
      if |rest| >= 2 {
        var tail := KeyOrder.Packed(rest[1], rest[2..]);
        assert packed == [packed[0]] + tail;
        DirectedConcat([packed[0]], tail, descending);
        WrittenParts(record, offset, Directed([packed[0]], descending), Directed(tail, descending));
        assert packed[1] / 16 == rest[1];
        DirectedSize(packed[0], descending);
        ScansPacked(record, offset + 1, rest[1], rest[2..], descending);
        assert 2 * (offset + 1) + 1 == 2 * offset + 3;
      }
    }
  }

  lemma TextEndExact(record: seq<byte>, offset: nat, w: Weight, packed: seq<byte>, descending: bool)
    requires ValidWeight(w) && packed == KeyOrder.Packed(0, w.accents)
    requires Written(record, offset, Directed(w.primary, descending))
    requires Written(record, offset + |w.primary|, Directed(packed, descending))
    ensures TextEnd(record, offset, descending) == Accepted(offset + |w.primary| + |packed|)
  {
    hide SkipPrimary, ScanNibbles, Directed;
    var end := offset + |w.primary|;
    forall i | offset <= i < end ensures At(record, i, descending) >= 16 {
      WrittenAt(record, offset, w.primary, descending, i - offset);
    }
    WrittenAt(record, end, packed, descending, 0);
    SkipsExactly(record, offset, end, descending);
    ScansPacked(record, end, 0, w.accents, descending);
  }

  lemma {:induction false} ScansChunks(record: seq<byte>, offset: nat, chunk: nat, raw: seq<byte>, descending: bool)
    requires raw != [] && chunk * 8 + |raw| <= 255
    requires Written(record, offset, Chunks(raw, descending))
    ensures ScanChunks(record, offset, chunk, descending) == Accepted(offset + |Chunks(raw, descending)|)
    decreases |raw|
  {
    if |raw| <= 8 {
      var padded := raw + Zeros(8 - |raw|);
      DirectedConcat(padded, [|raw|], descending);
      WrittenAt(record, offset, padded + [|raw|], descending, 8);
      forall i | offset + |raw| <= i < offset + 8 ensures record[i] == if descending then 255 else 0 {
        WrittenAt(record, offset, padded + [|raw|], descending, i - offset);
      }
    } else {
      var head, tail := Directed(raw[..8], descending) + [9], Chunks(raw[8..], descending);
      WrittenParts(record, offset, head, tail);
      assert record[offset + 8] == record[offset..offset + 9][8] == head[8];
      ScansChunks(record, offset + 9, chunk + 1, raw[8..], descending);
    }
  }

  lemma GuidExact(record: seq<byte>, offset: nat, raw: seq<byte>, descending: bool)
    requires |raw| == 16 && Written(record, offset, Chunks(raw, descending))
    ensures |Chunks(raw, descending)| == 18 && offset + 18 <= |record|
    ensures record[offset + 8] == 9 && At(record, offset + 17, descending) == 8
  {
    var head, tail := Directed(raw[..8], descending) + [9], Chunks(raw[8..], descending);
    assert Chunks(raw, descending) == head + tail;
    WrittenParts(record, offset, head, tail);
    assert record[offset + 8] == record[offset..offset + 9][8] == head[8];
    var last := raw[8..] + Zeros(0);
    DirectedConcat(last, [8], descending);
    WrittenAt(record, offset + 9, last + [8], descending, 8);
  }

  lemma TextWritten(record: seq<byte>, offset: nat, w: Weight, packed: seq<byte>, d: bool)
    requires ValidWeight(w) && packed == KeyOrder.Packed(0, w.accents)
    requires Written(record, offset, Directed(TextKey(w.primary, w.accents), d))
    ensures offset < |record| && At(record, offset, d) == 127
    ensures |TextKey(w.primary, w.accents)| == 1 + |w.primary| + |packed|
    ensures Written(record, offset + 1, Directed(w.primary, d))
    ensures Written(record, offset + 1 + |w.primary|, Directed(packed, d))
  {
    hide TextKey, KeyOrder.Packed, Written, Directed;
    KeyOrder.TextKeyParts(w);
    DirectedConcat([127], w.primary + packed, d);
    DirectedConcat(w.primary, packed, d);
    WrittenParts(record, offset, Directed([127], d), Directed(w.primary + packed, d));
    WrittenAt(record, offset, [127], d, 0);
    WrittenParts(record, offset + 1, Directed(w.primary, d), Directed(packed, d));
  }

  lemma TextComponentEnd(record: seq<byte>, offset: nat, w: Weight, field: Field)
    requires field.kind == Text && ValidWeight(w)
    requires Written(record, offset, Directed(TextKey(w.primary, w.accents), field.descending))
    ensures ComponentEnd(record, offset, field) == Accepted(offset + |TextKey(w.primary, w.accents)|)
  {
    hide TextEnd, TextKey, KeyOrder.Packed, Written, Directed;
    var packed := KeyOrder.Packed(0, w.accents);
    TextWritten(record, offset, w, packed, field.descending);
    TextEndExact(record, offset + 1, w, packed, field.descending);
  }

  lemma ChunkedComponentEnd(record: seq<byte>, offset: nat, data: seq<byte>, field: Field)
    requires (field.kind == Binary && 0 < |data| <= 255) || (field.kind == Guid && |data| == 16)
    requires Written(record, offset, Directed([127], field.descending) + Chunks(data, field.descending))
    ensures ComponentEnd(record, offset, field) == Accepted(offset + 1 + |Chunks(data, field.descending)|)
  {
    var d := field.descending;
    WrittenParts(record, offset, Directed([127], d), Chunks(data, d));
    WrittenAt(record, offset, [127], d, 0);
    if field.kind == Guid {
      GuidExact(record, offset + 1, data, d);
    } else {
      ScansChunks(record, offset + 1, 0, data, d);
    }
  }

  lemma FixedComponentEnd(record: seq<byte>, offset: nat, body: seq<byte>, field: Field)
    requires field.kind !in {Binary, Text, Guid} && |body| == Size(field.kind)
    requires Written(record, offset, Directed([127] + body, field.descending))
    ensures ComponentEnd(record, offset, field) == Accepted(offset + 1 + |body|)
  {
    WrittenAt(record, offset, [127] + body, field.descending, 0);
  }

  /**
   * The walk finds the end of every printed component from its own bytes alone: the record may hold
   * anything before and after it.
   */
  lemma ComponentEndExact(record: seq<byte>, offset: nat, value: Value, field: Field, table: Collation)
    requires ValidCollation(table) && Component(value, field, table).Accepted?
    requires Written(record, offset, Component(value, field, table).value)
    ensures ComponentEnd(record, offset, field) == Accepted(offset + |Component(value, field, table).value|)
  {
    hide Written, TextKey, Chunks, BigEndian, TextEnd, ScanChunks, CollationKey, Finite, Fits;
    match value
    case Null =>
      WrittenAt(record, offset, [0], field.descending, 0);
    case Flag(on) =>
      var body: seq<byte> := [if on then 0 else 255];
      assert [127] + body == [127, if on then 0 else 255];
      FixedComponentEnd(record, offset, body, field);
    case Number(n) =>
      FixedComponentEnd(record, offset, BigEndian(NumberBits(n, field.kind), Size(field.kind)), field);
    case Float(bits) =>
      FixedComponentEnd(record, offset, BigEndian(FloatBits(bits, field.kind), Size(field.kind)), field);
    case Raw(data) =>
      if field.kind == Text {
        CollationKeyValid(data, table);
        TextComponentEnd(record, offset, CollationKey(data, table).value, field);
      } else {
        ChunkedComponentEnd(record, offset, data, field);
      }
  }

  lemma {:induction false} KeyEndExact(record: seq<byte>, offset: nat, values: seq<Value>, fields: seq<Field>,
                                       table: Collation)
    requires ValidCollation(table) && |values| == |fields| && Key(values, fields, table).Accepted?
    requires Written(record, offset, Key(values, fields, table).value)
    ensures KeyEnd(record, offset, fields) == Accepted(offset + |Key(values, fields, table).value|)
    decreases |fields|
  {
    hide Component, ComponentEnd;
    if fields != [] {
      var first := Component(values[0], fields[0], table).value;
      var rest := Key(values[1..], fields[1..], table).value;
      WrittenParts(record, offset, first, rest);
      ComponentEndExact(record, offset, values[0], fields[0], table);
      KeyEndExact(record, offset + |first|, values[1..], fields[1..], table);
    }
  }

  /** Printing then measuring: the width of a record is its key plus the locator, whatever the locator is. */
  lemma RecordWidthExact(values: seq<Value>, fields: seq<Field>, table: Collation, suffix: seq<byte>)
    requires ValidCollation(table) && |values| == |fields| && Key(values, fields, table).Accepted?
    ensures var key := Key(values, fields, table).value;
            RecordWidth(key + suffix, fields) == Accepted(|key| + 4)
  {
    var key := Key(values, fields, table).value;
    assert (key + suffix)[0..0 + |key|] == key;
    KeyEndExact(key + suffix, 0, values, fields, table);
  }

  // ----- The width rule of the tree decoder -----

  /** The record-width requirement on one entry; branch entries carry four more bytes. */
  predicate WidthAccepted(entry: seq<byte>, fields: seq<Field>, branch: bool) {
    var extra := if branch then 4 else 0;
    || ((exists i :: 0 <= i < |fields| && fields[i].kind in {Binary, Text}) && |entry| == 259 + extra)
    || RecordWidth(entry, fields) == Accepted(|entry| - extra)
  }

  lemma FixedComponentBound(value: Value, field: Field, table: Collation)
    requires ValidCollation(table) && Component(value, field, table).Accepted?
    requires field.kind !in {Binary, Text}
    ensures |Component(value, field, table).value| <= 19
  {
    if value.Raw? {
      var raw := value.data;
      assert |Chunks(raw[8..], field.descending)| == 9;
    }
  }

  lemma {:induction false} FixedKeyBound(values: seq<Value>, fields: seq<Field>, table: Collation)
    requires ValidCollation(table) && |values| == |fields| && Key(values, fields, table).Accepted?
    requires forall i :: 0 <= i < |fields| ==> fields[i].kind !in {Binary, Text}
    ensures |Key(values, fields, table).value| <= 19 * |fields|
  {
    if fields != [] {
      FixedComponentBound(values[0], fields[0], table);
      FixedKeyBound(values[1..], fields[1..], table);
    }
  }

  /**
   * Every entry built from a row passes the width rule: at most ten key columns fit a definition, a key
   * of at most 255 bytes is measured exactly, and only Binary or Text columns can make a longer one.
   */
  lemma WrittenEntryAccepted(values: seq<Value>, fields: seq<Field>, table: Collation, locator: seq<byte>,
                             child: seq<byte>)
    requires ValidCollation(table) && |values| == |fields| <= 10 && Key(values, fields, table).Accepted?
    requires |locator| == 4 && |child| in {0, 4}
    ensures var entry := Shortened(Key(values, fields, table).value) + locator + child;
            WidthAccepted(entry, fields, |child| == 4)
  {
    hide Component, RecordWidth, Key, Code;
    var key := Key(values, fields, table).value;
    var entry := Shortened(key) + locator + child;
    if |key| <= 255 {
      RecordWidthExact(values, fields, table, locator + child);
      assert entry == key + (locator + child);
    } else {
      if forall i :: 0 <= i < |fields| ==> fields[i].kind !in {Binary, Text} {
        FixedKeyBound(values, fields, table);
        assert false;
      }
      assert |entry| == 259 + |child|;
    }
  }

  // ----- Records never look past their end -----

  lemma {:induction false} SkipPrimaryExtends(record: seq<byte>, more: seq<byte>, offset: nat, descending: bool)
    requires offset <= |record| && SkipPrimary(record, offset, descending) < |record|
    ensures SkipPrimary(record + more, offset, descending) == SkipPrimary(record, offset, descending)
    decreases |record| - offset
  {
    if offset < |record| && At(record, offset, descending) >= 16 {
      SkipPrimaryExtends(record, more, offset + 1, descending);
    }
  }

  lemma {:induction false} ScanNibblesExtends(record: seq<byte>, more: seq<byte>, nibble: nat, descending: bool)
    requires ScanNibbles(record, nibble, descending).Accepted?
    ensures ScanNibbles(record + more, nibble, descending) == ScanNibbles(record, nibble, descending)
    decreases 2 * |record| - nibble
  {
    var b := At(record, nibble / 2, descending);
    assert At(record + more, nibble / 2, descending) == b;
    var value := if nibble % 2 == 0 then b / 16 else b % 16;
    if value != 0 {
      ScanNibblesExtends(record, more, nibble + 1, descending);
    }
  }

  lemma {:induction false} ScanChunksExtends(record: seq<byte>, more: seq<byte>, offset: nat, chunk: nat,
                                             descending: bool)
    requires ScanChunks(record, offset, chunk, descending).Accepted?
    ensures ScanChunks(record + more, offset, chunk, descending) == ScanChunks(record, offset, chunk, descending)
    decreases 32 - chunk
  {
    assert forall i :: offset <= i < offset + 9 ==> (record + more)[i] == record[i];
    if record[offset + 8] == 9 {
      ScanChunksExtends(record, more, offset + 9, chunk + 1, descending);
    }
  }

  lemma ComponentEndExtends(record: seq<byte>, more: seq<byte>, offset: nat, field: Field)
    requires ComponentEnd(record, offset, field).Accepted?
    ensures ComponentEnd(record + more, offset, field) == ComponentEnd(record, offset, field)
  {
    hide SkipPrimary, ScanNibbles, ScanChunks;
    assert At(record + more, offset, field.descending) == At(record, offset, field.descending);
    if At(record, offset, field.descending) == 127 {
      match field.kind {
        case Text =>
          SkipPrimaryExtends(record, more, offset + 1, field.descending);
          ScanNibblesExtends(record, more, 2 * SkipPrimary(record, offset + 1, field.descending) + 1, field.descending);
        case Binary => ScanChunksExtends(record, more, offset + 1, 0, field.descending);
        case _ =>
      }
    }
  }

  lemma {:induction false} KeyEndExtends(record: seq<byte>, more: seq<byte>, offset: nat, fields: seq<Field>)
    requires KeyEnd(record, offset, fields).Accepted?
    ensures KeyEnd(record + more, offset, fields) == KeyEnd(record, offset, fields)
    decreases |fields|
  {
    hide ComponentEnd;
    if fields != [] {
      ComponentEndExtends(record, more, offset, fields[0]);
      KeyEndExtends(record, more, ComponentEnd(record, offset, fields[0]).value, fields[1..]);
    }
  }

  /** A record that passes as a leaf entry passes as a branch entry with any child page. */
  lemma WidthExtends(record: seq<byte>, fields: seq<Field>, child: seq<byte>)
    requires WidthAccepted(record, fields, false) && |child| == 4
    ensures WidthAccepted(record + child, fields, true)
  {
    hide KeyEnd;
    if RecordWidth(record, fields).Accepted? {
      KeyEndExtends(record, child, 0, fields);
    }
  }

  /** Records measured exactly are never prefixes of each other, so their order survives any continuation. */
  lemma MeasuredRecordsBelow(a: seq<byte>, b: seq<byte>, fields: seq<Field>)
    requires RecordWidth(a, fields) == Accepted(|a|) && RecordWidth(b, fields) == Accepted(|b|) && Less(a, b)
    ensures Below(a, b)
  {
    hide KeyEnd;
    LessCases(a, b);
    if a <= b {
      KeyEndExtends(a, b[|a|..], 0, fields);
      assert a + b[|a|..] == b;
    }
  }
}
