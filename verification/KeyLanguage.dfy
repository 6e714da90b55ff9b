/**
 * What the width parser of the tree decoder accepts (`_record_width` in oracle/windows-dao/structure.py): exactly the
 * sequences of components that the key encoder can print, in the column order, before a locator.
 */
module KeyLanguage {
  import opened Bytes
  import opened KeyEncoding
  import opened KeyParsing
  import KeyOrder

  // ----- Printed components -----

  ghost predicate PrintedText(part: seq<byte>, w: Weight, descending: bool) {
    ValidWeight(w) && part == Directed(TextKey(w.primary, w.accents), descending)
  }

  predicate PrintedChunks(part: seq<byte>, raw: seq<byte>, descending: bool) {
    raw != [] && part == Directed([127], descending) + Chunks(raw, descending)
  }

  /** The bytes are a component of the column: null, or the marker and what its kind prints. */
  ghost predicate Printed(part: seq<byte>, field: Field) {
    || (field.kind != Boolean && part == Directed([0], field.descending))
    || match field.kind
       case Text => exists w :: PrintedText(part, w, field.descending)
       case Binary => exists raw :: |raw| <= 255 && PrintedChunks(part, raw, field.descending)
       case Guid => exists raw :: |raw| == 16 && PrintedChunks(part, raw, field.descending)
       case _ => exists body :: |body| == Size(field.kind) && part == Directed([127] + body, field.descending)
  }

  // ----- Reading back what was scanned -----

  /** Bytes of a record with the direction removed. */
  function Undirected(record: seq<byte>, from: nat, to: nat, descending: bool): (r: seq<byte>)
    requires from <= to <= |record|
    ensures |r| == to - from
    ensures forall i :: 0 <= i < |r| ==> r[i] == At(record, from + i, descending)
  {
    Directed(record[from..to], descending)
  }

  lemma UndirectedBack(record: seq<byte>, from: nat, to: nat, descending: bool)
    requires from <= to <= |record|
    ensures Directed(Undirected(record, from, to, descending), descending) == record[from..to]
  {
  }

  /** Scanned chunks are the chunks of some value. */
  lemma {:induction false} ScannedChunks(record: seq<byte>, offset: nat, chunk: nat, descending: bool)
    returns (raw: seq<byte>)
    requires ScanChunks(record, offset, chunk, descending).Accepted?
    ensures var end := ScanChunks(record, offset, chunk, descending).value;
            && raw != [] && chunk * 8 + |raw| <= 255 && offset <= end <= |record|
            && record[offset..end] == Chunks(raw, descending)
    decreases 32 - chunk
  {
    hide At;
    if record[offset + 8] == 9 {
      var rest := ScannedChunks(record, offset + 9, chunk + 1, descending);
      var head := Undirected(record, offset, offset + 8, descending);
      UndirectedBack(record, offset, offset + 8, descending);
      raw := head + rest;
      assert raw[..8] == head && raw[8..] == rest;
      var end := ScanChunks(record, offset, chunk, descending).value;
      assert record[offset..end] == record[offset..offset + 8] + [9] + record[offset + 9..end];
    } else {
      raw := LastChunk(record, offset, chunk, descending);
    }
  }

  lemma LastChunk(record: seq<byte>, offset: nat, chunk: nat, descending: bool) returns (raw: seq<byte>)
    requires ScanChunks(record, offset, chunk, descending).Accepted? && record[offset + 8] != 9
    ensures 1 <= |raw| <= 8 && chunk * 8 + |raw| <= 255 && offset + 9 <= |record|
    ensures ScanChunks(record, offset, chunk, descending) == Accepted(offset + 9)
    ensures record[offset..offset + 9] == Chunks(raw, descending)
  {
    var width: nat := At(record, offset + 8, descending);
    raw := Undirected(record, offset, offset + width, descending);
    var padded := raw + Zeros(8 - width);
    var spelled := Directed(padded, descending) + Directed([width], descending);
    forall i | 0 <= i < 9 ensures record[offset..offset + 9][i] == spelled[i] {
    }
    assert record[offset..offset + 9] == spelled;
  }

  ghost predicate Accents(rest: seq<byte>) {
    forall i :: 0 <= i < |rest| ==> 2 <= rest[i] <= 10
  }

  lemma PackedCases(b: byte, next: byte, more: seq<byte>)
    requires Accents(more)
    ensures b % 16 == 0 ==> KeyOrder.Packed(b / 16, []) == [b]
    ensures KeyOrder.Packed(b / 16, [b % 16]) == [b, 0]
    ensures KeyOrder.Packed(b / 16, [b % 16, next / 16] + more) == [b] + KeyOrder.Packed(next / 16, more)
  {
    var rest := [b % 16, next / 16] + more;
    assert rest[2..] == more && rest[0] == b % 16 && rest[1] == next / 16;
  }

  /** Scanned nibbles are the packing of some accents. */
  lemma {:induction false} ScannedNibbles(record: seq<byte>, offset: nat, descending: bool) returns (rest: seq<byte>)
    requires ScanNibbles(record, 2 * offset + 1, descending).Accepted?
    ensures offset < |record| && Accents(rest)
    ensures var end := ScanNibbles(record, 2 * offset + 1, descending).value;
            && offset < end <= |record|
            && Undirected(record, offset, end, descending) == KeyOrder.Packed(At(record, offset, descending) / 16, rest)
    decreases |record| - offset
  {
    hide At, ScanNibbles, KeyOrder.Packed, Undirected;
    OneNibble(record, 2 * offset + 1, descending);
    assert (2 * offset + 1) / 2 == offset && (2 * offset + 1) % 2 == 1;
    var b := At(record, offset, descending);
    var end := ScanNibbles(record, 2 * offset + 1, descending).value;
    PackedCases(b, 0, []);
    if b % 16 == 0 {
      rest := [];
      assert Undirected(record, offset, end, descending) == [b];
    } else {
      OneNibble(record, 2 * offset + 2, descending);
      assert (2 * offset + 2) / 2 == offset + 1 && (2 * offset + 2) % 2 == 0;
      var next := At(record, offset + 1, descending);
      if next / 16 == 0 {
        rest := [b % 16];
        assert Undirected(record, offset, end, descending) == [b, next];
      } else {
        var more := ScannedNibbles(record, offset + 1, descending);
        rest := [b % 16, next / 16] + more;
        PackedCases(b, next, more);
        assert Undirected(record, offset, end, descending) == [b] + Undirected(record, offset + 1, end, descending);
      }
    }
  }

  lemma OneNibble(record: seq<byte>, nibble: nat, descending: bool)
    requires ScanNibbles(record, nibble, descending).Accepted?
    ensures nibble < 2 * |record| && nibble / 2 < |record|
    ensures var b := At(record, nibble / 2, descending);
            var value := if nibble % 2 == 0 then b / 16 else b % 16;
            if value == 0 then
              (nibble % 2 == 1 || b == 0) && ScanNibbles(record, nibble, descending) == Accepted(nibble / 2 + 1)
            else
              2 <= value <= 10 && ScanNibbles(record, nibble + 1, descending).Accepted?
              && ScanNibbles(record, nibble + 1, descending) == ScanNibbles(record, nibble, descending)
  {
  }

  lemma {:induction false} SkippedPrimary(record: seq<byte>, offset: nat, descending: bool)
    requires offset <= |record|
    ensures var end := SkipPrimary(record, offset, descending);
            && (forall i :: offset <= i < end ==> At(record, i, descending) >= 16)
            && (end < |record| ==> At(record, end, descending) < 16)
    decreases |record| - offset
  {
    hide At;
    if offset < |record| && At(record, offset, descending) >= 16 {
      SkippedPrimary(record, offset + 1, descending);
    }
  }

  /** A scanned Text component is the key of some weights. */
  lemma ScannedText(record: seq<byte>, offset: nat, descending: bool) returns (w: Weight)
    requires offset < |record| && At(record, offset, descending) == 127
    requires TextEnd(record, offset + 1, descending).Accepted?
    ensures var end := TextEnd(record, offset + 1, descending).value;
            offset < end <= |record| && PrintedText(record[offset..end], w, descending)
  {
    hide At, SkipPrimary, ScanNibbles, KeyOrder.Packed, TextKey, Directed, Undirected;
    var middle := SkipPrimary(record, offset + 1, descending);
    var end := TextEnd(record, offset + 1, descending).value;
    SkippedPrimary(record, offset + 1, descending);
    var accents := ScannedNibbles(record, middle, descending);
    var primary := Undirected(record, offset + 1, middle, descending);
    w := Weight(primary, accents);
    KeyOrder.TextKeyParts(w);
    var whole := Undirected(record, offset, end, descending);
    assert whole == [127] + (primary + Undirected(record, middle, end, descending));
    UndirectedBack(record, offset, end, descending);
  }

  // ----- Exactly the printed components -----

  lemma GuidScanned(record: seq<byte>, offset: nat, descending: bool) returns (raw: seq<byte>)
    requires offset + 18 <= |record| && record[offset + 8] == 9 && At(record, offset + 17, descending) == 8
    ensures |raw| == 16 && record[offset..offset + 18] == Chunks(raw, descending)
  {
    hide At, Undirected;
    var a, b := Undirected(record, offset, offset + 8, descending),
        Undirected(record, offset + 9, offset + 17, descending);
    UndirectedBack(record, offset, offset + 8, descending);
    UndirectedBack(record, offset + 9, offset + 17, descending);
    MarkerBack(record, offset + 17, descending, 8);
    raw := a + b;
    assert raw[..8] == a && raw[8..] == b && b + Zeros(0) == b;
    assert Chunks(b, descending) == record[offset + 9..offset + 17] + record[offset + 17..offset + 18];
    assert record[offset..offset + 18]
        == record[offset..offset + 8] + [9] + (record[offset + 9..offset + 17] + record[offset + 17..offset + 18]);
  }

  lemma MarkerBack(record: seq<byte>, offset: nat, descending: bool, marker: byte)
    requires offset < |record| && At(record, offset, descending) == marker
    ensures Directed([marker], descending) == record[offset..offset + 1]
  {
  }

  lemma ChunksScanned(record: seq<byte>, offset: nat, field: Field, end: nat)
    requires field.kind in {Binary, Guid} && offset < |record| && At(record, offset, field.descending) == 127
    requires ComponentEnd(record, offset, field) == Accepted(end) && end <= |record|
    ensures offset < end && Printed(record[offset..end], field)
  {
    hide At, ScanChunks, Chunks, Directed;
    var d := field.descending;
    MarkerBack(record, offset, d, 127);
    var raw;
    if field.kind == Binary {
      raw := ScannedChunks(record, offset + 1, 0, d);
    } else {
      raw := GuidScanned(record, offset + 1, d);
    }
    assert record[offset..end] == record[offset..offset + 1] + record[offset + 1..end];
    assert PrintedChunks(record[offset..end], raw, d);
  }

  lemma FixedScanned(record: seq<byte>, offset: nat, field: Field, end: nat)
    requires field.kind !in {Binary, Text, Guid} && offset < |record| && At(record, offset, field.descending) == 127
    requires end == offset + 1 + Size(field.kind) <= |record|
    ensures Printed(record[offset..end], field)
  {
    hide At, Directed, Undirected;
    var whole := Undirected(record, offset, end, field.descending);
    UndirectedBack(record, offset, end, field.descending);
    assert whole == [127] + whole[1..] && |whole[1..]| == Size(field.kind);
  }

  /** Whatever the parser takes for a component is one. */
  lemma ScannedIsPrinted(record: seq<byte>, offset: nat, field: Field, end: nat)
    requires ComponentEnd(record, offset, field) == Accepted(end) && end <= |record|
    ensures offset < end && Printed(record[offset..end], field)
  {
    hide At, TextEnd, ScanChunks, TextKey, Chunks, Directed;
    var d := field.descending;
    if At(record, offset, d) != 127 {
      MarkerBack(record, offset, d, 0);
    } else if field.kind == Text {
      var w := ScannedText(record, offset, d);
    } else if field.kind in {Binary, Guid} {
      ChunksScanned(record, offset, field, end);
    } else {
      FixedScanned(record, offset, field, end);
    }
  }

  /** And every printed component is taken for one, in full. */
  lemma PrintedIsScanned(record: seq<byte>, offset: nat, field: Field, end: nat)
    requires offset <= end <= |record| && Printed(record[offset..end], field)
    ensures ComponentEnd(record, offset, field) == Accepted(end)
  {
    hide At, ComponentEnd, TextKey, Chunks, Directed;
    var part, d := record[offset..end], field.descending;
    if field.kind != Boolean && part == Directed([0], d) {
      NullScanned(record, offset, field, end);
    } else if field.kind == Text {
      var w :| PrintedText(part, w, d);
      assert Written(record, offset, part);
      TextComponentEnd(record, offset, w, field);
    } else if field.kind in {Binary, Guid} {
      var raw :| (field.kind == Guid ==> |raw| == 16) && |raw| <= 255 && PrintedChunks(part, raw, d);
      assert Written(record, offset, part);
      ChunkedComponentEnd(record, offset, raw, field);
    } else {
      var body :| |body| == Size(field.kind) && part == Directed([127] + body, d);
      assert Written(record, offset, part);
      FixedComponentEnd(record, offset, body, field);
    }
  }

  lemma NullScanned(record: seq<byte>, offset: nat, field: Field, end: nat)
    requires offset <= end <= |record| && field.kind != Boolean
    requires record[offset..end] == Directed([0], field.descending)
    ensures ComponentEnd(record, offset, field) == Accepted(end)
  {
    assert Written(record, offset, Directed([0], field.descending));
    WrittenAt(record, offset, [0], field.descending, 0);
  }

  // ----- Keys and records -----

  /** The bytes are one printed component per column, in order. */
  ghost predicate PrintedKey(key: seq<byte>, fields: seq<Field>)
    decreases |fields|
  {
    if fields == [] then key == []
    else exists k :: 0 <= k <= |key| && Printed(key[..k], fields[0]) && PrintedKey(key[k..], fields[1..])
  }

  lemma {:induction false} EndsAscend(record: seq<byte>, offset: nat, fields: seq<Field>)
    requires KeyEnd(record, offset, fields).Accepted?
    ensures offset <= KeyEnd(record, offset, fields).value
    decreases |fields|
  {
    hide ComponentEnd;
    if fields != [] {
      var next := ComponentEnd(record, offset, fields[0]).value;
      EndsAscend(record, next, fields[1..]);
      ComponentAdvances(record, offset, fields[0]);
    }
  }

  lemma ComponentAdvances(record: seq<byte>, offset: nat, field: Field)
    requires ComponentEnd(record, offset, field).Accepted?
    ensures offset < ComponentEnd(record, offset, field).value
  {
    hide At, ScanChunks, ScanNibbles, SkipPrimary;
    var d := field.descending;
    if At(record, offset, d) == 127 && field.kind == Binary {
      var raw := ScannedChunks(record, offset + 1, 0, d);
    }
    if At(record, offset, d) == 127 && field.kind == Text {
      var w := ScannedText(record, offset, d);
    }
  }

  /** Where a component ends inside a key, and what follows it. */
  lemma Cut(record: seq<byte>, offset: nat, next: nat, end: nat)
    requires offset <= next <= end <= |record|
    ensures record[offset..end][..next - offset] == record[offset..next]
    ensures record[offset..end][next - offset..] == record[next..end]
  {
  }

  /** The parser finds `end` inside the record exactly when the bytes up to it are a printed key. */
  lemma {:induction false} KeyEndExactly(record: seq<byte>, offset: nat, fields: seq<Field>, end: nat)
    requires offset <= end <= |record|
    ensures KeyEnd(record, offset, fields) == Accepted(end) <==> PrintedKey(record[offset..end], fields)
    decreases |fields|
  {
    hide ComponentEnd, Printed;
    var key := record[offset..end];
    if fields != [] {
      if KeyEnd(record, offset, fields) == Accepted(end) {
        var next := ComponentEnd(record, offset, fields[0]).value;
        EndsAscend(record, next, fields[1..]);
        ScannedIsPrinted(record, offset, fields[0], next);
        KeyEndExactly(record, next, fields[1..], end);
        Cut(record, offset, next, end);
        assert Printed(key[..next - offset], fields[0]) && PrintedKey(key[next - offset..], fields[1..]);
      } else if PrintedKey(key, fields) {
        var k :| 0 <= k <= |key| && Printed(key[..k], fields[0]) && PrintedKey(key[k..], fields[1..]);
        var next := offset + k;
        Cut(record, offset, next, end);
        PrintedIsScanned(record, offset, fields[0], next);
        KeyEndExactly(record, next, fields[1..], end);
      }
    }
  }

  /**
   * The width rule: an entry passes exactly when it is a printed key with a locator and, on a branch, a child page,
   * or when it has the one length that a shortened key of Text or Binary columns gives.
   */
  lemma WidthExactly(entry: seq<byte>, fields: seq<Field>, branch: bool)
    ensures WidthAccepted(entry, fields, branch) <==>
            var tail := if branch then 8 else 4;
            || (|entry| >= tail && PrintedKey(entry[..|entry| - tail], fields))
            || (|entry| == 255 + tail && exists i :: 0 <= i < |fields| && fields[i].kind in {Binary, Text})
  {
    hide KeyEnd, PrintedKey;
    var tail := if branch then 8 else 4;
    if |entry| >= tail {
      KeyEndExactly(entry, 0, fields, |entry| - tail);
      assert entry[0..|entry| - tail] == entry[..|entry| - tail];
    }
  }
}
