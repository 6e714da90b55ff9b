/**
 * The insertion patcher for a table with one ascending Long index (`patch_check`, arm `eof`, in
 * oracle/windows-dao/registry/indexed_boundary.py): reads the rows, rebuilds their index records with
 * `long_key`, and patches counts, leaf and data page.
 */
module LongInsertions {
  import opened Bytes
  import opened DataPages
  import opened KeyEncoding
  import opened AllocationMaps
  import opened IndexNodes
  import opened IndexKeys
  import opened Sorting
  import opened Observation
  import opened Appends
  import opened Insertions
  import opened RowFrames
  import Definitions
  import Links
  import RowLayout
  import FieldValues
  import KeyShortening
  import TableRows

  // ----- Long keys -----

  /** `long_key`, ascending. */
  function LongKey(n: int): (r: seq<byte>)
    ensures |r| == 5
  {
    [127] + BigEndian(FlipTop(n % Pow256(4), 4), 4)
  }

  lemma LongWord(n: int)
    requires Fits(n, Long)
    ensures NumberBits(n, Long) == FlipTop(n % Pow256(4), 4)
  {
    FieldValues.ModuloShift(if n < 0 then n + Pow256(4) else n, Pow256(4));
  }

  /** The key component of a Long column is `long_key` of its number, and no other number has it. */
  lemma LongComponent(v: Value, n: int, collation: Collation)
    requires ValidCollation(collation) && Fits(n, Long)
    ensures Component(v, Field(Long, false), collation) == Accepted(LongKey(n)) <==> v == Number(n)
  {
    hide BigEndian, FlipTop, Pow256, ValidCollation;
    LongWord(n);
    if v.Number? && Fits(v.n, Long) && Component(v, Field(Long, false), collation) == Accepted(LongKey(n)) {
      LongWord(v.n);
      SameLongKey(v.n, n);
    }
  }

  lemma SameLongKey(a: int, b: int)
    requires Fits(a, Long) && Fits(b, Long) && LongKey(a) == LongKey(b)
    ensures a == b
  {
    hide BigEndian, Pow256;
    assert LongKey(a)[1..] == BigEndian(FlipTop(a % Pow256(4), 4), 4)
        && LongKey(b)[1..] == BigEndian(FlipTop(b % Pow256(4), 4), 4);
    BigEndianRoundTrip(FlipTop(a % Pow256(4), 4), 4);
    BigEndianRoundTrip(FlipTop(b % Pow256(4), 4), 4);
    FieldValues.ModuloShift(if a < 0 then a + Pow256(4) else a, Pow256(4));
    FieldValues.ModuloShift(if b < 0 then b + Pow256(4) else b, Pow256(4));
  }

  /** One ascending Long column, nulls not ignored. */
  predicate LongIndex(columns: seq<TableRows.TableColumn>, x: PhysicalIndex) {
    && |x.keys| == 1 && x.keys[0].column < |columns| && !x.keys[0].descending && !x.ignoreNulls
    && columns[x.keys[0].column].kind == Long
  }

  /** The entry of a row of such an index. */
  lemma LongEntry(columns: seq<TableRows.TableColumn>, x: PhysicalIndex, rec: TableRows.Record, key: int,
                  collation: Collation)
    requires ValidCollation(collation) && LongIndex(columns, x) && |rec.values| == |columns| && Fits(key, Long)
    requires Locatable(rec.origin)
    ensures KeysInside(columns, x.keys)
    ensures RowEntries(columns, x, rec, collation) == Accepted([LongKey(key) + LocatorBytes(rec.origin)])
            <==> KeyValue(Long, rec.values[x.keys[0].column]) == Accepted(Number(key))
  {
    hide ValidCollation, Component, KeyValue, LongKey, LocatorBytes;
    var v, field := KeyValue(Long, rec.values[x.keys[0].column]), Field(Long, false);
    assert KeyValues(columns, x.keys[..0], rec) == Accepted([]);
    assert Fields(columns, x.keys) == [field];
    if v.Accepted? {
      assert KeyValues(columns, x.keys, rec) == Accepted([v.value]) by {
        assert [] + [v.value] == [v.value];
      }
      LongComponent(v.value, key, collation);
      OneComponent(v.value, field, collation);
      var component := Component(v.value, field, collation);
      if component.Accepted? {
        LongWidth(v.value, collation);
        assert |KeyShortening.Shortened(component.value)| == |component.value|;
        if component.value + LocatorBytes(rec.origin) == LongKey(key) + LocatorBytes(rec.origin) {
          SamePrefix(component.value, LongKey(key), LocatorBytes(rec.origin));
        }
      }
    }
  }

  lemma SamePrefix(a: seq<byte>, b: seq<byte>, tail: seq<byte>)
    requires a + tail == b + tail
    ensures a == b
  {
    assert |a| == |b|;
    assert a == (a + tail)[..|a|] && b == (b + tail)[..|a|];
  }

  lemma OneComponent(v: Value, field: Field, collation: Collation)
    requires ValidCollation(collation)
    ensures Key([v], [field], collation) == Component(v, field, collation)
  {
    hide Component, ValidCollation;
    var rest := Key([], [], collation);
    assert [v][1..] == [] && [field][1..] == [];
    if Component(v, field, collation).Accepted? {
      assert Component(v, field, collation).value + [] == Component(v, field, collation).value;
    }
  }

  lemma LongWidth(v: Value, collation: Collation)
    requires ValidCollation(collation) && Component(v, Field(Long, false), collation).Accepted?
    ensures |Component(v, Field(Long, false), collation).value| <= 255
  {
    hide ValidCollation, BigEndian;
  }

  // ----- The rows as index records -----

  /** The number in the key column, which `long_key` needs. */
  predicate HasNumber(x: PhysicalIndex, rec: TableRows.Record)
    requires |x.keys| == 1
  {
    && x.keys[0].column < |rec.values| && Locatable(rec.origin)
    && rec.values[x.keys[0].column].Plain? && rec.values[x.keys[0].column].value.Whole?
  }

  lemma SignedFits(field: seq<byte>)
    requires |field| == 4
    ensures Fits(FieldValues.Signed(field), Long)
  {
    hide FieldValues.Unsigned, Pow256;
    FieldValues.UnsignedRoundTrip(field);
  }

  /** Numbers decoded from a Long column have four bytes. */
  lemma DecodedNumberFits(data: seq<byte>, t: TableRows.Table, owned: TableRows.Owned, rec: TableRows.Record, j: nat)
    requires TableRows.RecordMeans(data, t, owned, rec) && j < |t.columns| && t.columns[j].kind == Long
    requires j < |rec.values| && rec.values[j].Plain? && rec.values[j].value.Whole?
    ensures Fits(rec.values[j].value.n, Long)
  {
    hide RowLayout.Fields, TableRows.Reaches, TableRows.RawOf, Links.Describes, Fits, FieldValues.Signed;
    var f := RowLayout.Fields(rec.raw, TableRows.Layouts(t.columns), t.highWater).value[j];
    assert TableRows.ValueMeans(data, t.columns[j], owned, f, rec.values[j]);
    SignedFits(f.data);
  }

  ghost predicate NumbersFit(t: Table, x: PhysicalIndex, records: seq<TableRows.Record>)
    requires LongIndex(t.columns, x)
  {
    && Complete(t.columns, records)
    && forall i :: 0 <= i < |records| && HasNumber(x, records[i]) ==>
         Fits(records[i].values[x.keys[0].column].value.n, Long)
  }

  lemma ReadNumbersFit(data: seq<byte>, roles: seq<Role>, t: Table, x: PhysicalIndex, records: seq<TableRows.Record>)
    requires TableNamed(roles, t) && RowsRead(data, roles, t, records) && LongIndex(t.columns, x)
    ensures NumbersFit(t, x, records)
  {
    hide DataPagesOf, MapPages, TableRows.LongPages, TableRows.Decoded, TableRows.RecordMeans, Fits;
    RowsAreComplete(data, roles, t, records);
    var stored := Stored(roles, t,
                         DataPagesOf(data, t.root, MapPages(data, roles[t.role].owned), PageCount(data)).value);
    var owned := TableRows.LongPages(data, LongMaps(roles, t)).value;
    TableRows.RowsAreMeant(data, stored, owned, records);
    forall i | 0 <= i < |records| && HasNumber(x, records[i])
      ensures Fits(records[i].values[x.keys[0].column].value.n, Long)
    {
      DecodedNumberFits(data, stored, owned, records[i], x.keys[0].column);
    }
  }

  lemma NumberedEntry(columns: seq<TableRows.TableColumn>, x: PhysicalIndex, rec: TableRows.Record,
                      collation: Collation)
    requires ValidCollation(collation) && LongIndex(columns, x) && |rec.values| == |columns| && HasNumber(x, rec)
    requires Fits(rec.values[x.keys[0].column].value.n, Long)
    ensures RowEntries(columns, x, rec, collation)
            == Accepted([LongKey(rec.values[x.keys[0].column].value.n) + LocatorBytes(rec.origin)])
  {
    hide RowEntries, LongKey, LocatorBytes, ValidCollation, Fits;
    LongEntry(columns, x, rec, rec.values[x.keys[0].column].value.n, collation);
  }

  /** The records of the old rows, as the patcher rebuilds them. */
  method LongRecords(t: Table, x: PhysicalIndex, records: seq<TableRows.Record>, ghost collation: Collation)
    returns (r: Result<seq<seq<byte>>>)
    requires ValidCollation(collation) && LongIndex(t.columns, x) && NumbersFit(t, x, records)
    ensures r.Accepted? <==> forall i :: 0 <= i < |records| ==> HasNumber(x, records[i])
    ensures r.Accepted? ==>
              r == Expected(t.columns, x, records, collation) && NineBytes(r.value) && |r.value| == |records|
  {
    hide RowEntries, ValidCollation, LongKey, LocatorBytes, Fits;
    var entries: seq<seq<byte>> := [];
    for i := 0 to |records|
      invariant forall k :: 0 <= k < i ==> HasNumber(x, records[k])
      invariant Expected(t.columns, x, records[..i], collation) == Accepted(entries) && NineBytes(entries)
      invariant |entries| == i
    {
      if !HasNumber(x, records[i]) {
        return Rejected;
      }
      var n := records[i].values[x.keys[0].column].value.n;
      assert records[..i + 1] == records[..i] + [records[i]];
      NumberedEntry(t.columns, x, records[i], collation);
      ExpectedSnoc(t.columns, x, records[..i], records[i], collation);
      entries := entries + [LongKey(n) + LocatorBytes(records[i].origin)];
    }
    assert records[..|records|] == records;
    return Accepted(entries);
  }

  // ----- Patching the pages -----

  function WithPage(data: seq<byte>, q: nat, image: Image): (r: seq<byte>)
    requires PageOf(data, q).Accepted?
    ensures |r| == |data|
  {
    data[..q * PAGE] + image + data[(q + 1) * PAGE..]
  }

  lemma WithPageReads(data: seq<byte>, q: nat, image: Image, p: nat)
    requires PageOf(data, q).Accepted?
    ensures PageOf(WithPage(data, q, image), p) == if p == q then Accepted(image) else PageOf(data, p)
  {
    var after := WithPage(data, q, image);
    if p == q {
      assert after[q * PAGE..(q + 1) * PAGE] == image;
    } else if PageOf(data, p).Accepted? {
      assert after[p * PAGE..(p + 1) * PAGE] == data[p * PAGE..(p + 1) * PAGE];
    }
  }

  /** The counts and the leaf. */
  method PatchPages(middle: seq<byte>, root: nat, leaf: nat, count: nat, entries: seq<seq<byte>>)
    returns (r: Result<seq<byte>>)
    requires PageOf(middle, root).Accepted? && PageOf(middle, root).value[0] == 2 && count < 0x1_0000_0000
    requires NineBytes(entries)
    ensures r.Accepted? <==> PageOf(middle, leaf).Accepted? && PlainLeaf(PageOf(middle, leaf).value) && |entries| <= 200
    ensures r.Accepted? ==> Patched(middle, r.value, root, leaf, count, entries)
  {
    hide PageOf, WithPage, Counted, Rebuilt;
    var found := PageOf(middle, leaf);
    if found.Rejected? {
      return Rejected;
    }
    var image := found.value;
    var page := new byte[PAGE](i requires 0 <= i < PAGE => image[i]);
    assert page[..] == image;
    var done := RebuildLeaf(page, entries);
    if done.Rejected? {
      return Rejected;
    }
    assert image[0] == image[..2][0] == 4;
    var counted := Counted(PageOf(middle, root).value, count);
    var first := WithPage(middle, root, counted);
    WithPageReads(middle, root, counted, leaf);
    var now: Image := page[..];
    var after := WithPage(first, leaf, now);
    forall q: nat
      ensures PageOf(after, q) == if q == leaf then Accepted(now) else if q == root then Accepted(counted)
              else PageOf(middle, q)
    {
      WithPageReads(middle, root, counted, q);
      WithPageReads(first, leaf, now, q);
    }
    return Accepted(after);
  }

  // ----- The patcher -----

  /** What the patcher demands of the original file and the rows it reads there. */
  ghost predicate LongInsertable(before: seq<byte>, roles: seq<Role>, t: Table, encoded: seq<byte>,
                                 records: seq<TableRows.Record>)
    requires TableNamed(roles, t)
  {
    && RowsRead(before, roles, t, records) && DeclaredCount(before, t.root) == Accepted(|records|) && |records| < 200
    && |t.indexes| == 1 && LongIndex(t.columns, t.indexes[0])
       && (forall i :: 0 <= i < |records| ==> HasNumber(t.indexes[0], records[i]))
    && Locatable(Locator(PageCount(before), 0)) && |encoded| <= 2036
    && AppendAdmitted(before, roles[t.role].owned, roles[t.role].available.value)
    && PageOf(before, t.indexes[0].root).Accepted? && PlainLeaf(PageOf(before, t.indexes[0].root).value)
  }

  lemma DefinitionRoot(data: seq<byte>, root: nat)
    requires DeclaredCount(data, root).Accepted?
    ensures Definitions.IsDefinitionPage(data, root) && PageOf(data, root).Accepted? && PageOf(data, root).value[0] == 2
    ensures root < PageCount(data)
  {
    hide Definitions.ReadDefinition, PageOf;
    CountIsRead(data, root);
    DefinitionKept(data, data, root);
    Definitions.PageInRange(data, root);
    var image := PageOf(data, root).value;
    assert image[0] == image[..4][0];
  }

  /** The index record of the new row. */
  function NewEntry(before: seq<byte>, key: int): (r: seq<byte>)
    requires Locatable(Locator(PageCount(before), 0))
    ensures |r| == 9
  {
    LongKey(key) + LocatorBytes(Locator(PageCount(before), 0))
  }

  /** `patch_check` for a row that needs a page of its own, with its Long key. */
  method InsertRow(before: seq<byte>, roles: seq<Role>, t: Table, encoded: seq<byte>, key: int,
                   ghost collation: Collation)
    returns (r: Result<seq<byte>>)
    requires TableNamed(roles, t) && ValidCollation(collation) && encoded != []
    requires DistinctSpots(roles[t.role].owned, roles[t.role].available.value)
    ensures r.Accepted? <==> exists records :: LongInsertable(before, roles, t, encoded, records)
    ensures r.Accepted? ==> forall records :: LongInsertable(before, roles, t, encoded, records) ==>
              RowInserted(before, r.value, roles, t, records, encoded, NewEntry(before, key), collation)
  {
    hide RowsRead, ValidCollation, AppendAdmitted, Appended, PageOf, PlainLeaf, DeclaredCount, Patched, Expected,
         SortBy, HasNumber, LongIndex, NewPage, PageCount, NumbersFit;
    var rows := ReadTable(before, roles, t);
    var declared := ReadCount(before, t.root);
    if rows.Rejected? || declared != Accepted(|rows.value|) || |rows.value| >= 200 || |t.indexes| != 1
       || !LongIndex(t.columns, t.indexes[0]) || !Locatable(Locator(PageCount(before), 0)) {
      return Rejected;
    }
    var records, x := rows.value, t.indexes[0];
    ReadNumbersFit(before, roles, t, x, records);
    DefinitionRoot(before, t.root);
    var entries := LongRecords(t, x, records, collation);
    var middle := AppendDataPage(before, roles[t.role].owned, roles[t.role].available.value, encoded, t.root);
    if entries.Rejected? || middle.Rejected? {
      return Rejected;
    }
    AppendKeepsPage(before, roles[t.role].owned, roles[t.role].available.value, encoded, t.root, t.root);
    var all := entries.value + [NewEntry(before, key)];
    SortedEntries(all);
    var plain := PageOf(before, x.root);
    if plain.Rejected? || !PlainLeaf(plain.value) {
      return Rejected;
    }
    PlainTag(plain.value);
    AppendKeepsPage(before, roles[t.role].owned, roles[t.role].available.value, encoded, t.root, x.root);
    r := PatchPages(middle.value, t.root, x.root, |records| + 1, SortBy(all, Self));
    RowsAreComplete(before, roles, t, records);
    LongKeysInside(t.columns, x);
    assert LongInsertable(before, roles, t, encoded, records);
    assert RowInserted(before, r.value, roles, t, records, encoded, NewEntry(before, key), collation);
    forall others | LongInsertable(before, roles, t, encoded, others) ensures others == records {
      RowsUnique(before, roles, t, others, records);
    }
  }

  lemma PlainTag(image: Image)
    requires PlainLeaf(image)
    ensures image[0] == 4
  {
    assert image[0] == image[..2][0];
  }

  lemma LongKeysInside(columns: seq<TableRows.TableColumn>, x: PhysicalIndex)
    requires LongIndex(columns, x)
    ensures KeysInside(columns, x.keys)
  {
  }

  /** The key column of the table's only index holds the number `key`. */
  ghost predicate HoldsKey(t: Table, rec: TableRows.Record, key: int) {
    && |t.indexes| == 1 && |t.indexes[0].keys| == 1 && t.indexes[0].keys[0].column < |rec.values|
    && KeyValue(Long, rec.values[t.indexes[0].keys[0].column]) == Accepted(Number(key))
  }

  /**
   * The patcher's result passes the observation exactly when the row it was given decodes without fragments and
   * holds the key it was given.
   */
  lemma InsertedRowObserved(before: seq<byte>, after: seq<byte>, roles: seq<Role>, tables: seq<Table>, deltas: seq<int>,
                            contents: seq<seq<TableRows.Record>>, collation: Collation, i: nat, encoded: seq<byte>,
                            key: int, grown: seq<seq<TableRows.Record>>)
    requires Named(roles, tables) && |deltas| == |contents| == |tables| && ValidCollation(collation) && i < |tables|
    requires deltas[i] == 0
    requires Fits(key, Long) && LongInsertable(before, roles, tables[i], encoded, contents[i])
    requires RowInserted(before, after, roles, tables[i], contents[i], encoded, NewEntry(before, key), collation)
    requires Observed(before, roles, tables, deltas, contents, collation)
    ensures var t := tables[i];
            var rec := AppendedRecord(before, roles, t, encoded);
            Observed(after, roles, tables, deltas, grown, collation)
            <==> && rec.Accepted? && SelfContained(rec.value)
                 && HoldsKey(t, rec.value, key)
                 && grown == contents[i := contents[i] + [rec.value]]
  {
    hide ValidCollation, Observed, RowInserted, AppendedRecord, RowEntries, LongKey, LocatorBytes, KeyValue,
         SelfContained, RowsRead, PageOf, PlainLeaf, AppendAdmitted, Fits;
    var t := tables[i];
    var rec := AppendedRecord(before, roles, t, encoded);
    InsertObserved(before, after, roles, tables, deltas, contents, collation, i, encoded, NewEntry(before, key), grown);
    RecordPlace(before, roles, t, encoded);
    if rec.Accepted? {
      LongEntry(t.columns, t.indexes[0], rec.value, key, collation);
    }
  }

  lemma RecordPlace(data: seq<byte>, roles: seq<Role>, t: Table, encoded: seq<byte>)
    requires TableNamed(roles, t)
    ensures var rec := AppendedRecord(data, roles, t, encoded);
            rec.Accepted? ==> |rec.value.values| == |t.columns| && rec.value.origin == Locator(PageCount(data), 0)
  {
  }
}
