/**
 * Index entries of decoded rows (`index_key` and the entry loop of `observe` in
 * oracle/windows-dao/structure.py): which value of a row enters a key, which rows an index skips, and the
 * entry of every other row.
 */
module IndexKeys {
  import opened Bytes
  import opened DataPages
  import opened KeyEncoding
  import opened BuiltRecords
  import FieldValues
  import KeyShortening
  import TableRows

  datatype KeyColumn = KeyColumn(column: nat, descending: bool)

  /** A physical index of a table: its map among the roles, its root, its key columns and its null rule. */
  datatype PhysicalIndex = PhysicalIndex(role: nat, root: nat, keys: seq<KeyColumn>, ignoreNulls: bool)

  // ----- One value -----

  /** The conversion at the start of `index_key`; a value that the key model does not take is refused. */
  function KeyValue(kind: Kind, v: TableRows.Value): (r: Result<Value>) {
    match v
    case Long(_, _, _) => Rejected
    case Plain(Missing) => Accepted(Null)
    case Plain(On(on)) => Accepted(Flag(on))
    case Plain(Whole(n)) => Accepted(Number(n))
    case Plain(Days(bits)) => Accepted(Float(FieldValues.Unsigned(bits)))
    case Plain(Octets(data)) => Accepted(Raw(data))
    case Plain(Characters(text)) => if kind == Text then Accepted(Raw(FieldValues.Encoded(text))) else Rejected
    case Plain(Unmodeled(data)) =>
      if kind == Text then Accepted(Raw(data))
      else if kind in {Integer, Long, Currency} then Accepted(Number(FieldValues.Signed(data)))
      else Rejected
  }

  /** The key value of a present field, read from its bytes. */
  function StoredKeyValue(kind: Kind, field: seq<byte>): (r: Result<Value>) {
    match kind
    case Text | Binary => Accepted(Raw(field))
    case Integer | Long | Currency => Accepted(Number(FieldValues.Signed(field)))
    case Byte => if |field| == 1 then Accepted(Number(field[0])) else Rejected
    case Date => if FieldValues.FiniteDate(field) then Accepted(Float(FieldValues.Unsigned(field))) else Rejected
    case Boolean | Single | Double | Guid => Rejected
  }

  /** Decoding a field and converting it back loses nothing: keys are made from the stored bytes. */
  lemma KeyIsOfStoredBytes(kind: Kind, field: seq<byte>)
    ensures KeyValue(kind, TableRows.Plain(FieldValues.DecodeValue(kind, field))) == StoredKeyValue(kind, field)
  {
    hide FieldValues.Signed, FieldValues.Encoded;
    if kind == Text && FieldValues.Decodable(field) {
      FieldValues.TextRoundTrip(field);
    } else if kind == Byte && |field| == 1 {
      assert FieldValues.Unsigned(field[1..]) == 0;
    }
  }

  // ----- One row -----

  predicate KeysInside(columns: seq<TableRows.TableColumn>, keys: seq<KeyColumn>) {
    forall k :: 0 <= k < |keys| ==> keys[k].column < |columns|
  }

  function Fields(columns: seq<TableRows.TableColumn>, keys: seq<KeyColumn>): (r: seq<Field>)
    requires KeysInside(columns, keys)
    ensures |r| == |keys|
  {
    seq(|keys|, k requires 0 <= k < |keys| => Field(columns[keys[k].column].kind, keys[k].descending))
  }

  function KeyValues(columns: seq<TableRows.TableColumn>, keys: seq<KeyColumn>, rec: TableRows.Record)
    : (r: Result<seq<Value>>)
    requires KeysInside(columns, keys) && |rec.values| == |columns|
    ensures r.Accepted? ==> |r.value| == |keys|
  {
    if keys == [] then Accepted([])
    else
      var n := |keys| - 1;
      var earlier :- KeyValues(columns, keys[..n], rec);
      var last :- KeyValue(columns[keys[n].column].kind, rec.values[keys[n].column]);
      Accepted(earlier + [last])
  }

  /** A key column of the row is null. */
  predicate HasNull(keys: seq<KeyColumn>, rec: TableRows.Record)
    requires forall k :: 0 <= k < |keys| ==> keys[k].column < |rec.values|
  {
    exists k :: 0 <= k < |keys| && rec.values[keys[k].column] == TableRows.Plain(FieldValues.Missing)
  }

  predicate Skips(x: PhysicalIndex, rec: TableRows.Record)
    requires forall k :: 0 <= k < |x.keys| ==> x.keys[k].column < |rec.values|
  {
    x.ignoreNulls && HasNull(x.keys, rec)
  }

  /** A page of three bytes and a row of one. */
  predicate Locatable(w: Locator) {
    w.page < 0x100_0000 && w.row < 256
  }

  function LocatorBytes(w: Locator): (r: seq<byte>)
    requires Locatable(w)
    ensures |r| == 4
  {
    BigEndian(w.page, 3) + [w.row]
  }

  function KeyRow(columns: seq<TableRows.TableColumn>, keys: seq<KeyColumn>, rec: TableRows.Record)
    : (r: Result<IndexedRow>)
    requires KeysInside(columns, keys) && |rec.values| == |columns|
    ensures r.Accepted? ==> |r.value.values| == |keys| && |r.value.locator| == 4
  {
    var values :- KeyValues(columns, keys, rec);
    if Locatable(rec.origin) then Accepted(IndexedRow(values, LocatorBytes(rec.origin))) else Rejected
  }

  /** What one row adds to an index: nothing when skipped, otherwise its one entry. */
  function RowEntries(columns: seq<TableRows.TableColumn>, x: PhysicalIndex, rec: TableRows.Record, table: Collation)
    : (r: Result<seq<seq<byte>>>)
    requires ValidCollation(table) && KeysInside(columns, x.keys) && |rec.values| == |columns|
    ensures r.Accepted? ==> |r.value| == if Skips(x, rec) then 0 else 1
  {
    if Skips(x, rec) then Accepted([])
    else
      var row :- KeyRow(columns, x.keys, rec);
      var key :- Key(row.values, Fields(columns, x.keys), table);
      Accepted([KeyShortening.Shortened(key) + row.locator])
  }

  /** The entry of a row is the entry of its key values, so the results on entries of indexed rows apply to it. */
  lemma RowEntryIsIndexed(columns: seq<TableRows.TableColumn>, x: PhysicalIndex, rec: TableRows.Record,
                          table: Collation)
    requires ValidCollation(table) && KeysInside(columns, x.keys) && |rec.values| == |columns| && !Skips(x, rec)
    ensures var row := KeyRow(columns, x.keys, rec);
            && (RowEntries(columns, x, rec, table).Accepted? <==>
                  row.Accepted? && Indexed(row.value, Fields(columns, x.keys), table))
            && (RowEntries(columns, x, rec, table).Accepted? ==>
                  RowEntries(columns, x, rec, table).value == [EntryOf(row.value, Fields(columns, x.keys), table)])
  {
    hide Key, KeyValues, ValidCollation;
  }

  /** An index that ignores nulls leaves out exactly the rows with a null in some key column. */
  lemma SkippedRows(
    columns: seq<TableRows.TableColumn>, x: PhysicalIndex, rec: TableRows.Record, table: Collation)
    requires ValidCollation(table) && KeysInside(columns, x.keys) && |rec.values| == |columns|
    ensures RowEntries(columns, x, rec, table) == Accepted([]) <==>
            x.ignoreNulls && exists k :: 0 <= k < |x.keys|
                               && rec.values[x.keys[k].column] == TableRows.Plain(FieldValues.Missing)
    ensures RowEntries(columns, x, rec, table).Accepted? ==> |RowEntries(columns, x, rec, table).value| <= 1
  {
    hide Key, KeyRow, ValidCollation;
  }

  // ----- All rows -----

  ghost predicate Complete(columns: seq<TableRows.TableColumn>, records: seq<TableRows.Record>) {
    forall i :: 0 <= i < |records| ==> |records[i].values| == |columns|
  }

  /** The entries an index must hold, in row order. */
  function Expected(columns: seq<TableRows.TableColumn>, x: PhysicalIndex, records: seq<TableRows.Record>,
                    table: Collation)
    : (r: Result<seq<seq<byte>>>)
    requires ValidCollation(table) && KeysInside(columns, x.keys) && Complete(columns, records)
  {
    if records == [] then Accepted([])
    else
      var n := |records| - 1;
      var earlier :- Expected(columns, x, records[..n], table);
      var last :- RowEntries(columns, x, records[n], table);
      Accepted(earlier + last)
  }

  lemma {:induction false} ExpectedPrefix(
    columns: seq<TableRows.TableColumn>, x: PhysicalIndex, records: seq<TableRows.Record>, table: Collation, k: nat)
    requires ValidCollation(table) && KeysInside(columns, x.keys) && Complete(columns, records) && k < |records|
    requires RowEntries(columns, x, records[k], table).Rejected?
    ensures Expected(columns, x, records, table).Rejected?
  {
    hide RowEntries, ValidCollation;
    if k < |records| - 1 {
      ExpectedPrefix(columns, x, records[..|records| - 1], table, k);
    }
  }

  /** An entry is expected exactly when it is the entry of a row that the index does not skip. */
  lemma {:induction false} ExpectedExactly(columns: seq<TableRows.TableColumn>, x: PhysicalIndex,
                                           records: seq<TableRows.Record>, table: Collation, entry: seq<byte>)
    requires ValidCollation(table) && KeysInside(columns, x.keys) && Complete(columns, records)
    requires Expected(columns, x, records, table).Accepted?
    ensures entry in Expected(columns, x, records, table).value <==>
            exists i :: 0 <= i < |records| && RowEntries(columns, x, records[i], table) == Accepted([entry])
  {
    hide RowEntries, ValidCollation;
    if records != [] {
      var n := |records| - 1;
      var rest := records[..n];
      ExpectedExactly(columns, x, rest, table, entry);
      OneEntryAtMost(columns, x, records[n], table);
      var earlier, last := Expected(columns, x, rest, table).value, RowEntries(columns, x, records[n], table).value;
      assert forall i :: 0 <= i < n ==> rest[i] == records[i];
      if entry in last {
        assert last == [entry];
      } else if entry in earlier {
        var i :| 0 <= i < n && RowEntries(columns, x, rest[i], table) == Accepted([entry]);
        assert RowEntries(columns, x, records[i], table) == Accepted([entry]);
      } else if i :| 0 <= i < |records| && RowEntries(columns, x, records[i], table) == Accepted([entry]) {
        assert false;
      }
    }
  }

  lemma OneEntryAtMost(columns: seq<TableRows.TableColumn>, x: PhysicalIndex, rec: TableRows.Record, table: Collation)
    requires ValidCollation(table) && KeysInside(columns, x.keys) && |rec.values| == |columns|
    ensures var r := RowEntries(columns, x, rec, table); r.Accepted? ==> |r.value| <= 1
  {
  }

  lemma ExpectedSnoc(columns: seq<TableRows.TableColumn>, x: PhysicalIndex, records: seq<TableRows.Record>,
                     rec: TableRows.Record, table: Collation)
    requires ValidCollation(table) && KeysInside(columns, x.keys) && Complete(columns, records)
    requires |rec.values| == |columns|
    ensures Complete(columns, records + [rec])
    ensures var earlier, last := Expected(columns, x, records, table), RowEntries(columns, x, rec, table);
            Expected(columns, x, records + [rec], table)
            == if earlier.Accepted? && last.Accepted? then Accepted(earlier.value + last.value) else Rejected
  {
    hide RowEntries, ValidCollation;
    assert (records + [rec])[..|records|] == records;
  }

  /** The loop of `observe` over the decoded rows of a table. */
  method BuildEntries(columns: seq<TableRows.TableColumn>, x: PhysicalIndex, records: seq<TableRows.Record>,
                      table: Collation)
    returns (r: Result<seq<seq<byte>>>)
    requires ValidCollation(table) && KeysInside(columns, x.keys) && Complete(columns, records)
    ensures r == Expected(columns, x, records, table)
  {
    hide Key, ValidCollation, KeyRow, Skips;
    var expected: seq<seq<byte>> := [];
    for i := 0 to |records|
      invariant Expected(columns, x, records[..i], table) == Accepted(expected)
    {
      assert records[..i + 1] == records[..i] + [records[i]];
      ExpectedSnoc(columns, x, records[..i], records[i], table);
      if Skips(x, records[i]) {
        assert expected + [] == expected;
        continue;
      }
      var row := KeyRow(columns, x.keys, records[i]);
      if row.Rejected? {
        ExpectedPrefix(columns, x, records, table, i);
        return Rejected;
      }
      var key := Key(row.value.values, Fields(columns, x.keys), table);
      if key.Rejected? {
        ExpectedPrefix(columns, x, records, table, i);
        return Rejected;
      }
      var short := KeyShortening.Shorten(key.value);
      expected := expected + [short + row.value.locator];
    }
    assert records[..|records|] == records;
    return Accepted(expected);
  }
}
