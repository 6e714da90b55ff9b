/**
 * The complete row decoder (`rows` in oracle/windows-dao/structure.py): every live slot of a table's data
 * pages is followed to its stored row, long values are assembled, and the decoder demands that all stored
 * rows and all live long-value slots were reached.
 */
module TableRows {
  import opened Bytes
  import opened DataPages
  import opened AllocationMaps
  import opened Links
  import RowLayout
  import FieldValues

  datatype TableColumn = TableColumn(layout: RowLayout.Column, ordinal: nat, long: bool, kind: FieldValues.Kind)

  /** Data pages in order, columns, and the owned map of each long-value column. */
  datatype Table = Table(pages: seq<nat>, columns: seq<TableColumn>, highWater: nat, longMaps: seq<(nat, Locator)>)

  /** A decoded field; long values keep their descriptor and the slots that spell them. */
  datatype Value =
    | Plain(value: FieldValues.Scalar)
    | Long(descriptor: seq<byte>, payload: seq<byte>, chain: seq<Locator>)

  datatype Record = Record(origin: Locator, storage: Locator, raw: seq<byte>, values: seq<Value>)

  type Owned = map<nat, set<nat>>

  function PageSet(t: Table): (r: set<nat>) {
    set p | p in t.pages
  }

  function Layouts(columns: seq<TableColumn>): (r: seq<RowLayout.Column>)
    ensures |r| == |columns|
  {
    seq(|columns|, i requires 0 <= i < |columns| => columns[i].layout)
  }

  /** Owned pages by column ordinal; a repeated ordinal keeps its last map. */
  function LongPages(data: seq<byte>, groups: seq<(nat, Locator)>): (r: Result<Owned>) {
    if groups == [] then Accepted(map[])
    else
      var n := |groups| - 1;
      var earlier :- LongPages(data, groups[..n]);
      var m :- ReadMap(data, groups[n].1);
      if RoleAccepted(m, PageCount(data)) then Accepted(earlier[groups[n].0 := m.members]) else Rejected
  }

  // ----- One record, on its own -----

  function ValueOf(data: seq<byte>, c: TableColumn, owned: Owned, f: RowLayout.FieldValue, reached: set<Locator>)
    : (r: Result<Value>)
  {
    if c.long && f.Present? then
      if c.ordinal !in owned then Rejected
      else
        var found :- Payload(data, f.data, owned[c.ordinal], reached);
        Accepted(Long(f.data, found.0, found.1))
    else Accepted(Plain(FieldValues.ScalarOf(c.kind, f)))
  }

  function Values(data: seq<byte>, columns: seq<TableColumn>, owned: Owned, fields: seq<RowLayout.FieldValue>)
    : (r: Result<seq<Value>>)
    requires |fields| == |columns|
    ensures r.Accepted? ==> |r.value| == |columns|
  {
    if columns == [] then Accepted([])
    else
      var n := |columns| - 1;
      var earlier :- Values(data, columns[..n], owned, fields[..n]);
      var last :- ValueOf(data, columns[n], owned, fields[n], {});
      Accepted(earlier + [last])
  }

  function RawOf(data: seq<byte>, storage: Locator): (r: Result<seq<byte>>) {
    var row :- SlotOf(data, storage);
    Accepted(row.data)
  }

  /** The fields of a stored row; always one per column. */
  function FieldsOf(t: Table, raw: seq<byte>): (r: Result<seq<RowLayout.FieldValue>>)
    ensures r.Accepted? ==> |r.value| == |t.columns|
  {
    var fields :- RowLayout.Fields(raw, Layouts(t.columns), t.highWater);
    if |fields| == |t.columns| then Accepted(fields) else Rejected
  }

  lemma {:induction false} ReadFieldsLength(raw: seq<byte>, bounds: seq<nat>, fixedEnd: nat,
                                            columns: seq<RowLayout.Column>)
    requires raw != [] && RowLayout.PresenceLength(raw) < |raw|
    requires RowLayout.ReadFields(raw, bounds, fixedEnd, columns).Accepted?
    ensures |RowLayout.ReadFields(raw, bounds, fixedEnd, columns).value| == |columns|
  {
    hide RowLayout.ReadField;
    if columns != [] {
      ReadFieldsLength(raw, bounds, fixedEnd, columns[..|columns| - 1]);
    }
  }

  lemma FieldsOfIsFields(t: Table, raw: seq<byte>)
    ensures FieldsOf(t, raw) == RowLayout.Fields(raw, Layouts(t.columns), t.highWater)
  {
    hide RowLayout.ReadFields, RowLayout.DecodedBounds;
    var fields := RowLayout.Fields(raw, Layouts(t.columns), t.highWater);
    if fields.Accepted? {
      if t.highWater == 0 {
        ReadFieldsLength(raw, [], |raw| - RowLayout.PresenceLength(raw), Layouts(t.columns));
      } else {
        var bounds := RowLayout.DecodedBounds(raw).value;
        RowLayout.DecodedBoundsNonempty(raw);
        ReadFieldsLength(raw, bounds, bounds[0], Layouts(t.columns));
      }
    }
  }

  /** What one live slot denotes, whatever else the table holds. */
  function RecordOf(data: seq<byte>, t: Table, owned: Owned, origin: Locator): (r: Result<Record>) {
    if origin.page !in PageSet(t) then Rejected
    else
      var storage :- Endpoint(Follow(data, PageSet(t), origin, {}));
      var raw :- RawOf(data, storage);
      var fields :- FieldsOf(t, raw);
      var values :- Values(data, t.columns, owned, fields);
      Accepted(Record(origin, storage, raw, values))
  }

  function RecordsOf(data: seq<byte>, t: Table, owned: Owned, live: seq<Locator>): (r: Result<seq<Record>>)
    ensures r.Accepted? ==> |r.value| == |live|
  {
    if live == [] then Accepted([])
    else
      var n := |live| - 1;
      var earlier :- RecordsOf(data, t, owned, live[..n]);
      var last :- RecordOf(data, t, owned, live[n]);
      Accepted(earlier + [last])
  }

  // ----- The whole table -----

  predicate Readable(data: seq<byte>, page: nat) {
    PageOf(data, page).Accepted? && DirectoryAccepted(PageOf(data, page).value)
  }

  /** The slots among the first `n` of a page that are not hidden. */
  function LiveOf(image: Image, page: nat, n: nat): (r: seq<Locator>)
    requires DirectoryAccepted(image) && n <= Count(image)
  {
    if n == 0 then []
    else if RowAt(image, n - 1).hidden then LiveOf(image, page, n - 1)
    else LiveOf(image, page, n - 1) + [Locator(page, n - 1)]
  }

  function PageLive(data: seq<byte>, page: nat): (r: seq<Locator>)
    requires Readable(data, page)
  {
    LiveOf(PageOf(data, page).value, page, Count(PageOf(data, page).value))
  }

  /** Live slots in page order. */
  function LiveSlots(data: seq<byte>, pages: seq<nat>): (r: seq<Locator>)
    requires forall p :: p in pages ==> Readable(data, p)
  {
    if pages == [] then []
    else LiveSlots(data, pages[..|pages| - 1]) + PageLive(data, pages[|pages| - 1])
  }

  /** A slot that stores row bytes. */
  predicate Stores(data: seq<byte>, w: Locator) {
    SlotOf(data, w).Accepted? && SlotOf(data, w).value.data != [] && !SlotOf(data, w).value.overflow
  }

  predicate Live(data: seq<byte>, w: Locator) {
    SlotOf(data, w).Accepted? && !SlotOf(data, w).value.hidden
  }

  function Storages(records: seq<Record>): (r: set<Locator>) {
    set i | 0 <= i < |records| :: records[i].storage
  }

  ghost predicate DistinctStorages(records: seq<Record>) {
    forall i, j :: 0 <= i < j < |records| ==> records[i].storage != records[j].storage
  }

  /** Slot `w` is a fragment of the long value of record `i` in column `j`, whose ordinal is `c`. */
  ghost predicate Feeds(columns: seq<TableColumn>, records: seq<Record>, i: int, j: int, c: nat, w: Locator) {
    && 0 <= i < |records| && 0 <= j < |records[i].values| && j < |columns| && columns[j].ordinal == c
    && records[i].values[j].Long? && w in records[i].values[j].chain
  }

  ghost predicate Used(columns: seq<TableColumn>, records: seq<Record>, c: nat, w: Locator) {
    exists i, j :: Feeds(columns, records, i, j, c, w)
  }

  ghost predicate FedOnce(columns: seq<TableColumn>, records: seq<Record>) {
    forall i, j, k, l, c, w ::
      Feeds(columns, records, i, j, c, w) && Feeds(columns, records, k, l, c, w) ==> i == k && j == l
  }

  /** A column's long-value page, and its live slots. */
  predicate LongReadable(data: seq<byte>, page: nat) {
    Readable(data, page) && IsLongPage(PageOf(data, page).value)
  }

  ghost predicate ColumnComplete(data: seq<byte>, t: Table, owned: Owned, records: seq<Record>, c: nat)
    requires c in owned
  {
    && (forall p :: p in owned[c] ==> LongReadable(data, p))
    && (forall w: Locator :: (w.page in owned[c] && Live(data, w)) <==> Used(t.columns, records, c, w))
  }

  /** The decoder's contract: these records, and nothing of the table outside them. */
  ghost predicate Decoded(data: seq<byte>, t: Table, owned: Owned, records: seq<Record>) {
    && (forall p :: p in t.pages ==> Readable(data, p))
    && RecordsOf(data, t, owned, LiveSlots(data, t.pages)) == Accepted(records)
    && DistinctStorages(records)
    && FedOnce(t.columns, records)
    && (forall w: Locator :: w in Storages(records) <==> w.page in t.pages && Stores(data, w))
    && (forall c :: c in owned ==> ColumnComplete(data, t, owned, records, c))
  }

  // ----- Sharing of long-value slots -----

  ghost predicate ReachedIs(columns: seq<TableColumn>, records: seq<Record>, reached: map<nat, set<Locator>>) {
    forall c, w :: c in reached ==> (w in reached[c] <==> Used(columns, records, c, w))
  }

  lemma ValueAdded(columns: seq<TableColumn>, records: seq<Record>, rec: Record, v: Value, i: int, j: int, c: nat,
                   w: Locator)
    ensures var n := |rec.values|;
            Feeds(columns, records + [rec.(values := rec.values + [v])], i, j, c, w)
            <==> Feeds(columns, records + [rec], i, j, c, w)
                 || (i == |records| && j == n && n < |columns| && c == columns[n].ordinal && v.Long? && w in v.chain)
  {
  }

  /** Adding one value keeps every slot fed once exactly when its chain avoids what its column already uses. */
  lemma ValueShares(columns: seq<TableColumn>, records: seq<Record>, rec: Record, v: Value)
    requires |rec.values| < |columns|
    ensures var c := columns[|rec.values|].ordinal;
            FedOnce(columns, records + [rec.(values := rec.values + [v])])
            <==> FedOnce(columns, records + [rec])
                 && (v.Long? ==> forall w :: w in v.chain ==> !Used(columns, records + [rec], c, w))
  {
    hide Feeds;
    var small, big := records + [rec], records + [rec.(values := rec.values + [v])];
    var n, c := |rec.values|, columns[|rec.values|].ordinal;
    forall i, j, o, w
      ensures Feeds(columns, big, i, j, o, w)
              <==> Feeds(columns, small, i, j, o, w)
                   || (i == |records| && j == n && o == c && v.Long? && w in v.chain)
      ensures Feeds(columns, small, i, j, o, w) ==> !(i == |records| && j == n)
    {
      ValueAdded(columns, records, rec, v, i, j, o, w);
      FeedsInside(columns, small, i, j, o, w);
    }
    if FedOnce(columns, big) && v.Long? {
      forall w | w in v.chain ensures !Used(columns, small, c, w) {
        assert Feeds(columns, big, |records|, n, c, w);
      }
    }
  }

  lemma FeedsInside(columns: seq<TableColumn>, records: seq<Record>, i: int, j: int, c: nat, w: Locator)
    ensures Feeds(columns, records, i, j, c, w) ==> 0 <= i < |records| && 0 <= j < |records[i].values|
  {
  }

  lemma ValueReached(columns: seq<TableColumn>, records: seq<Record>, rec: Record, v: Value,
                     reached: map<nat, set<Locator>>, after: map<nat, set<Locator>>)
    requires |rec.values| < |columns| && ReachedIs(columns, records + [rec], reached) && after.Keys == reached.Keys
    requires v.Long? ==> columns[|rec.values|].ordinal in reached
    requires var c := columns[|rec.values|].ordinal;
             after == if v.Long? then reached[c := reached[c] + Elements(v.chain)] else reached
    ensures ReachedIs(columns, records + [rec.(values := rec.values + [v])], after)
  {
    hide Feeds;
    var small, big := records + [rec], records + [rec.(values := rec.values + [v])];
    var n, c := |rec.values|, columns[|rec.values|].ordinal;
    forall i, j, o, w
      ensures Feeds(columns, big, i, j, o, w)
              <==> Feeds(columns, small, i, j, o, w)
                   || (i == |records| && j == n && o == c && v.Long? && w in v.chain)
    {
      ValueAdded(columns, records, rec, v, i, j, o, w);
    }
    forall o, w | o in after ensures w in after[o] <==> Used(columns, big, o, w) {
      if v.Long? && o == c && w in v.chain {
        assert Feeds(columns, big, |records|, n, c, w);
      } else if i, j :| Feeds(columns, small, i, j, o, w) {
        assert Feeds(columns, big, i, j, o, w);
      }
    }
  }

  /** A record without values feeds nothing. */
  lemma EmptyRecordFeeds(columns: seq<TableColumn>, records: seq<Record>, rec: Record, reached: map<nat, set<Locator>>)
    requires rec.values == [] && FedOnce(columns, records) && ReachedIs(columns, records, reached)
    ensures FedOnce(columns, records + [rec]) && ReachedIs(columns, records + [rec], reached)
  {
    forall i, j, c, w ensures Feeds(columns, records + [rec], i, j, c, w) <==> Feeds(columns, records, i, j, c, w) {
    }
    forall c, w ensures Used(columns, records + [rec], c, w) <==> Used(columns, records, c, w) {
      if i, j :| Feeds(columns, records, i, j, c, w) {
        assert Feeds(columns, records + [rec], i, j, c, w);
      }
    }
  }

  lemma {:induction false} FewerValues(columns: seq<TableColumn>, records: seq<Record>, rec: Record, k: nat)
    requires k <= |rec.values| && FedOnce(columns, records + [rec])
    ensures FedOnce(columns, records + [rec.(values := rec.values[..k])])
  {
    var fewer := records + [rec.(values := rec.values[..k])];
    forall i, j, c, w | Feeds(columns, fewer, i, j, c, w) ensures Feeds(columns, records + [rec], i, j, c, w) {
    }
  }

  lemma {:induction false} FewerRecords(columns: seq<TableColumn>, records: seq<Record>, k: nat)
    requires k <= |records| && FedOnce(columns, records)
    ensures FedOnce(columns, records[..k])
  {
    forall i, j, c, w | Feeds(columns, records[..k], i, j, c, w) ensures Feeds(columns, records, i, j, c, w) {
    }
  }

  // ----- The columns of one row -----

  lemma {:induction false} ValuesPrefix(data: seq<byte>, columns: seq<TableColumn>, owned: Owned,
                                        fields: seq<RowLayout.FieldValue>, k: nat)
    requires |fields| == |columns| && k <= |columns| && Values(data, columns, owned, fields).Accepted?
    ensures Values(data, columns[..k], owned, fields[..k]) == Accepted(Values(data, columns, owned, fields).value[..k])
    ensures k < |columns| ==>
              ValueOf(data, columns[k], owned, fields[k], {}) == Accepted(Values(data, columns, owned, fields).value[k])
  {
    hide ValueOf;
    var n := |columns| - 1;
    var all := Values(data, columns, owned, fields).value;
    if k == |columns| {
      assert columns[..k] == columns && fields[..k] == fields && all[..k] == all;
    } else {
      var earlier := Values(data, columns[..n], owned, fields[..n]).value;
      assert all[..n] == earlier;
      if k < n {
        ValuesPrefix(data, columns[..n], owned, fields[..n], k);
        assert columns[..n][..k] == columns[..k] && fields[..n][..k] == fields[..k] && earlier[..k] == all[..k];
      }
    }
  }

  lemma ReachedForbidsValue(data: seq<byte>, c: TableColumn, owned: Owned, f: RowLayout.FieldValue,
                            reached: set<Locator>)
    ensures var free := ValueOf(data, c, owned, f, {});
            ValueOf(data, c, owned, f, reached)
            == if free.Accepted? && (free.value.Long? ==> Apart(free.value.chain, reached)) then free else Rejected
    ensures ValueOf(data, c, owned, f, {}).Accepted? && ValueOf(data, c, owned, f, {}).value.Long? ==>
              c.ordinal in owned
  {
    hide Payload;
    if c.long && f.Present? && c.ordinal in owned {
      ReachedOnlyForbids(data, f.data, owned[c.ordinal], reached);
    }
  }

  /** One column of the loop in `rows`; the column's reached set grows by the value's fragments. */
  method ReadValue(data: seq<byte>, c: TableColumn, owned: Owned, f: RowLayout.FieldValue,
                   reached: map<nat, set<Locator>>)
    returns (r: Result<Value>, after: map<nat, set<Locator>>)
    requires reached.Keys == owned.Keys
    ensures r == ValueOf(data, c, owned, f, if c.ordinal in owned then reached[c.ordinal] else {})
    ensures r.Accepted? ==>
              after == if r.value.Long? && c.ordinal in reached
                       then reached[c.ordinal := reached[c.ordinal] + Elements(r.value.chain)]
                       else reached
    ensures r.Accepted? && r.value.Long? ==> c.ordinal in owned
  {
    hide Payload;
    after := reached;
    if !c.long || !f.Present? {
      return Accepted(Plain(FieldValues.ScalarOf(c.kind, f))), after;
    }
    if c.ordinal !in owned {
      return Rejected, after;
    }
    var found, now := ReadPayload(data, f.data, owned[c.ordinal], reached[c.ordinal]);
    if found.Rejected? {
      return Rejected, after;
    }
    after := reached[c.ordinal := now];
    return Accepted(Long(f.data, found.value.0, found.value.1)), after;
  }

  method ReadValues(data: seq<byte>, columns: seq<TableColumn>, owned: Owned, fields: seq<RowLayout.FieldValue>,
                    before: map<nat, set<Locator>>, ghost records: seq<Record>, ghost shell: Record)
    returns (r: Result<seq<Value>>, reached: map<nat, set<Locator>>)
    requires |fields| == |columns| && before.Keys == owned.Keys && shell.values == []
    requires FedOnce(columns, records) && ReachedIs(columns, records, before)
    ensures r.Accepted? <==>
              && Values(data, columns, owned, fields).Accepted?
              && FedOnce(columns, records + [shell.(values := Values(data, columns, owned, fields).value)])
    ensures r.Accepted? ==>
              && r == Values(data, columns, owned, fields)
              && reached.Keys == owned.Keys
              && ReachedIs(columns, records + [shell.(values := r.value)], reached)
  {
    hide ValueOf, FedOnce, ReachedIs;
    reached := before;
    var values := [];
    EmptyRecordFeeds(columns, records, shell, before);
    assert shell == shell.(values := values);
    for j := 0 to |columns|
      invariant Values(data, columns[..j], owned, fields[..j]) == Accepted(values)
      invariant reached.Keys == owned.Keys
      invariant FedOnce(columns, records + [shell.(values := values)])
      invariant ReachedIs(columns, records + [shell.(values := values)], reached)
    {
      ghost var partial := shell.(values := values);
      ghost var was := reached;
      var value;
      value, reached := ReadValue(data, columns[j], owned, fields[j], reached);
      assert columns[..j + 1][..j] == columns[..j] && fields[..j + 1][..j] == fields[..j];
      ghost var free := ValueOf(data, columns[j], owned, fields[j], {});
      ValueStep(data, columns, owned, fields[j], was, records, partial);
      if value.Rejected? {
        StopsHere(data, columns, owned, fields, records, shell, j, values);
        return Rejected, reached;
      }
      ValueReached(columns, records, partial, value.value, was, reached);
      values := values + [value.value];
    }
    assert columns[..|columns|] == columns && fields[..|columns|] == fields;
    return Accepted(values), reached;
  }

  lemma ChainUnused(columns: seq<TableColumn>, records: seq<Record>, reached: map<nat, set<Locator>>, c: nat,
                    chain: seq<Locator>)
    requires ReachedIs(columns, records, reached) && c in reached
    ensures Apart(chain, reached[c]) <==> forall w :: w in chain ==> !Used(columns, records, c, w)
  {
    hide Used;
  }

  /** The reached set of the column refuses exactly the values that would feed a slot twice. */
  lemma ValueStep(data: seq<byte>, columns: seq<TableColumn>, owned: Owned, f: RowLayout.FieldValue,
                  reached: map<nat, set<Locator>>, records: seq<Record>, partial: Record)
    requires |partial.values| < |columns| && reached.Keys == owned.Keys
    requires FedOnce(columns, records + [partial]) && ReachedIs(columns, records + [partial], reached)
    ensures var c := columns[|partial.values|];
            var free := ValueOf(data, c, owned, f, {});
            ValueOf(data, c, owned, f, if c.ordinal in owned then reached[c.ordinal] else {})
            == if free.Accepted?
                  && FedOnce(columns, records + [partial.(values := partial.values + [free.value])])
               then free else Rejected
  {
    hide ValueOf, FedOnce, ReachedIs, Used, Apart;
    var c := columns[|partial.values|];
    ReachedForbidsValue(data, c, owned, f, if c.ordinal in owned then reached[c.ordinal] else {});
    var free := ValueOf(data, c, owned, f, {});
    if free.Accepted? {
      ValueShares(columns, records, partial, free.value);
      if free.value.Long? {
        ChainUnused(columns, records + [partial], reached, c.ordinal, free.value.chain);
      }
    }
  }

  lemma StopsHere(data: seq<byte>, columns: seq<TableColumn>, owned: Owned, fields: seq<RowLayout.FieldValue>,
                  records: seq<Record>, shell: Record, j: nat, values: seq<Value>)
    requires |fields| == |columns| && j < |columns|
    requires Values(data, columns[..j], owned, fields[..j]) == Accepted(values)
    requires var free := ValueOf(data, columns[j], owned, fields[j], {});
             free.Rejected? || !FedOnce(columns, records + [shell.(values := values + [free.value])])
    ensures !(&& Values(data, columns, owned, fields).Accepted?
              && FedOnce(columns, records + [shell.(values := Values(data, columns, owned, fields).value)]))
  {
    hide ValueOf, FedOnce;
    if Values(data, columns, owned, fields).Accepted? {
      var all := Values(data, columns, owned, fields).value;
      ValuesPrefix(data, columns, owned, fields, j);
      assert all[..j + 1] == values + [all[j]];
      if FedOnce(columns, records + [shell.(values := all)]) {
        FewerValues(columns, records, shell.(values := all), j + 1);
      }
    }
  }

  // ----- One row -----

  /** What the loops carry: the storage slots taken so far and the fragments each column used. */
  ghost predicate Tracked(t: Table, owned: Owned, records: seq<Record>, targets: set<Locator>,
                          reached: map<nat, set<Locator>>) {
    && DistinctStorages(records) && FedOnce(t.columns, records)
    && targets == Storages(records)
    && reached.Keys == owned.Keys && ReachedIs(t.columns, records, reached)
  }

  /** The records of these live slots exist and share neither storage nor fragments. */
  ghost predicate Independent(data: seq<byte>, t: Table, owned: Owned, live: seq<Locator>) {
    var records := RecordsOf(data, t, owned, live);
    records.Accepted? && DistinctStorages(records.value) && FedOnce(t.columns, records.value)
  }

  lemma StorageAdded(records: seq<Record>, rec: Record)
    ensures Storages(records + [rec]) == Storages(records) + {rec.storage}
    ensures DistinctStorages(records + [rec]) <==> DistinctStorages(records) && rec.storage !in Storages(records)
  {
    var more := records + [rec];
    assert more[|records|] == rec && forall i :: 0 <= i < |records| ==> more[i] == records[i];
    if DistinctStorages(more) {
      assert forall i, j :: 0 <= i < j < |records| ==> more[i].storage != more[j].storage;
    }
  }

  lemma RecordAdded(data: seq<byte>, t: Table, owned: Owned, live: seq<Locator>, origin: Locator)
    requires RecordsOf(data, t, owned, live).Accepted?
    ensures RecordsOf(data, t, owned, live + [origin])
            == if RecordOf(data, t, owned, origin).Accepted?
               then Accepted(RecordsOf(data, t, owned, live).value + [RecordOf(data, t, owned, origin).value])
               else Rejected
  {
    hide RecordOf;
    assert (live + [origin])[..|live|] == live;
  }

  /** The body of the row loop in `rows` for one live slot. */
  method ReadRow(data: seq<byte>, t: Table, owned: Owned, origin: Locator, start: Row, before: set<Locator>,
                 reachedBefore: map<nat, set<Locator>>, ghost live: seq<Locator>, ghost records: seq<Record>)
    returns (r: Result<Record>, targets: set<Locator>, reached: map<nat, set<Locator>>)
    requires origin.page in PageSet(t) && SlotOf(data, origin) == Accepted(start)
    requires RecordsOf(data, t, owned, live) == Accepted(records) && Tracked(t, owned, records, before, reachedBefore)
    ensures r.Accepted? <==> Independent(data, t, owned, live + [origin])
    ensures r.Accepted? ==>
              && RecordsOf(data, t, owned, live + [origin]) == Accepted(records + [r.value])
              && Tracked(t, owned, records + [r.value], targets, reached)
  {
    hide Follow, SlotOf, Values, FedOnce, ReachedIs, DistinctStorages, Storages, FieldsOf;
    targets, reached := before, reachedBefore;
    RecordAdded(data, t, owned, live, origin);
    var walk := WalkLinks(data, PageSet(t), origin, start);
    if walk.Rejected? {
      return Rejected, targets, reached;
    }
    var (storage, raw) := walk.value;
    ghost var one := RecordOf(data, t, owned, origin);
    if one.Accepted? {
      StorageAdded(records, one.value);
    }
    if storage in targets {
      return Rejected, targets, reached;
    }
    targets := targets + {storage};
    var fields := RowLayout.DecodeFields(raw, Layouts(t.columns), t.highWater);
    FieldsOfIsFields(t, raw);
    if fields.Rejected? {
      return Rejected, targets, reached;
    }
    var values;
    values, reached := ReadValues(data, t.columns, owned, fields.value, reached, records,
                                  Record(origin, storage, raw, []));
    if values.Rejected? {
      return Rejected, targets, reached;
    }
    r := Accepted(Record(origin, storage, raw, values.value));
    StorageAdded(records, r.value);
  }

  // ----- One page and the whole table -----

  lemma {:induction false} RecordsPrefix(data: seq<byte>, t: Table, owned: Owned, live: seq<Locator>,
                                         more: seq<Locator>)
    requires RecordsOf(data, t, owned, live + more).Accepted?
    ensures RecordsOf(data, t, owned, live) == Accepted(RecordsOf(data, t, owned, live + more).value[..|live|])
  {
    hide RecordOf;
    if more == [] {
      assert live + more == live;
      var all := RecordsOf(data, t, owned, live).value;
      assert all[..|live|] == all;
    } else {
      var n := |more| - 1;
      assert (live + more)[..|live + more| - 1] == live + more[..n];
      RecordsPrefix(data, t, owned, live, more[..n]);
      var fewer, all := RecordsOf(data, t, owned, live + more[..n]).value, RecordsOf(data, t, owned, live + more).value;
      assert all[..|live|] == fewer[..|live|];
    }
  }

  /** Records that are not independent stay so as more are added. */
  lemma IndependentPrefix(data: seq<byte>, t: Table, owned: Owned, live: seq<Locator>, more: seq<Locator>)
    requires Independent(data, t, owned, live + more)
    ensures Independent(data, t, owned, live)
  {
    hide FedOnce, RecordsOf;
    RecordsPrefix(data, t, owned, live, more);
    FewerRecords(t.columns, RecordsOf(data, t, owned, live + more).value, |live|);
  }

  lemma {:induction false} LivePrefix(image: Image, page: nat, n: nat, m: nat)
    requires DirectoryAccepted(image) && n <= m <= Count(image)
    ensures LiveOf(image, page, n) <= LiveOf(image, page, m)
    decreases m
  {
    hide RowAt, DirectoryAccepted;
    if n < m {
      LivePrefix(image, page, n, m - 1);
    }
  }

  ghost predicate PhysicalIs(data: seq<byte>, pages: seq<nat>, physical: set<Locator>) {
    forall w: Locator :: w in physical <==> w.page in pages && Stores(data, w)
  }

  /** One page of the outer loop. */
  method ReadPage(data: seq<byte>, t: Table, owned: Owned, page: nat, before: seq<Record>, physicalBefore: set<Locator>,
                  targetsBefore: set<Locator>, reachedBefore: map<nat, set<Locator>>,
                  ghost live: seq<Locator>, ghost pages: seq<nat>)
    returns (ok: bool, records: seq<Record>, physical: set<Locator>, targets: set<Locator>,
             reached: map<nat, set<Locator>>)
    requires page in PageSet(t)
    requires RecordsOf(data, t, owned, live) == Accepted(before)
    requires Tracked(t, owned, before, targetsBefore, reachedBefore)
    requires PhysicalIs(data, pages, physicalBefore)
    ensures ok <==> Readable(data, page) && Independent(data, t, owned, live + PageLive(data, page))
    ensures ok ==>
              && RecordsOf(data, t, owned, live + PageLive(data, page)) == Accepted(records)
              && Tracked(t, owned, records, targets, reached)
              && PhysicalIs(data, pages + [page], physical)
  {
    hide Tracked, RecordsOf, Independent, RowAt, DirectoryAccepted;
    records, physical, targets, reached := before, physicalBefore, targetsBefore, reachedBefore;
    var found := PageOf(data, page);
    if found.Rejected? || !DirectoryAccepted(found.value) {
      return false, records, physical, targets, reached;
    }
    var image := found.value;
    assert live + LiveOf(image, page, 0) == live;
    for row := 0 to Count(image)
      invariant RecordsOf(data, t, owned, live + LiveOf(image, page, row)) == Accepted(records)
      invariant Tracked(t, owned, records, targets, reached)
      invariant forall w: Locator :: w in physical <==>
                  (w.page in pages && Stores(data, w)) || (w.page == page && w.row < row && Stores(data, w))
    {
      var entry := RowAt(image, row);
      var origin := Locator(page, row);
      assert SlotOf(data, origin) == Accepted(entry);
      if entry.data != [] && !entry.overflow {
        physical := physical + {origin};
      }
      if !entry.hidden {
        var one;
        ghost var here := live + LiveOf(image, page, row);
        one, targets, reached := ReadRow(data, t, owned, origin, entry, targets, reached, here, records);
        assert here + [origin] == live + LiveOf(image, page, row + 1);
        if one.Rejected? {
          RejectedRow(data, t, owned, image, page, row, live);
          return false, records, physical, targets, reached;
        }
        records := records + [one.value];
      }
    }
    TrackedIsIndependent(data, t, owned, live + PageLive(data, page), records, targets, reached);
    PagePhysical(data, pages, page, physical);
    ok := true;
  }

  lemma RejectedRow(data: seq<byte>, t: Table, owned: Owned, image: Image, page: nat, row: nat, live: seq<Locator>)
    requires DirectoryAccepted(image) && row < Count(image)
    requires !Independent(data, t, owned, live + LiveOf(image, page, row + 1))
    ensures !Independent(data, t, owned, live + LiveOf(image, page, Count(image)))
  {
    hide Independent, RowAt, DirectoryAccepted;
    LivePrefix(image, page, row + 1, Count(image));
    var some, all := LiveOf(image, page, row + 1), LiveOf(image, page, Count(image));
    assert live + all == live + some + all[|some|..];
    if Independent(data, t, owned, live + all) {
      IndependentPrefix(data, t, owned, live + some, all[|some|..]);
    }
  }

  lemma TrackedIsIndependent(data: seq<byte>, t: Table, owned: Owned, live: seq<Locator>, records: seq<Record>,
                             targets: set<Locator>, reached: map<nat, set<Locator>>)
    requires RecordsOf(data, t, owned, live) == Accepted(records) && Tracked(t, owned, records, targets, reached)
    ensures Independent(data, t, owned, live)
  {
  }

  lemma PagePhysical(data: seq<byte>, pages: seq<nat>, page: nat, physical: set<Locator>)
    requires Readable(data, page)
    requires forall w: Locator :: w in physical <==>
               (w.page in pages && Stores(data, w))
               || (w.page == page && w.row < Count(PageOf(data, page).value) && Stores(data, w))
    ensures PhysicalIs(data, pages + [page], physical)
  {
    hide RowAt, DirectoryAccepted;
  }

  lemma {:induction false} LiveOfExact(image: Image, page: nat, n: nat, w: Locator)
    requires DirectoryAccepted(image) && n <= Count(image)
    ensures w in LiveOf(image, page, n) <==> w.page == page && w.row < n && !RowAt(image, w.row).hidden
  {
    hide RowAt, DirectoryAccepted;
    if n > 0 {
      LiveOfExact(image, page, n - 1, w);
    }
  }

  lemma PageLiveExact(data: seq<byte>, page: nat, w: Locator)
    requires Readable(data, page)
    ensures w in PageLive(data, page) <==> w.page == page && Live(data, w)
  {
    hide RowAt, DirectoryAccepted, LiveOf;
    LiveOfExact(PageOf(data, page).value, page, Count(PageOf(data, page).value), w);
  }

  lemma {:induction false} LiveSlotsExact(data: seq<byte>, pages: seq<nat>, w: Locator)
    requires forall p :: p in pages ==> Readable(data, p)
    ensures w in LiveSlots(data, pages) <==> w.page in pages && Live(data, w)
  {
    hide Readable, PageLive, Live;
    if pages != [] {
      var n := |pages| - 1;
      LiveSlotsExact(data, pages[..n], w);
      PageLiveExact(data, pages[n], w);
      assert pages == pages[..n] + [pages[n]];
    }
  }

  /** The final check of one long-value column. */
  method ColumnReached(data: seq<byte>, t: Table, owned: Owned, c: nat, reached: set<Locator>,
                       ghost records: seq<Record>)
    returns (ok: bool)
    requires c in owned && forall w: Locator :: w in reached <==> Used(t.columns, records, c, w)
    ensures ok <==> ColumnComplete(data, t, owned, records, c)
  {
    hide Readable, PageLive, Live, Used;
    var todo, active: set<Locator> := owned[c], {};
    while todo != {}
      invariant todo <= owned[c]
      invariant forall p :: p in owned[c] - todo ==> LongReadable(data, p)
      invariant forall w: Locator :: w in active <==> w.page in owned[c] - todo && Live(data, w)
    {
      var page :| page in todo;
      if !LongReadable(data, page) {
        return false;
      }
      forall w ensures w in PageLive(data, page) <==> w.page == page && Live(data, w) {
        PageLiveExact(data, page, w);
      }
      active := active + Elements(PageLive(data, page));
      todo := todo - {page};
    }
    ok := active == reached;
    if ok {
      assert forall w: Locator :: w in active <==> Used(t.columns, records, c, w);
    } else if ColumnComplete(data, t, owned, records, c) {
      assert forall w: Locator :: w in active <==> w in reached;
    }
  }

  method ReadLongPages(data: seq<byte>, groups: seq<(nat, Locator)>) returns (r: Result<Owned>)
    ensures r == LongPages(data, groups)
  {
    hide ReadMap, RoleAccepted;
    var owned: Owned := map[];
    for i := 0 to |groups|
      invariant LongPages(data, groups[..i]) == Accepted(owned)
    {
      assert groups[..i + 1][..i] == groups[..i];
      var m := ReadMap(data, groups[i].1);
      if m.Rejected? || !RoleAccepted(m.value, PageCount(data)) {
        MapRejected(data, groups, i);
        return Rejected;
      }
      owned := owned[groups[i].0 := m.value.members];
    }
    assert groups[..|groups|] == groups;
    return Accepted(owned);
  }

  lemma {:induction false} MapRejected(data: seq<byte>, groups: seq<(nat, Locator)>, i: nat)
    requires i < |groups| && LongPages(data, groups[..i + 1]).Rejected?
    ensures LongPages(data, groups).Rejected?
    decreases |groups|
  {
    hide ReadMap, RoleAccepted;
    if i + 1 < |groups| {
      assert groups[..|groups| - 1][..i + 1] == groups[..i + 1];
      MapRejected(data, groups[..|groups| - 1], i);
    } else {
      assert groups[..i + 1] == groups;
    }
  }

  /** `rows`: accepts exactly the tables that have a complete decoding, and returns it. */
  method ReadRows(data: seq<byte>, t: Table) returns (r: Result<seq<Record>>)
    ensures LongPages(data, t.longMaps).Rejected? ==> r.Rejected?
    ensures LongPages(data, t.longMaps).Accepted? ==>
              && (r.Accepted? ==> Decoded(data, t, LongPages(data, t.longMaps).value, r.value))
              && (forall records :: Decoded(data, t, LongPages(data, t.longMaps).value, records) ==>
                    r == Accepted(records))
  {
    hide RecordsOf, Readable, PageLive, FedOnce, DistinctStorages, ReachedIs, Stores, Storages, ColumnComplete,
         LongPages;
    var maps := ReadLongPages(data, t.longMaps);
    if maps.Rejected? {
      return Rejected;
    }
    var owned := maps.value;
    var ok, records, physical, targets, reached := ReadPages(data, t, owned);
    if !ok {
      return Rejected;
    }
    SamePlaces(data, t, physical, targets);
    if targets != physical {
      return Rejected;
    }
    var todo := owned.Keys;
    while todo != {}
      invariant todo <= owned.Keys
      invariant forall c :: c in owned.Keys - todo ==> ColumnComplete(data, t, owned, records, c)
    {
      var c :| c in todo;
      ReachedColumn(t.columns, records, reached, c);
      var complete := ColumnReached(data, t, owned, c, reached[c], records);
      if !complete {
        return Rejected;
      }
      todo := todo - {c};
    }
    return Accepted(records);
  }

  lemma ReachedColumn(columns: seq<TableColumn>, records: seq<Record>, reached: map<nat, set<Locator>>, c: nat)
    requires ReachedIs(columns, records, reached) && c in reached
    ensures forall w: Locator :: w in reached[c] <==> Used(columns, records, c, w)
  {
    hide Used;
  }

  lemma SamePlaces(data: seq<byte>, t: Table, physical: set<Locator>, targets: set<Locator>)
    requires PhysicalIs(data, t.pages, physical)
    ensures targets == physical <==> forall w: Locator :: w in targets <==> w.page in t.pages && Stores(data, w)
  {
    hide Stores;
  }

  lemma NothingTracked(t: Table, owned: Owned, reached: map<nat, set<Locator>>)
    requires reached.Keys == owned.Keys && forall c :: c in reached ==> reached[c] == {}
    ensures Tracked(t, owned, [], {}, reached)
  {
    assert forall c, w :: !Used(t.columns, [], c, w);
  }

  lemma {:induction false} LiveSlotsPrefix(data: seq<byte>, pages: seq<nat>, k: nat)
    requires k <= |pages| && forall p :: p in pages ==> Readable(data, p)
    ensures LiveSlots(data, pages[..k]) <= LiveSlots(data, pages)
  {
    hide Readable, PageLive;
    if k < |pages| {
      var n := |pages| - 1;
      LiveSlotsPrefix(data, pages[..n], k);
      assert pages[..n][..k] == pages[..k];
    } else {
      assert pages[..k] == pages;
    }
  }

  lemma RejectedPage(data: seq<byte>, t: Table, owned: Owned, k: nat)
    requires k < |t.pages| && forall p :: p in t.pages ==> Readable(data, p)
    requires !Independent(data, t, owned, LiveSlots(data, t.pages[..k]) + PageLive(data, t.pages[k]))
    ensures !Independent(data, t, owned, LiveSlots(data, t.pages))
  {
    hide Independent, Readable, PageLive;
    assert t.pages[..k + 1][..k] == t.pages[..k];
    LiveSlotsPrefix(data, t.pages, k + 1);
    var some, all := LiveSlots(data, t.pages[..k + 1]), LiveSlots(data, t.pages);
    assert all == some + all[|some|..];
    if Independent(data, t, owned, all) {
      IndependentPrefix(data, t, owned, some, all[|some|..]);
    }
  }

  lemma NoPages(data: seq<byte>, t: Table, owned: Owned)
    ensures t.pages[..0] == [] && LiveSlots(data, []) == [] && RecordsOf(data, t, owned, []) == Accepted([])
    ensures PhysicalIs(data, [], {})
  {
  }

  lemma MoreLive(data: seq<byte>, pages: seq<nat>, k: nat)
    requires k < |pages| && forall p :: p in pages[..k + 1] ==> Readable(data, p)
    ensures (forall p :: p in pages[..k] ==> Readable(data, p)) && Readable(data, pages[k])
    ensures LiveSlots(data, pages[..k + 1]) == LiveSlots(data, pages[..k]) + PageLive(data, pages[k])
  {
    hide Readable, PageLive;
    assert pages[..k + 1] == pages[..k] + [pages[k]];
    assert pages[..k + 1][..k] == pages[..k];
  }

  /** The loop of `rows` over the data pages. */
  method ReadPages(data: seq<byte>, t: Table, owned: Owned)
    returns (ok: bool, records: seq<Record>, physical: set<Locator>, targets: set<Locator>,
             reached: map<nat, set<Locator>>)
    ensures ok <==>
            && (forall p :: p in t.pages ==> Readable(data, p))
            && Independent(data, t, owned, LiveSlots(data, t.pages))
    ensures ok ==>
              && RecordsOf(data, t, owned, LiveSlots(data, t.pages)) == Accepted(records)
              && Tracked(t, owned, records, targets, reached)
              && PhysicalIs(data, t.pages, physical)
  {
    hide Tracked, Readable, PageLive, Independent, Stores, RecordsOf, LiveSlots, PhysicalIs;
    NoPages(data, t, owned);
    reached := map c | c in owned :: {};
    records, physical, targets := [], {}, {};
    NothingTracked(t, owned, reached);
    for k := 0 to |t.pages|
      invariant forall p :: p in t.pages[..k] ==> Readable(data, p)
      invariant RecordsOf(data, t, owned, LiveSlots(data, t.pages[..k])) == Accepted(records)
      invariant Tracked(t, owned, records, targets, reached)
      invariant PhysicalIs(data, t.pages[..k], physical)
    {
      assert t.pages[..k + 1] == t.pages[..k] + [t.pages[k]];
      assert t.pages[k] in t.pages;
      ghost var live := LiveSlots(data, t.pages[..k]);
      var fine;
      fine, records, physical, targets, reached :=
        ReadPage(data, t, owned, t.pages[k], records, physical, targets, reached, live, t.pages[..k]);
      if !fine {
        if forall p :: p in t.pages ==> Readable(data, p) {
          RejectedPage(data, t, owned, k);
        }
        return false, records, physical, targets, reached;
      }
      MoreLive(data, t.pages, k);
    }
    assert t.pages[..|t.pages|] == t.pages;
    TrackedIsIndependent(data, t, owned, LiveSlots(data, t.pages), records, targets, reached);
    ok := true;
  }

  // ----- What acceptance means -----

  lemma {:induction false} RecordsAt(data: seq<byte>, t: Table, owned: Owned, live: seq<Locator>, i: nat)
    requires RecordsOf(data, t, owned, live).Accepted? && i < |live|
    ensures RecordOf(data, t, owned, live[i]) == Accepted(RecordsOf(data, t, owned, live).value[i])
  {
    hide RecordOf;
    if i < |live| - 1 {
      RecordsAt(data, t, owned, live[..|live| - 1], i);
    }
  }

  lemma RecordOrigin(data: seq<byte>, t: Table, owned: Owned, origin: Locator)
    requires RecordOf(data, t, owned, origin).Accepted?
    ensures RecordOf(data, t, owned, origin).value.origin == origin
  {
    hide Follow, SlotOf, Values, FieldsOf;
  }

  /** Records are an injective image of the live slots, and every stored row belongs to exactly one of them. */
  lemma RowsBijection(data: seq<byte>, t: Table, owned: Owned, records: seq<Record>)
    requires Decoded(data, t, owned, records)
    ensures forall w: Locator ::
              (exists i :: 0 <= i < |records| && records[i].origin == w) <==> w.page in t.pages && Live(data, w)
    ensures forall i, j :: 0 <= i < j < |records| ==> records[i].origin != records[j].origin
    ensures forall i, j :: 0 <= i < j < |records| ==> records[i].storage != records[j].storage
    ensures forall w: Locator ::
              (exists i :: 0 <= i < |records| && records[i].storage == w) <==> w.page in t.pages && Stores(data, w)
  {
    hide RecordsOf, RecordOf, FedOnce, Stores, Live, Readable, LiveSlots;
    var live := LiveSlots(data, t.pages);
    forall i | 0 <= i < |records|
      ensures records[i].origin == live[i] && RecordOf(data, t, owned, live[i]) == Accepted(records[i])
    {
      RecordsAt(data, t, owned, live, i);
      RecordOrigin(data, t, owned, live[i]);
    }
    forall w: Locator ensures w in live <==> w.page in t.pages && Live(data, w) {
      LiveSlotsExact(data, t.pages, w);
    }
    forall w: Locator | w.page in t.pages && Live(data, w)
      ensures exists i :: 0 <= i < |records| && records[i].origin == w
    {
      var i :| 0 <= i < |live| && live[i] == w;
      assert records[i].origin == w;
    }
    forall w: Locator | w in Storages(records) ensures exists i :: 0 <= i < |records| && records[i].storage == w {
    }
  }

  /** A finite overflow path leads from one slot to the other. */
  ghost predicate Reaches(data: seq<byte>, t: Table, origin: Locator, storage: Locator) {
    exists path :: path != [] && IsPath(data, PageSet(t), path) && path[0] == origin && path[|path| - 1] == storage
  }

  /** A value read from a field: long values are what their descriptor denotes, everything else is decoded. */
  ghost predicate ValueMeans(data: seq<byte>, c: TableColumn, owned: Owned, f: RowLayout.FieldValue, v: Value) {
    if c.long && f.Present? then
      && c.ordinal in owned && v.Long? && v.descriptor == f.data
      && Describes(data, v.descriptor, owned[c.ordinal], v.payload, v.chain)
    else v == Plain(FieldValues.ScalarOf(c.kind, f))
  }

  ghost predicate RecordMeans(data: seq<byte>, t: Table, owned: Owned, rec: Record) {
    && Reaches(data, t, rec.origin, rec.storage)
    && RawOf(data, rec.storage) == Accepted(rec.raw)
    && var fields := RowLayout.Fields(rec.raw, Layouts(t.columns), t.highWater);
       && fields.Accepted? && |fields.value| == |rec.values| == |t.columns|
       && forall j :: 0 <= j < |t.columns| ==> ValueMeans(data, t.columns[j], owned, fields.value[j], rec.values[j])
  }

  lemma ValueIsMeant(data: seq<byte>, c: TableColumn, owned: Owned, f: RowLayout.FieldValue, v: Value)
    requires ValueOf(data, c, owned, f, {}) == Accepted(v)
    ensures ValueMeans(data, c, owned, f, v)
  {
    hide Payload, Describes;
    if v.Long? {
      PayloadExact(data, f.data, owned[c.ordinal], {}, v.payload, v.chain);
    }
  }

  /** Every record is the stored row at the end of its own link path, with every long value assembled in full. */
  lemma RecordIsMeant(data: seq<byte>, t: Table, owned: Owned, origin: Locator)
    requires RecordOf(data, t, owned, origin).Accepted?
    ensures RecordMeans(data, t, owned, RecordOf(data, t, owned, origin).value)
  {
    hide Follow, IsPath, Values, ValueOf, ValueMeans, FieldsOf, SlotOf;
    var rec := RecordOf(data, t, owned, origin).value;
    var path := Follow(data, PageSet(t), origin, {}).value;
    FollowExact(data, PageSet(t), origin, path);
    assert Reaches(data, t, origin, rec.storage);
    FieldsOfIsFields(t, rec.raw);
    var fields := FieldsOf(t, rec.raw).value;
    forall j | 0 <= j < |t.columns| ensures ValueMeans(data, t.columns[j], owned, fields[j], rec.values[j]) {
      ValuesPrefix(data, t.columns, owned, fields, j);
      ValueIsMeant(data, t.columns[j], owned, fields[j], rec.values[j]);
    }
  }

  lemma RowsAreMeant(data: seq<byte>, t: Table, owned: Owned, records: seq<Record>)
    requires Decoded(data, t, owned, records)
    ensures forall i :: 0 <= i < |records| ==> RecordMeans(data, t, owned, records[i])
  {
    hide RecordsOf, RecordOf, FedOnce, RecordMeans, LiveSlots, DistinctStorages, Storages, ColumnComplete;
    var live := LiveSlots(data, t.pages);
    forall i | 0 <= i < |records| ensures RecordMeans(data, t, owned, records[i]) {
      RecordsAt(data, t, owned, live, i);
      RecordIsMeant(data, t, owned, live[i]);
    }
  }

  /** Fragment `k` of the value of record `i` in column `j`. */
  ghost predicate FragmentAt(columns: seq<TableColumn>, records: seq<Record>, i: int, j: int, k: int, c: nat,
                             w: Locator) {
    Feeds(columns, records, i, j, c, w) && 0 <= k < |records[i].values[j].chain| && records[i].values[j].chain[k] == w
  }

  lemma ChainHasNoRepeats(data: seq<byte>, field: seq<byte>, owned: set<nat>, value: seq<byte>, chain: seq<Locator>)
    requires Describes(data, field, owned, value, chain)
    ensures NoRepeats(chain) && |value| == DeclaredLength(field)
  {
    hide Linked, Spelled, LocatorAt;
    if chain != [] {
      LinkedDistinct(data, owned, Flags(field) == 0x40, LocatorAt(field, 4), chain);
    }
  }

  lemma LongValueShape(data: seq<byte>, t: Table, owned: Owned, rec: Record, j: nat)
    requires RecordMeans(data, t, owned, rec) && j < |t.columns| && rec.values[j].Long?
    ensures NoRepeats(rec.values[j].chain) && |rec.values[j].descriptor| >= 12
    ensures |rec.values[j].payload| == DeclaredLength(rec.values[j].descriptor)
  {
    hide Describes, RowLayout.Fields, Reaches, RawOf;
    var c, v := t.columns[j], rec.values[j];
    var f := RowLayout.Fields(rec.raw, Layouts(t.columns), t.highWater).value[j];
    assert ValueMeans(data, c, owned, f, v);
    DescriptorFrames(data, f, owned[c.ordinal], v.payload, v.chain);
    ChainHasNoRepeats(data, v.descriptor, owned[c.ordinal], v.payload, v.chain);
  }

  lemma DescriptorFrames(data: seq<byte>, f: RowLayout.FieldValue, owned: set<nat>, value: seq<byte>,
                         chain: seq<Locator>)
    requires f.Present? && Describes(data, f.data, owned, value, chain)
    ensures |f.data| >= 12
  {
  }

  /** Every live slot on a column's pages is one fragment of one value, and every value has its declared length. */
  lemma PayloadsPartitionSlots(data: seq<byte>, t: Table, owned: Owned, records: seq<Record>)
    requires Decoded(data, t, owned, records)
    ensures forall c, w: Locator :: c in owned ==>
              ((w.page in owned[c] && Live(data, w))
               <==> exists i, j, k :: FragmentAt(t.columns, records, i, j, k, c, w))
    ensures forall i, j, k, p, q, l, c, w ::
              FragmentAt(t.columns, records, i, j, k, c, w) && FragmentAt(t.columns, records, p, q, l, c, w) ==>
                i == p && j == q && k == l
    ensures forall i, j :: 0 <= i < |records| && 0 <= j < |records[i].values| && records[i].values[j].Long? ==>
              |records[i].values[j].descriptor| >= 12
              && |records[i].values[j].payload| == DeclaredLength(records[i].values[j].descriptor)
  {
    hide RecordsOf, Live, LiveSlots, RecordMeans, DistinctStorages, Storages;
    RowsAreMeant(data, t, owned, records);
    forall i, j | 0 <= i < |records| && 0 <= j < |records[i].values| && records[i].values[j].Long?
      ensures NoRepeats(records[i].values[j].chain) && |records[i].values[j].descriptor| >= 12
      ensures |records[i].values[j].payload| == DeclaredLength(records[i].values[j].descriptor)
    {
      ValuesPerColumn(data, t, owned, records[i]);
      LongValueShape(data, t, owned, records[i], j);
    }
    forall c, w: Locator | c in owned
      ensures (w.page in owned[c] && Live(data, w)) <==> exists i, j, k :: FragmentAt(t.columns, records, i, j, k, c, w)
    {
      assert ColumnComplete(data, t, owned, records, c);
      if i, j :| Feeds(t.columns, records, i, j, c, w) {
        var k :| 0 <= k < |records[i].values[j].chain| && records[i].values[j].chain[k] == w;
        assert FragmentAt(t.columns, records, i, j, k, c, w);
      }
    }
  }

  lemma ValuesPerColumn(data: seq<byte>, t: Table, owned: Owned, rec: Record)
    requires RecordMeans(data, t, owned, rec)
    ensures |rec.values| == |t.columns|
  {
    hide RowLayout.Fields, Reaches, RawOf, ValueMeans;
  }

  // ----- Decoded rows against the bytes of their pages -----

  /** The second byte of the directory word of a slot. */
  function FlagByte(data: seq<byte>, w: Locator): (b: byte)
    requires SlotOf(data, w).Accepted?
  {
    FlagPlace(data, w);
    PageOf(data, w.page).value[11 + 2 * w.row]
  }

  lemma FlagPlace(data: seq<byte>, w: Locator)
    requires SlotOf(data, w).Accepted?
    ensures PageOf(data, w.page).Accepted? && 12 + 2 * w.row <= PAGE
  {
    SlotByDirectory(data, w);
  }

  lemma FlagsRead(data: seq<byte>, w: Locator)
    requires SlotOf(data, w).Accepted?
    ensures SlotOf(data, w).value.hidden <==> FlagByte(data, w) >= 128
    ensures SlotOf(data, w).value.overflow <==> FlagByte(data, w) as int / 64 % 2 == 1
  {
    hide SlotOf;
    SlotByDirectory(data, w);
  }

  /** Rows start at the slots whose top bit is clear and are stored in the nonempty slots whose next bit is clear. */
  lemma RowsByBytes(data: seq<byte>, t: Table, owned: Owned, records: seq<Record>, w: Locator)
    requires Decoded(data, t, owned, records)
    ensures (exists i :: 0 <= i < |records| && records[i].origin == w)
            <==> w.page in t.pages && SlotOf(data, w).Accepted? && FlagByte(data, w) < 128
    ensures (exists i :: 0 <= i < |records| && records[i].storage == w)
            <==> && w.page in t.pages && SlotOf(data, w).Accepted?
                 && SlotOf(data, w).value.data != [] && FlagByte(data, w) as int / 64 % 2 == 0
  {
    hide Decoded, SlotOf, FlagByte;
    RowsBijection(data, t, owned, records);
    if SlotOf(data, w).Accepted? {
      FlagsRead(data, w);
    }
  }

  /** The slots of long-value pages that are fragments of some value are those whose top bit is clear. */
  lemma FragmentsByBytes(data: seq<byte>, t: Table, owned: Owned, records: seq<Record>, c: nat, w: Locator)
    requires Decoded(data, t, owned, records) && c in owned
    ensures (exists i, j, k :: FragmentAt(t.columns, records, i, j, k, c, w))
            <==> w.page in owned[c] && SlotOf(data, w).Accepted? && FlagByte(data, w) < 128
  {
    hide Decoded, SlotOf, FragmentAt, FlagByte;
    PayloadsPartitionSlots(data, t, owned, records);
    if SlotOf(data, w).Accepted? {
      FlagsRead(data, w);
    }
  }
}
