/**
 * What the row decoder does not see. It reads only the data pages of its table and the pages of its long-value
 * columns, so an edit elsewhere changes no record, and one more data page adds only the rows it holds.
 */
module RowFrames {
  import opened Bytes
  import opened DataPages
  import opened AllocationMaps
  import opened Links
  import opened TableRows
  import RowLayout

  ghost predicate SamePages(before: seq<byte>, after: seq<byte>, pages: set<nat>) {
    forall q :: q in pages ==> PageOf(after, q) == PageOf(before, q)
  }

  /** The pages that decoding the table looks at are untouched. */
  ghost predicate SameTable(before: seq<byte>, after: seq<byte>, t: Table, owned: Owned) {
    SamePages(before, after, PageSet(t)) && forall c :: c in owned ==> SamePages(before, after, owned[c])
  }

  // ----- Long values -----

  lemma FragmentKept(before: seq<byte>, after: seq<byte>, owned: set<nat>, w: Locator)
    requires SamePages(before, after, owned)
    ensures Fragment(after, owned, w) == Fragment(before, owned, w)
  {
  }

  lemma {:induction false} ChainKept(
    before: seq<byte>, after: seq<byte>, owned: set<nat>, single: bool, at: Locator, reached: set<Locator>)
    requires SamePages(before, after, owned)
    ensures Chain(after, owned, single, at, reached) == Chain(before, owned, single, at, reached)
    decreases |Places(owned) - reached|
  {
    hide Fragment, LocatorAt, Places;
    FragmentKept(before, after, owned, at);
    var fragment := Fragment(before, owned, at);
    if at.page != 0 && at !in reached && fragment.Accepted? && !single && |fragment.value| > 4 {
      FragmentInside(before, owned, at);
      FewerPlaces(owned, reached, at);
      ChainKept(before, after, owned, single, LocatorAt(fragment.value, 0), reached + {at});
    }
  }

  lemma FragmentInside(data: seq<byte>, owned: set<nat>, w: Locator)
    requires Fragment(data, owned, w).Accepted?
    ensures w.page in owned && w.row < 1024
  {
  }

  lemma {:induction false} SpelledKept(before: seq<byte>, after: seq<byte>, owned: set<nat>, single: bool,
                                       chain: seq<Locator>)
    requires SamePages(before, after, owned)
    ensures Spelled(after, owned, single, chain) == Spelled(before, owned, single, chain)
  {
    hide Fragment;
    if chain != [] {
      var n := |chain| - 1;
      SpelledKept(before, after, owned, single, chain[..n]);
      FragmentKept(before, after, owned, chain[n]);
    }
  }

  lemma PayloadKept(before: seq<byte>, after: seq<byte>, field: seq<byte>, owned: set<nat>)
    requires SamePages(before, after, owned)
    ensures Payload(after, field, owned, {}) == Payload(before, field, owned, {})
  {
    hide Chain, Spelled, LocatorAt;
    if |field| >= 12 {
      var single, at := Flags(field) == 0x40, LocatorAt(field, 4);
      ChainKept(before, after, owned, single, at, {});
      if Chain(before, owned, single, at, {}).Accepted? {
        SpelledKept(before, after, owned, single, Chain(before, owned, single, at, {}).value);
      }
    }
  }

  lemma {:induction false} ValuesKept(
    before: seq<byte>, after: seq<byte>, columns: seq<TableColumn>, owned: Owned, fields: seq<RowLayout.FieldValue>)
    requires |fields| == |columns| && forall c :: c in owned ==> SamePages(before, after, owned[c])
    ensures Values(after, columns, owned, fields) == Values(before, columns, owned, fields)
  {
    hide Payload, SamePages;
    if columns != [] {
      var n := |columns| - 1;
      ValuesKept(before, after, columns[..n], owned, fields[..n]);
      if columns[n].long && fields[n].Present? && columns[n].ordinal in owned {
        PayloadKept(before, after, fields[n].data, owned[columns[n].ordinal]);
      }
    }
  }

  // ----- Records -----

  lemma NextSlotKept(before: seq<byte>, after: seq<byte>, pages: set<nat>, more: set<nat>, row: Row)
    requires SamePages(before, after, pages) && pages <= more && NextSlot(before, pages, row).Accepted?
    ensures NextSlot(after, more, row) == NextSlot(before, pages, row)
  {
    hide LocatorAt;
  }

  lemma SlotKept(before: seq<byte>, after: seq<byte>, pages: set<nat>, w: Locator)
    requires SamePages(before, after, pages) && w.page in pages
    ensures SlotOf(after, w) == SlotOf(before, w)
  {
  }

  lemma {:induction false} PathKept(before: seq<byte>, after: seq<byte>, pages: set<nat>, more: set<nat>,
                                    path: seq<Locator>)
    requires SamePages(before, after, pages) && pages <= more && IsPath(before, pages, path)
    ensures IsPath(after, more, path)
    decreases |path|
  {
    hide SlotOf, NextSlot, SamePages;
    SlotKept(before, after, pages, path[0]);
    var row := SlotOf(before, path[0]).value;
    if row.overflow {
      NextSlotKept(before, after, pages, more, row);
      PathKept(before, after, pages, more, path[1..]);
    }
  }

  lemma FollowKept(before: seq<byte>, after: seq<byte>, pages: set<nat>, more: set<nat>, at: Locator)
    requires SamePages(before, after, pages) && pages <= more && at.page in pages
    requires Follow(before, pages, at, {}).Accepted?
    ensures Follow(after, more, at, {}) == Follow(before, pages, at, {})
  {
    hide Follow, IsPath, SamePages;
    var path := Follow(before, pages, at, {}).value;
    FollowExact(before, pages, at, path);
    PathKept(before, after, pages, more, path);
    FollowExact(after, more, at, path);
  }

  lemma EndpointInside(data: seq<byte>, pages: set<nat>, at: Locator)
    requires at.page in pages && Follow(data, pages, at, {}).Accepted?
    ensures Endpoint(Follow(data, pages, at, {})).Accepted? && Endpoint(Follow(data, pages, at, {})).value.page in pages
  {
    hide Follow, IsPath;
    var path := Follow(data, pages, at, {}).value;
    FollowExact(data, pages, at, path);
    PathSuffix(data, pages, path, |path| - 1);
    PathStarts(data, pages, path[|path| - 1..]);
  }

  lemma PathStarts(data: seq<byte>, pages: set<nat>, path: seq<Locator>)
    requires IsPath(data, pages, path)
    ensures path != [] && path[0].page in pages
  {
  }

  /** A record is found again after an edit elsewhere, also when the table has more pages. */
  lemma RecordKept(before: seq<byte>, after: seq<byte>, t: Table, more: Table, owned: Owned, origin: Locator)
    requires SameTable(before, after, t, owned) && PageSet(t) <= PageSet(more) && more == t.(pages := more.pages)
    requires RecordOf(before, t, owned, origin).Accepted?
    ensures RecordOf(after, more, owned, origin) == RecordOf(before, t, owned, origin)
  {
    hide Follow, Values, FieldsOf, SlotOf, SamePages, PageSet;
    FollowKept(before, after, PageSet(t), PageSet(more), origin);
    EndpointInside(before, PageSet(t), origin);
    var rec := RecordOf(before, t, owned, origin).value;
    SlotKept(before, after, PageSet(t), rec.storage);
    SameFields(t, more, rec.raw);
    ValuesKept(before, after, t.columns, owned, FieldsOf(t, rec.raw).value);
  }

  lemma SameFields(t: Table, more: Table, raw: seq<byte>)
    requires more == t.(pages := more.pages)
    ensures FieldsOf(more, raw) == FieldsOf(t, raw)
  {
  }

  lemma {:induction false} RecordsKept(before: seq<byte>, after: seq<byte>, t: Table, more: Table, owned: Owned,
                                       live: seq<Locator>)
    requires SameTable(before, after, t, owned) && PageSet(t) <= PageSet(more) && more == t.(pages := more.pages)
    requires RecordsOf(before, t, owned, live).Accepted?
    ensures RecordsOf(after, more, owned, live) == RecordsOf(before, t, owned, live)
  {
    hide RecordOf, SameTable, PageSet;
    if live != [] {
      var n := |live| - 1;
      RecordsKept(before, after, t, more, owned, live[..n]);
      RecordKept(before, after, t, more, owned, live[n]);
    }
  }

  lemma {:induction false} LiveSlotsKept(before: seq<byte>, after: seq<byte>, pages: seq<nat>)
    requires forall p :: p in pages ==> Readable(before, p) && PageOf(after, p) == PageOf(before, p)
    ensures forall p :: p in pages ==> Readable(after, p)
    ensures LiveSlots(after, pages) == LiveSlots(before, pages)
  {
    hide PageOf, DirectoryAccepted, LiveOf;
    if pages != [] {
      var n := |pages| - 1;
      LiveSlotsKept(before, after, pages[..n]);
      assert pages[n] in pages;
    }
  }

  lemma ColumnKept(before: seq<byte>, after: seq<byte>, t: Table, more: Table, owned: Owned, records: seq<Record>,
                   c: nat)
    requires c in owned && SamePages(before, after, owned[c]) && ColumnComplete(before, t, owned, records, c)
    requires more.columns == t.columns
    ensures ColumnComplete(after, more, owned, records, c)
  {
    hide DirectoryAccepted, RowAt, TableRows.Used;
  }

  /** An edit elsewhere leaves the decoded rows of a table as they are. */
  lemma DecodedKept(before: seq<byte>, after: seq<byte>, t: Table, owned: Owned, records: seq<Record>)
    requires Decoded(before, t, owned, records) && SameTable(before, after, t, owned)
    ensures Decoded(after, t, owned, records)
  {
    hide RecordsOf, FedOnce, DistinctStorages, Storages, ColumnComplete, LiveSlots, Readable;
    LiveSlotsKept(before, after, t.pages);
    RecordsKept(before, after, t, t, owned, LiveSlots(before, t.pages));
    forall c | c in owned ensures ColumnComplete(after, t, owned, records, c) {
      ColumnKept(before, after, t, t, owned, records, c);
    }
    forall w: Locator | w.page in t.pages ensures Stores(after, w) <==> Stores(before, w) {
      SlotKept(before, after, PageSet(t), w);
    }
  }

  // ----- One more page -----

  /** The record of a row stored alone on page `page`. */
  function NewRecord(data: seq<byte>, t: Table, owned: Owned, page: nat, encoded: seq<byte>): (r: Result<Record>)
    ensures r.Accepted? ==> |r.value.values| == |t.columns| && r.value.origin == Locator(page, 0)
  {
    var fields :- FieldsOf(t, encoded);
    var values :- Values(data, t.columns, owned, fields);
    Accepted(Record(Locator(page, 0), Locator(page, 0), encoded, values))
  }

  /** No value of the record has fragments of its own. */
  ghost predicate SelfContained(rec: Record) {
    forall j :: 0 <= j < |rec.values| && rec.values[j].Long? ==> rec.values[j].chain == []
  }

  lemma NewPageSlots(data: seq<byte>, page: nat, encoded: seq<byte>, root: nat)
    requires |encoded| <= 2036 && root < 0x1_0000_0000 && PageOf(data, page) == Accepted(NewPage(encoded, root))
    ensures Readable(data, page) && PageLive(data, page) == [Locator(page, 0)]
    ensures forall row: nat :: SlotOf(data, Locator(page, row))
                               == if row == 0 then Accepted(Row(encoded, false, false)) else Rejected
  {
    hide NewPage, DirectoryAccepted, PageOf, RowAt;
    var image := NewPage(encoded, root);
    NewPageRows(encoded, root);
    OneRow(image, encoded);
    assert LiveOf(image, page, 0) == [];
    assert LiveOf(image, page, 1) == [] + [Locator(page, 0)];
  }

  lemma OneRow(image: Image, encoded: seq<byte>)
    requires WellFormed(image) && Rows(image) == [Row(encoded, false, false)]
    ensures DirectoryAccepted(image) && Count(image) == 1 && RowAt(image, 0) == Row(encoded, false, false)
  {
    assert Rows(image)[0] == RowAt(image, 0);
  }

  lemma NewRecordRead(before: seq<byte>, after: seq<byte>, t: Table, more: Table, owned: Owned, page: nat,
                      encoded: seq<byte>, root: nat)
    requires SameTable(before, after, t, owned) && more == t.(pages := t.pages + [page])
    requires |encoded| <= 2036 && root < 0x1_0000_0000 && PageOf(after, page) == Accepted(NewPage(encoded, root))
    ensures RecordOf(after, more, owned, Locator(page, 0)) == NewRecord(before, t, owned, page, encoded)
  {
    hide Values, FieldsOf, NewPage, PageOf, SlotOf, SamePages, NextSlot;
    var w := Locator(page, 0);
    NewPageSlots(after, page, encoded, root);
    assert SlotOf(after, w) == Accepted(Row(encoded, false, false));
    assert w.page in PageSet(more);
    assert Follow(after, PageSet(more), w, {}) == Accepted([w]);
    SameFields(t, more, encoded);
    if FieldsOf(t, encoded).Accepted? {
      ValuesKept(before, after, t.columns, owned, FieldsOf(t, encoded).value);
    }
  }

  lemma EmptyRowRejected(t: Table)
    ensures FieldsOf(t, []).Rejected?
  {
  }

  /** A record without fragments feeds nothing, so columns stay complete and no slot is fed twice. */
  lemma SelfContainedFeeds(columns: seq<TableColumn>, records: seq<Record>, rec: Record)
    requires SelfContained(rec)
    ensures FedOnce(columns, records + [rec]) <==> FedOnce(columns, records)
    ensures forall c, w :: TableRows.Used(columns, records + [rec], c, w) <==> TableRows.Used(columns, records, c, w)
  {
    var more := records + [rec];
    assert more[|records|] == rec && forall i :: 0 <= i < |records| ==> more[i] == records[i];
    forall i, j, c, w ensures Feeds(columns, more, i, j, c, w) <==> Feeds(columns, records, i, j, c, w) {
    }
    forall c, w ensures TableRows.Used(columns, more, c, w) <==> TableRows.Used(columns, records, c, w) {
      if i, j :| Feeds(columns, records, i, j, c, w) {
        assert Feeds(columns, more, i, j, c, w);
      }
    }
  }

  lemma OldFeeds(columns: seq<TableColumn>, records: seq<Record>, rec: Record, i: int, j: int, c: nat, w: Locator)
    requires Feeds(columns, records, i, j, c, w)
    ensures i < |records| && Feeds(columns, records + [rec], i, j, c, w)
  {
  }

  lemma LongIsOwned(data: seq<byte>, t: Table, owned: Owned, page: nat, encoded: seq<byte>, j: nat)
    requires NewRecord(data, t, owned, page, encoded).Accepted? && j < |t.columns|
    requires NewRecord(data, t, owned, page, encoded).value.values[j].Long?
    ensures t.columns[j].ordinal in owned
  {
    hide Values, FieldsOf, Payload;
    var fields := FieldsOf(t, encoded).value;
    ValuesPrefix(data, t.columns, owned, fields, j);
  }

  /** Live slots of a complete column are all in use, so a new record can have no fragments. */
  lemma NoFragmentsLeft(before: seq<byte>, after: seq<byte>, t: Table, more: Table, owned: Owned, records: seq<Record>,
                        rec: Record, j: nat)
    requires more.columns == t.columns && j < |rec.values| == |t.columns| && rec.values[j].Long?
    requires rec.values[j].chain != []
    requires t.columns[j].ordinal in owned && SamePages(before, after, owned[t.columns[j].ordinal])
    requires ColumnComplete(before, t, owned, records, t.columns[j].ordinal)
    requires ColumnComplete(after, more, owned, records + [rec], t.columns[j].ordinal)
    ensures !FedOnce(t.columns, records + [rec])
  {
    hide FedOnce, Feeds, LongReadable, SamePages, SlotOf;
    var c, w, n := t.columns[j].ordinal, rec.values[j].chain[0], |records|;
    assert Feeds(t.columns, records + [rec], n, j, c, w) by {
      NewFeeds(t.columns, records, rec, j);
    }
    assert TableRows.Used(t.columns, records + [rec], c, w);
    assert w.page in owned[c] && Live(after, w);
    SlotKept(before, after, owned[c], w);
    assert TableRows.Used(t.columns, records, c, w);
    var i, k :| Feeds(t.columns, records, i, k, c, w);
    OldFeeds(t.columns, records, rec, i, k, c, w);
    FedTwice(t.columns, records + [rec], i, k, n, j, c, w);
  }

  lemma NewFeeds(columns: seq<TableColumn>, records: seq<Record>, rec: Record, j: nat)
    requires j < |rec.values| == |columns| && rec.values[j].Long? && rec.values[j].chain != []
    ensures Feeds(columns, records + [rec], |records|, j, columns[j].ordinal, rec.values[j].chain[0])
  {
  }

  lemma FedTwice(columns: seq<TableColumn>, records: seq<Record>, i: int, j: int, k: int, l: int, c: nat, w: Locator)
    requires Feeds(columns, records, i, j, c, w) && Feeds(columns, records, k, l, c, w) && i != k
    ensures !FedOnce(columns, records)
  {
    hide Feeds;
  }

  /** Everything `Decoded` asks of the records themselves. */
  ghost predicate Whole(data: seq<byte>, t: Table, owned: Owned, records: seq<Record>) {
    && DistinctStorages(records)
    && FedOnce(t.columns, records)
    && (forall w: Locator :: w in Storages(records) <==> w.page in t.pages && Stores(data, w))
    && (forall c :: c in owned ==> ColumnComplete(data, t, owned, records, c))
  }

  lemma WholeGrows(before: seq<byte>, after: seq<byte>, t: Table, more: Table, owned: Owned, records: seq<Record>,
                   page: nat, encoded: seq<byte>, root: nat)
    requires Whole(before, t, owned, records) && SameTable(before, after, t, owned)
    requires page !in t.pages && more == t.(pages := t.pages + [page])
    requires NewRecord(before, t, owned, page, encoded).Accepted?
    requires |encoded| <= 2036 && root < 0x1_0000_0000 && PageOf(after, page) == Accepted(NewPage(encoded, root))
    ensures var rec := NewRecord(before, t, owned, page, encoded).value;
            Whole(after, more, owned, records + [rec]) <==> SelfContained(rec)
  {
    hide NewPage, PageOf, SlotOf, FedOnce, DistinctStorages, Storages, ColumnComplete, Values, FieldsOf;
    var rec := NewRecord(before, t, owned, page, encoded).value;
    StorageAdded(records, rec);
    assert rec.storage == Locator(page, 0) && rec.storage !in Storages(records);
    StoresGrows(before, after, t, owned, page, encoded, root);
    if SelfContained(rec) {
      SelfContainedFeeds(t.columns, records, rec);
      forall c | c in owned ensures ColumnComplete(after, more, owned, records + [rec], c) {
        ColumnKept(before, after, t, more, owned, records, c);
        SameUse(after, more, owned, records, records + [rec], c);
      }
    } else {
      var j :| 0 <= j < |rec.values| && rec.values[j].Long? && rec.values[j].chain != [];
      LongIsOwned(before, t, owned, page, encoded, j);
      if Whole(after, more, owned, records + [rec]) {
        NoFragmentsLeft(before, after, t, more, owned, records, rec, j);
      }
    }
  }

  lemma SameUse(data: seq<byte>, t: Table, owned: Owned, a: seq<Record>, b: seq<Record>, c: nat)
    requires c in owned && ColumnComplete(data, t, owned, a, c)
    requires forall c, w :: TableRows.Used(t.columns, b, c, w) <==> TableRows.Used(t.columns, a, c, w)
    ensures ColumnComplete(data, t, owned, b, c)
  {
    hide TableRows.Used, Live, LongReadable;
  }

  lemma StoresGrows(before: seq<byte>, after: seq<byte>, t: Table, owned: Owned, page: nat, encoded: seq<byte>,
                    root: nat)
    requires SameTable(before, after, t, owned) && NewRecord(before, t, owned, page, encoded).Accepted?
    requires |encoded| <= 2036 && root < 0x1_0000_0000 && PageOf(after, page) == Accepted(NewPage(encoded, root))
    ensures forall w: Locator :: w.page in t.pages ==> (Stores(after, w) <==> Stores(before, w))
    ensures forall w: Locator :: w.page == page ==> (Stores(after, w) <==> w == Locator(page, 0))
  {
    hide NewPage, PageOf, SlotOf, Values;
    EmptyRowRejected(t);
    NewPageSlots(after, page, encoded, root);
    forall w: Locator | w.page in t.pages ensures Stores(after, w) <==> Stores(before, w) {
      SlotKept(before, after, PageSet(t), w);
    }
    forall w: Locator | w.page == page ensures Stores(after, w) <==> w == Locator(page, 0) {
      assert w == Locator(page, w.row);
    }
  }

  lemma LiveSlotsGrow(before: seq<byte>, after: seq<byte>, t: Table, owned: Owned, page: nat, encoded: seq<byte>,
                      root: nat)
    requires (forall p :: p in t.pages ==> Readable(before, p)) && SameTable(before, after, t, owned)
    requires |encoded| <= 2036 && root < 0x1_0000_0000 && PageOf(after, page) == Accepted(NewPage(encoded, root))
    ensures forall p :: p in t.pages + [page] ==> Readable(after, p)
    ensures LiveSlots(after, t.pages + [page]) == LiveSlots(before, t.pages) + [Locator(page, 0)]
  {
    hide NewPage, Readable, PageLive;
    LiveSlotsKept(before, after, t.pages);
    NewPageSlots(after, page, encoded, root);
    assert (t.pages + [page])[..|t.pages|] == t.pages;
  }

  /**
   * A table that gained a page with one row has a complete decoding exactly when that row has a record without
   * fragments, and the decoding is then the old one followed by this record.
   */
  lemma DecodedGrows(before: seq<byte>, after: seq<byte>, t: Table, owned: Owned, records: seq<Record>, page: nat,
                     encoded: seq<byte>, root: nat, grown: seq<Record>)
    requires Decoded(before, t, owned, records) && SameTable(before, after, t, owned) && page !in t.pages
    requires |encoded| <= 2036 && root < 0x1_0000_0000 && PageOf(after, page) == Accepted(NewPage(encoded, root))
    ensures var rec := NewRecord(before, t, owned, page, encoded);
            Decoded(after, t.(pages := t.pages + [page]), owned, grown)
            <==> rec.Accepted? && SelfContained(rec.value) && grown == records + [rec.value]
  {
    hide NewPage, PageOf, RecordsOf, RecordOf, Readable, LiveSlots, FedOnce, DistinctStorages, Storages, ColumnComplete,
         Stores, NewRecord, SameTable;
    var more := t.(pages := t.pages + [page]);
    var live := LiveSlots(before, t.pages);
    LiveSlotsGrow(before, after, t, owned, page, encoded, root);
    RecordsKept(before, after, t, more, owned, live);
    RecordAdded(after, more, owned, live, Locator(page, 0));
    NewRecordRead(before, after, t, more, owned, page, encoded, root);
    if NewRecord(before, t, owned, page, encoded).Accepted? {
      WholeGrows(before, after, t, more, owned, records, page, encoded, root);
    }
  }
}
