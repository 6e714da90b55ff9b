/**
 * Which records a bulk-built tree may carry: the decoder's verdict on a build (`BuiltTrees.Readable`) in terms
 * of the records themselves, and the records that `observe` in oracle/windows-dao/structure.py makes from rows.
 *
 * The builder compares whole records, the decoder compares a record together with the child page behind it.
 * The two orders differ only where a record is a proper prefix of a later one.
 */
module BuiltRecords {
  import opened Bytes
  import opened DataPages
  import opened KeyEncoding
  import opened KeyParsing
  import opened IndexNodes
  import opened IndexTrees
  import opened TreePlans
  import opened BuiltTrees
  import KeyOrder
  import KeyShortening

  // ----- Sorted records -----

  ghost predicate StrictlySorted(records: seq<seq<byte>>) {
    forall i :: 0 <= i < |records| - 1 ==> Less(records[i], records[i + 1])
  }

  lemma {:induction false} RecordsLess(records: seq<seq<byte>>, i: nat, j: nat)
    requires StrictlySorted(records) && i < j < |records|
    ensures Less(records[i], records[j])
  {
    hide Less;
    if i + 1 < j {
      RecordsLess(records, i, j - 1);
      LessTransitive(records[i], records[j - 1], records[j]);
    }
  }

  ghost predicate AllMeasured(records: seq<seq<byte>>, fields: seq<Field>) {
    forall i :: 0 <= i < |records| ==> WidthAccepted(records[i], fields, false)
  }

  /** Entry `k` of a branch stays below the next one although child pages follow both records. */
  ghost predicate EntriesClear(b: Build, i: nat, k: nat)
    requires Shaped(b) && i < |b.nodes| && IsBranch(b, i) && k + 1 < EntryCount(b, i)
  {
    var r, next, c := RecordAt(b, i, k), RecordAt(b, i, k + 1), b.nodes[i].children.start + k;
    r <= next ==> Less(BigEndian(PageFor(b, c), 4), next[|r|..] + BigEndian(PageFor(b, c + 1), 4))
  }

  /** The positions of two neighbouring separators among the records. */
  lemma SeparatorPositions(b: Build, i: nat, k: nat)
    requires Shaped(b) && i < |b.nodes| && IsBranch(b, i) && k < EntryCount(b, i)
    ensures var c := b.nodes[i].children.start + k;
            && c + 1 < |b.nodes| && 0 < b.nodes[c].entries.end <= |b.records|
            && RecordAt(b, i, k) == b.records[b.nodes[c].entries.end - 1]
            && b.nodes[c].entries.end == b.nodes[c + 1].entries.start < b.nodes[c + 1].entries.end <= |b.records|
            && b.nodes[c].siblings == b.nodes[c + 1].siblings && c + 1 < b.nodes[c].siblings.end
  {
    hide Shaped;
    ShapeOf(b, i);
    ChildLevel(b, i);
    var c := b.nodes[i].children.start + k;
    ShapeOf(b, c);
    ShapeOf(b, c + 1);
    NextChild(b, c, c);
  }

  /** What follows two sorted records decides their order exactly when the first is a prefix of the second. */
  lemma FollowedOrder(r: seq<byte>, next: seq<byte>, p: seq<byte>, q: seq<byte>)
    requires Less(r, next) && |p| == |q|
    ensures AtMost(r + p, next + q) <==> (r <= next ==> Less(p, next[|r|..] + q))
  {
    LessCases(r, next);
    if Below(r, next) {
      BelowExtends(r, next, p, q);
      BelowIsNotPrefix(r, next);
    } else {
      var x := next[|r|..];
      assert next + q == r + (x + q);
      KeyOrder.LessUnderPrefix(r, p, x + q);
      assert |r + p| < |next + q|;
    }
  }

  lemma NeighboursSorted(b: Build, i: nat, k: nat)
    requires Shaped(b) && StrictlySorted(b.records) && i < |b.nodes| && IsBranch(b, i) && k + 1 < EntryCount(b, i)
    ensures AtMost(EntryAt(b, i, k), EntryAt(b, i, k + 1)) <==> EntriesClear(b, i, k)
    ensures SeparatorStrict(b, i, k)
  {
    hide Shaped, StrictlySorted, Less, BigEndian, EntryAt, RecordAt, PageFor;
    SeparatorPositions(b, i, k);
    SeparatorPositions(b, i, k + 1);
    EntryParts(b, i, k);
    EntryParts(b, i, k + 1);
    var c := b.nodes[i].children.start + k;
    var e, f := b.nodes[c].entries.end, b.nodes[c + 1].entries.end;
    RecordsLess(b.records, e - 1, f - 1);
    RecordsLess(b.records, e - 1, e);
    FollowedOrder(RecordAt(b, i, k), RecordAt(b, i, k + 1), BigEndian(PageFor(b, c), 4),
                  BigEndian(PageFor(b, c + 1), 4));
  }

  lemma SeparatorsStrict(b: Build, i: nat, k: nat)
    requires Shaped(b) && StrictlySorted(b.records) && i < |b.nodes| && IsBranch(b, i) && k < EntryCount(b, i)
    ensures SeparatorStrict(b, i, k)
  {
    hide Shaped, StrictlySorted, Less, RecordAt;
    SeparatorPositions(b, i, k);
    var e := b.nodes[b.nodes[i].children.start + k].entries.end;
    RecordsLess(b.records, e - 1, e);
  }

  lemma LeafReadable(b: Build, fields: seq<Field>, i: nat)
    requires Shaped(b) && StrictlySorted(b.records) && AllMeasured(b.records, fields) && i < |b.nodes|
    requires !IsBranch(b, i)
    ensures NodeReadable(b, fields, i)
  {
    hide Shaped, Less, WidthAccepted;
    ShapeOf(b, i);
    LeafNodeEntries(b, i);
    var n, entries := b.nodes[i].entries, NodeEntries(b, i);
    forall k | 0 <= k < |entries| - 1 ensures AtMost(entries[k], entries[k + 1]) {
      assert Less(b.records[n.start + k], b.records[n.start + k + 1]);
    }
  }

  lemma BranchWidths(b: Build, fields: seq<Field>, i: nat, k: nat)
    requires Planned(b.nodes, b.records) && Shaped(b) && AllMeasured(b.records, fields) && i < |b.nodes|
    requires IsBranch(b, i)
    requires k < EntryCount(b, i)
    ensures WidthAccepted(EntryAt(b, i, k), fields, true)
  {
    hide WidthAccepted, Planned, Shaped, BigEndian, EntryAt;
    EntryParts(b, i, k);
    RecordIsOne(b, i, k);
    WidthExtends(RecordAt(b, i, k), fields, BigEndian(PageFor(b, b.nodes[i].children.start + k), 4));
  }

  lemma BranchReadable(b: Build, fields: seq<Field>, i: nat)
    requires Planned(b.nodes, b.records) && Shaped(b) && StrictlySorted(b.records) && AllMeasured(b.records, fields)
    requires i < |b.nodes| && IsBranch(b, i)
    ensures NodeReadable(b, fields, i) <==> forall k: nat :: k + 1 < EntryCount(b, i) ==> EntriesClear(b, i, k)
  {
    hide Planned, Shaped, StrictlySorted, AllMeasured, WidthAccepted, Less, EntryAt, EntriesClear, SeparatorStrict;
    var entries := NodeEntries(b, i);
    forall k: nat | k < EntryCount(b, i)
      ensures WidthAccepted(EntryAt(b, i, k), fields, true) && SeparatorStrict(b, i, k)
    {
      BranchWidths(b, fields, i, k);
      SeparatorsStrict(b, i, k);
    }
    forall k: nat | k + 1 < EntryCount(b, i)
      ensures AtMost(entries[k], entries[k + 1]) <==> EntriesClear(b, i, k)
    {
      NeighboursSorted(b, i, k);
    }
    if Sorted(entries) {
      forall k: nat | k + 1 < EntryCount(b, i) ensures EntriesClear(b, i, k) {
        assert AtMost(entries[k], entries[k + 1]);
      }
    }
  }

  /**
   * A build over strictly sorted, measured records is read back exactly when, wherever a separator is a prefix
   * of the next one, its child page comes before what the next one goes on with.
   */
  lemma SortedBuildReadable(b: Build, fields: seq<Field>)
    requires Ready(b) && StrictlySorted(b.records) && AllMeasured(b.records, fields)
    ensures Shaped(b)
    ensures Readable(b, fields) <==>
            forall i: nat, k: nat :: i < |b.nodes| && IsBranch(b, i) && k + 1 < EntryCount(b, i) ==>
              EntriesClear(b, i, k)
  {
    hide Ready, Planned, Shaped, StrictlySorted, AllMeasured, NodeReadable, EntriesClear;
    ReadyShaped(b);
    forall i: nat | i < |b.nodes|
      ensures NodeReadable(b, fields, i) <==>
              (IsBranch(b, i) ==> forall k: nat :: k + 1 < EntryCount(b, i) ==> EntriesClear(b, i, k))
    {
      if IsBranch(b, i) {
        BranchReadable(b, fields, i);
      } else {
        LeafReadable(b, fields, i);
      }
    }
  }

  /** Records that decide against each other at a byte both have are always read back. */
  lemma DecidedRecordsRead(b: Build, fields: seq<Field>)
    requires Ready(b) && StrictlySorted(b.records) && AllMeasured(b.records, fields)
    requires forall i, j :: 0 <= i < j < |b.records| ==> !(b.records[i] <= b.records[j])
    ensures Shaped(b) && Readable(b, fields)
  {
    hide Ready, Planned, Shaped, StrictlySorted, AllMeasured, NodeReadable, Readable, RecordAt;
    ReadyShaped(b);
    SortedBuildReadable(b, fields);
    forall i: nat, k: nat | i < |b.nodes| && IsBranch(b, i) && k + 1 < EntryCount(b, i) ensures EntriesClear(b, i, k) {
      SeparatorPositions(b, i, k);
      SeparatorPositions(b, i, k + 1);
    }
  }

  // ----- Records made from rows -----

  /** The indexed values of a row and its four-byte locator. */
  datatype IndexedRow = IndexedRow(values: seq<Value>, locator: seq<byte>)

  ghost predicate Indexed(row: IndexedRow, fields: seq<Field>, table: Collation) {
    && ValidCollation(table) && |row.values| == |fields| && |row.locator| == 4
    && Key(row.values, fields, table).Accepted?
  }

  function KeyOf(row: IndexedRow, fields: seq<Field>, table: Collation): (r: seq<byte>)
    requires Indexed(row, fields, table)
  {
    Key(row.values, fields, table).value
  }

  function EntryOf(row: IndexedRow, fields: seq<Field>, table: Collation): (r: seq<byte>)
    requires Indexed(row, fields, table)
  {
    KeyShortening.Shortened(KeyOf(row, fields, table)) + row.locator
  }

  lemma KeyNonempty(values: seq<Value>, fields: seq<Field>, table: Collation)
    requires ValidCollation(table) && |values| == |fields| > 0 && Key(values, fields, table).Accepted?
    ensures Key(values, fields, table).value != []
  {
    var key := Key(values, fields, table).value;
    RecordWidthExact(values, fields, table, []);
    assert key + [] == key;
    assert ComponentEnd(key, 0, fields[0]).Accepted?;
  }

  /** Every entry made from a row has a width that the builder plans and the decoder measures. */
  lemma RowEntryMeasured(row: IndexedRow, fields: seq<Field>, table: Collation)
    requires Indexed(row, fields, table) && 0 < |fields| <= 10
    ensures WidthAllowed(EntryOf(row, fields, table)) && WidthAccepted(EntryOf(row, fields, table), fields, false)
  {
    hide Key, WidthAccepted, KeyShortening.Shortened;
    var key := KeyOf(row, fields, table);
    KeyNonempty(row.values, fields, table);
    KeyShortening.ShortenedBound(key);
    WrittenEntryAccepted(row.values, fields, table, row.locator, []);
    assert EntryOf(row, fields, table) == KeyShortening.Shortened(key) + row.locator + [];
  }

  /**
   * Entries of rows are prefix-free but for one case: a key of 254 bytes, whose entry can be a prefix of the
   * entry of a shortened key.
   */
  lemma RowEntryPrefix(a: IndexedRow, c: IndexedRow, fields: seq<Field>, table: Collation)
    requires Indexed(a, fields, table) && Indexed(c, fields, table)
    requires EntryOf(a, fields, table) < EntryOf(c, fields, table)
    ensures |KeyOf(a, fields, table)| == 254 && |KeyOf(c, fields, table)| > 255
  {
    hide Key, KeyShortening.Shortened;
    var k, l := KeyOf(a, fields, table), KeyOf(c, fields, table);
    var e, f := EntryOf(a, fields, table), EntryOf(c, fields, table);
    KeyShortening.ShortenedBound(k);
    KeyShortening.ShortenedBound(l);
    if |l| <= 255 {
      ShorterPrefix(k, l, f);
      KeyOrder.EntryOrder(a.values, c.values, fields, table, [], []);
    } else if |k| <= 253 {
      SharedStart(k, l, f);
      KeyOrder.EntryOrder(a.values, c.values, fields, table, [], []);
    }
  }

  lemma SharedStart(k: seq<byte>, l: seq<byte>, f: seq<byte>)
    requires k <= f && |k| <= 253 <= |l| && 253 <= |f| && f[..253] == l[..253]
    ensures k <= l
  {
    assert k == f[..253][..|k|];
  }

  lemma ShorterPrefix(k: seq<byte>, l: seq<byte>, f: seq<byte>)
    requires k <= f && l <= f
    ensures k <= l || l <= k
  {
    if |k| <= |l| {
      assert l[..|k|] == f[..|k|] == k;
    } else {
      assert k[..|l|] == f[..|l|] == l;
    }
  }

  // ----- Greedy plans leave room between separators -----

  /** A planned leaf with a right neighbour holds at least two records, as does every branch. */
  lemma TwoRecords(b: Build, c: nat)
    requires Ready(b) && GreedyPlan(b.nodes, b.records) && Shaped(b) && |b.records| > 0
    requires c + 1 < |b.nodes| && c + 1 < b.nodes[c].siblings.end
    ensures b.nodes[c].entries.start + 2 <= b.nodes[c].entries.end <= |b.records|
  {
    hide Shaped, SpanFits, LevelsShaped, NodeFits, HasPage;
    ShapeOf(b, c);
    var n := b.nodes[c].entries;
    if IsBranch(b, c) {
      ChildLevel(b, c);
      var d := b.nodes[c].children;
      ShapeOf(b, d.start);
      ShapeOf(b, d.end - 1);
      NextChild(b, d.start, d.start);
      RunOfSiblings(b, d.start + 1, d.end - 1);
    } else {
      ShapeOf(b, 0);
      SameLeafLevel(b, c);
      assert Full(b.nodes, b.records, c);
      assert WidthAllowed(b.records[n.end]) && WidthAllowed(b.records[n.end - 1]);
      FullHasTwo(b.records, n.start, n.end);
    }
  }

  lemma SameLeafLevel(b: Build, c: nat)
    requires Shaped(b) && c < |b.nodes| && !IsBranch(b, c)
    ensures b.nodes[0].siblings == b.nodes[c].siblings
  {
    hide Shaped;
    ShapeOf(b, c);
    NextChild(b, c, 0);
  }

  /** Nothing lies strictly between a sequence and its extension by a zero byte. */
  lemma {:induction false} NothingBetween(r: seq<byte>, a: seq<byte>)
    requires Less(r, a)
    ensures !Less(a, r + [0])
  {
    if r != [] && a[0] == r[0] {
      NothingBetween(r[1..], a[1..]);
      assert (r + [0])[1..] == r[1..] + [0];
    }
  }

  lemma SmallPage(page: nat)
    requires page < 0x100_0000
    ensures BigEndian(page, 4)[0] == 0
  {
    assert BigEndian(page, 4)[0] == BigEndian(page / 256, 3)[0] == BigEndian(page / 256 / 256, 2)[0]
        == BigEndian(page / 256 / 256 / 256, 1)[0];
  }

  /** A separator that extends the one before it by one byte goes on with a byte above zero. */
  lemma OneByteFurther(r: seq<byte>, a: seq<byte>, next: seq<byte>, page: nat, q: seq<byte>)
    requires Less(r, a) && Less(a, next) && r < next && |next| == |r| + 1 && page < 0x100_0000
    ensures Less(BigEndian(page, 4), next[|r|..] + q)
  {
    var x := next[|r|];
    assert next == r + [x];
    NothingBetween(r, a);
    assert x > 0;
    SmallPage(page);
  }

  /**
   * The trees of the library over any rows are read back, whatever the lengths of their keys: with entries in
   * bytewise order, one locator per row and three-byte page numbers, the decoder accepts the build.
   */
  lemma RowBuildReadable(rows: seq<IndexedRow>, fields: seq<Field>, table: Collation, b: Build)
    requires 0 < |fields| <= 10 && |b.records| == |rows|
    requires forall i :: 0 <= i < |rows| ==>
               Indexed(rows[i], fields, table) && b.records[i] == EntryOf(rows[i], fields, table)
    requires forall i, j :: 0 <= i < j < |rows| ==> rows[i].locator != rows[j].locator
    requires Sorted(b.records) && Ready(b) && GreedyPlan(b.nodes, b.records)
    requires forall i: nat :: i < |b.nodes| ==> PageFor(b, i) < 0x100_0000
    ensures Shaped(b) && Readable(b, fields)
  {
    hide Ready, Planned, Shaped, Indexed, EntryOf, GreedyPlan, NodeReadable, Readable, PageFor, Less, WidthAccepted;
    ReadyShaped(b);
    forall i | 0 <= i < |rows| ensures WidthAccepted(b.records[i], fields, false) {
      RowEntryMeasured(rows[i], fields, table);
    }
    forall i | 0 <= i < |rows| - 1 ensures Less(b.records[i], b.records[i + 1]) {
      assert AtMost(b.records[i], b.records[i + 1]);
      LocatorsTell(rows[i], rows[i + 1], fields, table);
    }
    SortedBuildReadable(b, fields);
    forall i: nat, k: nat | i < |b.nodes| && IsBranch(b, i) && k + 1 < EntryCount(b, i) ensures EntriesClear(b, i, k) {
      RowEntriesClear(rows, fields, table, b, i, k);
    }
  }

  /** So the decoder returns exactly the entries of the rows, in order. */
  lemma RowTreeReads(rows: seq<IndexedRow>, fields: seq<Field>, table: Collation, index: Index, b: Build,
                     originals: seq<Image>)
    requires 0 < |fields| <= 10 && |b.records| == |rows| && index.fields == fields
    requires forall i :: 0 <= i < |rows| ==>
               Indexed(rows[i], fields, table) && b.records[i] == EntryOf(rows[i], fields, table)
    requires forall i, j :: 0 <= i < j < |rows| ==> rows[i].locator != rows[j].locator
    requires Sorted(b.records) && Ready(b) && GreedyPlan(b.nodes, b.records) && BuiltTrees.Written(index, b, originals)
    requires forall i: nat :: i < |b.nodes| ==> PageFor(b, i) < 0x100_0000
    ensures var read := ReadTree(index, PageFor(b, |b.nodes| - 1));
            read.Accepted? && read.value.1 == b.records
  {
    hide Ready, Planned, Shaped, Indexed, EntryOf, GreedyPlan, Readable, PageFor, BuiltTrees.Written, Sorted;
    RowBuildReadable(rows, fields, table, b);
    BuiltTreeReads(index, b, originals);
  }

  lemma LocatorsTell(a: IndexedRow, c: IndexedRow, fields: seq<Field>, table: Collation)
    requires Indexed(a, fields, table) && Indexed(c, fields, table) && a.locator != c.locator
    ensures EntryOf(a, fields, table) != EntryOf(c, fields, table)
  {
    hide Key, KeyShortening.Shortened;
    var e, f := EntryOf(a, fields, table), EntryOf(c, fields, table);
    assert e[|e| - 4..] == a.locator && f[|f| - 4..] == c.locator;
  }

  lemma RowEntriesClear(rows: seq<IndexedRow>, fields: seq<Field>, table: Collation, b: Build, i: nat, k: nat)
    requires |b.records| == |rows| && Ready(b) && GreedyPlan(b.nodes, b.records) && Shaped(b)
    requires StrictlySorted(b.records)
    requires forall j :: 0 <= j < |rows| ==>
               Indexed(rows[j], fields, table) && b.records[j] == EntryOf(rows[j], fields, table)
    requires forall j: nat :: j < |b.nodes| ==> PageFor(b, j) < 0x100_0000
    requires i < |b.nodes| && IsBranch(b, i) && k + 1 < EntryCount(b, i)
    ensures EntriesClear(b, i, k)
  {
    hide Ready, Planned, Shaped, Indexed, EntryOf, GreedyPlan, PageFor, Less, StrictlySorted, BigEndian, RecordAt;
    SeparatorPositions(b, i, k);
    SeparatorPositions(b, i, k + 1);
    var c := b.nodes[i].children.start + k;
    var e, f := b.nodes[c].entries.end, b.nodes[c + 1].entries.end;
    TwoRecords(b, c + 1);
    RecordsLess(b.records, e - 1, e);
    RecordsLess(b.records, e, f - 1);
    RowGap(rows[e - 1], rows[f - 1], fields, table, b.records[e], PageFor(b, c), BigEndian(PageFor(b, c + 1), 4));
  }

  /** With another record between two entries of rows, a small page sorts before what the second goes on with. */
  lemma RowGap(a: IndexedRow, c: IndexedRow, fields: seq<Field>, table: Collation, between: seq<byte>, page: nat,
               q: seq<byte>)
    requires Indexed(a, fields, table) && Indexed(c, fields, table) && page < 0x100_0000
    requires Less(EntryOf(a, fields, table), between) && Less(between, EntryOf(c, fields, table))
    ensures var r, next := EntryOf(a, fields, table), EntryOf(c, fields, table);
            r <= next ==> Less(BigEndian(page, 4), next[|r|..] + q)
  {
    hide Indexed, EntryOf, KeyOf, Less, BigEndian;
    var r, next := EntryOf(a, fields, table), EntryOf(c, fields, table);
    LessTransitive(r, between, next);
    LessAsymmetric(r, next);
    if r < next {
      RowEntryPrefix(a, c, fields, table);
      PrefixWidths(a, c, fields, table);
      OneByteFurther(r, between, next, page, q);
    }
  }

  lemma PrefixWidths(a: IndexedRow, c: IndexedRow, fields: seq<Field>, table: Collation)
    requires Indexed(a, fields, table) && Indexed(c, fields, table)
    requires |KeyOf(a, fields, table)| == 254 && |KeyOf(c, fields, table)| > 255
    ensures |EntryOf(a, fields, table)| == 258 && |EntryOf(c, fields, table)| == 259
  {
    hide Key, KeyShortening.Shortened;
    KeyShortening.ShortenedBound(KeyOf(a, fields, table));
    KeyShortening.ShortenedBound(KeyOf(c, fields, table));
  }

  // ----- Rows in value order -----

  /** Rows in the order of their values, and of their locators among equal values. */
  ghost predicate RowBefore(a: IndexedRow, c: IndexedRow, fields: seq<Field>, table: Collation)
    requires Indexed(a, fields, table) && Indexed(c, fields, table)
  {
    || KeyOrder.TupleLess(a.values, c.values, fields, table)
    || (KeyOrder.TupleSame(a.values, c.values, fields, table) && Less(a.locator, c.locator))
  }

  /** Up to 255 key bytes, rows in value and locator order have entries in that order, and only those. */
  lemma RowEntriesOrdered(a: IndexedRow, c: IndexedRow, fields: seq<Field>, table: Collation)
    requires Indexed(a, fields, table) && Indexed(c, fields, table)
    requires |KeyOf(a, fields, table)| <= 255 && |KeyOf(c, fields, table)| <= 255
    ensures Less(EntryOf(a, fields, table), EntryOf(c, fields, table)) <==> RowBefore(a, c, fields, table)
  {
    hide Key, KeyOrder.TupleLess, KeyOrder.TupleSame, KeyShortening.Shortened, Less;
    KeyShortening.ShortenedBound(KeyOf(a, fields, table));
    KeyShortening.ShortenedBound(KeyOf(c, fields, table));
    KeyOrder.EntryOrder(a.values, c.values, fields, table, a.locator, c.locator);
  }

  // ----- A refused build -----

  /** A record of 259 bytes, as a shortened key and its locator have, that starts with `head`. */
  function LongRecord(head: seq<byte>, last: byte): (r: seq<byte>)
    requires |head| == 5
    ensures |r| == 259 && r[..5] == head && forall i :: 5 <= i < 258 ==> r[i] == 0
  {
    head + seq(253, i => 0) + [last]
  }

  /** Null in one ascending Binary column: the smallest measured record. */
  const NULL_RECORD: seq<byte> := [0, 0, 0, 0, 1]

  function CrossedRecord(i: nat): (r: seq<byte>)
    requires i < 14
    ensures |r| == if i == 6 then 5 else 259
  {
    if i < 6 then LongRecord([0, 0, 0, 0, 0], i) else if i == 6 then NULL_RECORD else LongRecord(NULL_RECORD, i - 7)
  }

  /** A plan of three leaves under one root. */
  function ThreeLeaves(x: nat, y: nat, n: nat): (nodes: seq<PlannedNode>) {
    var leaves := Span(0, 3);
    [PlannedNode(Span(0, x), Span(0, 0), leaves), PlannedNode(Span(x, y), Span(0, 0), leaves),
     PlannedNode(Span(y, n), Span(0, 0), leaves), PlannedNode(Span(0, n), leaves, Span(3, 4))]
  }

  lemma ThreeLeavesShaped(x: nat, y: nat, n: nat)
    requires 0 < x < y < n
    ensures var nodes := ThreeLeaves(x, y, n); LevelsShaped(nodes, n) && nodes[3].siblings.start == 3
  {
    var nodes := ThreeLeaves(x, y, n);
    forall i: nat | i < 4 ensures NodeShaped(nodes, n, i) {
      if i == 0 {
      } else if i == 1 {
      } else if i == 2 {
      } else {
      }
    }
  }

  lemma ThreeLeavesFit(x: nat, y: nat, records: seq<seq<byte>>, i: nat)
    requires 0 < x < y < |records| && i < 4
    requires LeafWidth(records, 0, x) <= AREA_BYTES && LeafWidth(records, x, y) <= AREA_BYTES
    requires LeafWidth(records, y, |records|) <= AREA_BYTES && |records[x - 1]| + |records[y - 1]| + 8 <= AREA_BYTES
    ensures NodeFits(ThreeLeaves(x, y, |records|), records, i)
  {
    hide LeafWidth;
    var nodes := ThreeLeaves(x, y, |records|);
    assert Bounded(nodes, |records|);
    if i == 3 {
      assert BranchWidth(nodes, records, 0, 1) == 0;
      assert BranchWidth(nodes, records, 0, 2) == |records[x - 1]| + 4;
    }
  }

  /** The planner's leaves over these records, the first ending with a prefix of the records after it. */
  function CrossedBuild(): (b: Build) {
    Build(ThreeLeaves(7, 13, 14), seq(14, i requires 0 <= i < 14 => CrossedRecord(i)),
          map[0 := 256, 1 := 257, 2 := 258, 3 := 259], 2)
  }

  lemma {:induction false} LongRun(records: seq<seq<byte>>, a: nat, b: nat)
    requires a <= b <= |records| && forall i :: a <= i < b ==> |records[i]| == 259
    ensures LeafWidth(records, a, b) == 259 * (b - a)
  {
    if a < b {
      LongRun(records, a, b - 1);
    }
  }

  lemma CrossedSorted()
    ensures StrictlySorted(CrossedBuild().records)
  {
    hide LongRecord, Less;
    var records := CrossedBuild().records;
    forall i | 0 <= i < 13 ensures Less(records[i], records[i + 1]) {
      if i == 5 {
        BelowUnderPrefix([0, 0, 0, 0], [0], [1]);
        assert [0, 0, 0, 0] + [0] == [0, 0, 0, 0, 0] && [0, 0, 0, 0] + [1] == NULL_RECORD;
        BelowExtends([0, 0, 0, 0, 0], NULL_RECORD, records[5][5..], []);
        assert records[5] == [0, 0, 0, 0, 0] + records[5][5..] && NULL_RECORD + [] == NULL_RECORD;
      } else if i == 6 {
        KeyOrder.LessUnderPrefix(NULL_RECORD, [], records[7][5..]);
        assert NULL_RECORD + [] == NULL_RECORD && records[7] == NULL_RECORD + records[7][5..];
        NothingIsLess(records[7][5..]);
      } else {
        LastByteDecides(if i < 6 then [0, 0, 0, 0, 0] else NULL_RECORD, if i < 6 then i else i - 7);
      }
    }
  }

  lemma LastByteDecides(head: seq<byte>, last: byte)
    requires |head| == 5 && last < 255
    ensures Less(LongRecord(head, last), LongRecord(head, last + 1))
  {
    var front := head + seq(253, i => 0);
    BelowUnderPrefix(front, [last], [last + 1]);
    BelowIsLess(front + [last], front + [last + 1]);
  }

  lemma NothingIsLess(s: seq<byte>)
    requires s != []
    ensures Less([], s)
  {
  }

  lemma CrossedWidths()
    ensures var b := CrossedBuild();
            LeafWidth(b.records, 0, 7) == 1559 && LeafWidth(b.records, 7, 13) == 1554
            && LeafWidth(b.records, 13, 14) == 259
  {
    hide LongRecord;
    var b := CrossedBuild();
    LongRun(b.records, 0, 6);
    LongRun(b.records, 7, 13);
    LongRun(b.records, 13, 14);
    assert LeafWidth(b.records, 0, 7) == LeafWidth(b.records, 0, 6) + |b.records[6]|;
  }

  lemma CrossedPlan()
    ensures var b := CrossedBuild(); Ready(b) && Shaped(b) && GreedyPlan(b.nodes, b.records)
  {
    hide LongRecord, LevelsShaped, LeafWidth, BranchWidth, NodeFits;
    var b := CrossedBuild();
    ThreeLeavesShaped(7, 13, 14);
    CrossedWidths();
    forall i: nat | i < 4 ensures NodeFits(b.nodes, b.records, i) {
      ThreeLeavesFit(7, 13, b.records, i);
    }
    assert Full(b.nodes, b.records, 0) && Full(b.nodes, b.records, 1);
    forall i: nat, j: nat | i < j < 4 ensures PageFor(b, i) != PageFor(b, j) {
      assert PageFor(b, i) == 256 + i && PageFor(b, j) == 256 + j;
    }
  }

  lemma CrossedMeasured()
    ensures AllMeasured(CrossedBuild().records, [Field(Binary, false)])
  {
    hide LongRecord;
    var fields, records := [Field(Binary, false)], CrossedBuild().records;
    assert fields[0].kind == Binary && fields[1..] == [];
    forall i | 0 <= i < 14 ensures WidthAccepted(records[i], fields, false) {
      if i == 6 {
        assert ComponentEnd(records[6], 0, fields[0]) == Accepted(1);
        assert KeyEnd(records[6], 1, []) == Accepted(1);
      }
    }
  }

  /**
   * Sorted records are not enough: here the first separator is a prefix of the second, and its child page 256
   * sorts after the zero bytes that the second goes on with.
   */
  lemma CrossedBuildRefused()
    ensures var b, fields := CrossedBuild(), [Field(Binary, false)];
            && Ready(b) && GreedyPlan(b.nodes, b.records) && StrictlySorted(b.records) && AllMeasured(b.records, fields)
            && (forall i: nat :: i < |b.nodes| ==> PageFor(b, i) < 0x100_0000)
            && Shaped(b) && !Readable(b, fields)
  {
    hide LongRecord, LevelsShaped, Planned, GreedyPlan, StrictlySorted, AllMeasured, BigEndian, NodeReadable, Less;
    var b, fields := CrossedBuild(), [Field(Binary, false)];
    CrossedPlan();
    CrossedSorted();
    CrossedMeasured();
    SortedBuildReadable(b, fields);
    var r, next := RecordAt(b, 3, 0), RecordAt(b, 3, 1);
    assert r == NULL_RECORD && next == CrossedRecord(12);
    var rest := next[5..];
    ZerosGoOn(rest, BigEndian(257, 4));
    assert !EntriesClear(b, 3, 0);
  }

  lemma ZerosGoOn(rest: seq<byte>, q: seq<byte>)
    requires |rest| == 254 && rest[0] == rest[1] == rest[2] == 0
    ensures !Less(BigEndian(256, 4), rest + q)
  {
    var s := rest + q;
    PageBytes();
    BelowUnderPrefix([0, 0], s[2..], [1, 0]);
    assert s == [0, 0] + s[2..] && [0, 0] + [1, 0] == [0, 0, 1, 0];
    BelowIsLess(s, [0, 0, 1, 0]);
  }

  lemma PageBytes()
    ensures BigEndian(256, 4) == [0, 0, 1, 0]
  {
    assert BigEndian(0, 0) == [] && BigEndian(0, 1) == [0] && BigEndian(0, 2) == [0, 0];
    assert BigEndian(1, 3) == BigEndian(0, 2) + [1];
    assert BigEndian(256, 4) == BigEndian(1, 3) + [0];
  }

  // ----- Page 0 as a leaf -----

  /** The record of a Long zero and a small locator. */
  function LongZero(row: byte): (r: seq<byte>) {
    [127, 128, 0, 0, 0, 0, 0, 0] + [row]
  }

  /** Three one-record leaves under a root, the middle one on page 0. */
  function ZeroLeafBuild(): (b: Build) {
    Build(ThreeLeaves(1, 2, 3), [LongZero(1), LongZero(2), LongZero(3)], map[0 := 2, 1 := 0, 2 := 3, 3 := 1], 7)
  }

  lemma ZeroLeafReady()
    ensures var b := ZeroLeafBuild(); Ready(b) && Shaped(b) && |b.nodes| == 4
  {
    hide LevelsShaped, LeafWidth, BranchWidth, NodeFits;
    var b := ZeroLeafBuild();
    ThreeLeavesShaped(1, 2, 3);
    OneRecordWidth(b.records, 0);
    OneRecordWidth(b.records, 1);
    OneRecordWidth(b.records, 2);
    forall i: nat | i < 4 ensures NodeFits(b.nodes, b.records, i) {
      ThreeLeavesFit(1, 2, b.records, i);
    }
  }

  lemma ZeroLeafReadable()
    ensures Ready(ZeroLeafBuild()) && Shaped(ZeroLeafBuild()) && Readable(ZeroLeafBuild(), [Field(Long, false)])
  {
    hide Ready, Shaped, Readable;
    var b, fields := ZeroLeafBuild(), [Field(Long, false)];
    ZeroLeafReady();
    assert fields[1..] == [];
    forall i | 0 <= i < 3 ensures WidthAccepted(b.records[i], fields, false) {
      assert ComponentEnd(b.records[i], 0, fields[0]) == Accepted(5);
      assert KeyEnd(b.records[i], 5, []) == Accepted(5);
    }
    forall i | 0 <= i < 2 ensures Less(b.records[i], b.records[i + 1]) {
      BelowUnderPrefix([127, 128, 0, 0, 0, 0, 0, 0], [i + 1], [i + 2]);
      BelowIsLess(b.records[i], b.records[i + 1]);
    }
    forall i, j | 0 <= i < j < 3 ensures !(b.records[i] <= b.records[j]) {
      assert b.records[i][8] == i + 1 && b.records[j][8] == j + 1;
    }
    DecidedRecordsRead(b, fields);
  }

  /** The file of that build, over any original page contents. */
  ghost function ZeroLeafFile(original: Image): (data: seq<byte>) {
    ZeroLeafReady();
    var b := ZeroLeafBuild();
    EntriesFit(b, 0);
    EntriesFit(b, 1);
    EntriesFit(b, 2);
    EntriesFit(b, 3);
    BuiltPage(b, original, 1) + BuiltPage(b, original, 3) + BuiltPage(b, original, 0) + BuiltPage(b, original, 2)
  }

  lemma FourPages(a: Image, b: Image, c: Image, d: Image)
    ensures PageOf(a + b + c + d, 0) == Accepted(a) && PageOf(a + b + c + d, 1) == Accepted(b)
    ensures PageOf(a + b + c + d, 2) == Accepted(c) && PageOf(a + b + c + d, 3) == Accepted(d)
  {
    var data := a + b + c + d;
    assert data[0..PAGE] == a && data[PAGE..2 * PAGE] == b && data[2 * PAGE..3 * PAGE] == c
        && data[3 * PAGE..4 * PAGE] == d;
  }

  lemma ZeroLeafWritten(original: Image)
    ensures Ready(ZeroLeafBuild())
    ensures BuiltTrees.Written(Index(ZeroLeafFile(original), 7, [Field(Long, false)]), ZeroLeafBuild(),
                               seq(4, i => original))
  {
    hide Ready, Shaped, Planned, BuiltPage, PageOf;
    var b, index := ZeroLeafBuild(), Index(ZeroLeafFile(original), 7, [Field(Long, false)]);
    ZeroLeafReady();
    ReadyShaped(b);
    forall i: nat | i < 4 ensures PageWritten(index, b, original, i) {
      EntriesFit(b, 0);
      EntriesFit(b, 1);
      EntriesFit(b, 2);
      EntriesFit(b, 3);
      FourPages(BuiltPage(b, original, 1), BuiltPage(b, original, 3), BuiltPage(b, original, 0),
                BuiltPage(b, original, 2));
    }
  }

  lemma ThreeLeafPages(t: Tree)
    requires |t.children| == 3 && forall i :: 0 <= i < 3 ==> t.children[i].children == []
    ensures |Leaves(t)| == 3 && Leaves(t)[1].page == t.children[1].page
  {
    var c := t.children;
    assert LeafRecordsAll(c[..0], 2) == [];
    assert c[..1][..0] == c[..0] && c[..2][..1] == c[..1] && c == c[..3] && c[..3][..2] == c[..2];
    assert LeafRecordsAll(c[..1], 2) == [IndexTrees.Record(c[0], 2)];
    assert LeafRecordsAll(c[..2], 2) == [IndexTrees.Record(c[0], 2), IndexTrees.Record(c[1], 2)];
    assert LeafRecordsAll(c, 2) == LeafRecordsAll(c[..2], 2) + [IndexTrees.Record(c[2], 2)];
    assert Height(c[0]) == 0 && Height(t) == 1;
  }

  lemma ZeroLeafLeaves()
    ensures var b := ZeroLeafBuild();
            Shaped(b) && |b.nodes| == 4 && |Leaves(TreeOf(b, 3))| == 3 && Leaves(TreeOf(b, 3))[1].page == 0
  {
    hide Shaped, NodeAt, Leaves, TreeOf;
    var b := ZeroLeafBuild();
    ZeroLeafReady();
    forall k | 0 <= k < 3
      ensures TreeOf(b, 3).children[k].children == [] && TreeOf(b, 3).children[k].page == PageFor(b, k)
    {
      ChildOf(b, 3, k);
    }
    ThreeLeafPages(TreeOf(b, 3));
  }

  /** An accepted tree with page 0 as its middle leaf: the chain of next links loses entries. */
  lemma ZeroLeafCutsChain(original: Image)
    ensures var index := Index(ZeroLeafFile(original), 7, [Field(Long, false)]);
            && ReadTree(index, 1).Accepted? && ReadTree(index, 1).value.1 == ZeroLeafBuild().records
            && var t := Visit(index, 1, 1, {}).value.0;
               !ChainIsTraversal(Preorder(t, 1), Leaves(t), LeafEntries(t))
  {
    hide Ready, Shaped, Planned, ZeroLeafFile, TreeOf, Readable, Visit, Leaves, ChainIsTraversal, BuiltTrees.Written,
         LeafEntries, Preorder, ReadTree;
    var b, index := ZeroLeafBuild(), Index(ZeroLeafFile(original), 7, [Field(Long, false)]);
    ZeroLeafReadable();
    ZeroLeafWritten(original);
    assert PageFor(b, 3) == 1;
    BuiltTreeReads(index, b, seq(4, i => original));
    BuiltVisit(index, b, seq(4, i => original));
    ZeroLeafLeaves();
    LeafChainSpellsTraversal(index, 1);
  }

  /** The same tree is sparse: acceptance alone does not bound the depth of a Long tree from above. */
  lemma SparseTreeAccepted(original: Image)
    ensures var index := Index(ZeroLeafFile(original), 7, [Field(Long, false)]);
            && ReadTree(index, 1).Accepted? && |ReadTree(index, 1).value.1| == 3
            && var t := Visit(index, 1, 1, {}).value.0;
               PlainLongTree(t) && LeafEntries(t) == ReadTree(index, 1).value.1 && Height(t) == 1
  {
    hide Ready, Shaped, Planned, ZeroLeafFile, TreeOf, Readable, Visit, BuiltTrees.Written, LeafEntries, Preorder;
    var b, index := ZeroLeafBuild(), Index(ZeroLeafFile(original), 7, [Field(Long, false)]);
    ZeroLeafReadable();
    ZeroLeafWritten(original);
    assert PageFor(b, 3) == 1;
    BuiltTreeReads(index, b, seq(4, i => original));
    BuiltVisit(index, b, seq(4, i => original));
    var t := TreeOf(b, 3);
    forall k | 0 <= k < 3 ensures PlainLongTree(t.children[k]) && t.children[k].children == [] {
      ChildOf(b, 3, k);
      LeafNodeEntries(b, k);
    }
    assert Height(t.children[0]) == 0;
  }
}
