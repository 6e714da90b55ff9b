/**
 * A whole insertion at the end of the file (`patch_check` in oracle/windows-dao/registry/indexed_boundary.py):
 * the appended data page, the two counts of the definition and the rebuilt leaf of the table's only index.
 *
 * The patched file passes `observe` with the new row behind the old ones exactly when the new row decodes and
 * its index entry is the one that was put into the leaf.
 */
module Insertions {
  import opened Bytes
  import opened DataPages
  import opened KeyEncoding
  import opened KeyParsing
  import opened AllocationMaps
  import opened Classification
  import opened IndexNodes
  import opened IndexTrees
  import opened IndexKeys
  import opened Sorting
  import opened Observation
  import opened RowFrames
  import opened Appends
  import Definitions
  import KeyShortening
  import TableRows

  // ----- The patched file -----

  /** The definition's root page with the row count and the entry count of its first index replaced. */
  function Counted(image: Image, count: nat): (r: Image)
    requires count < 0x1_0000_0000
  {
    Put(Put(image, 12, Le32(count)), 47, Le32(count))
  }

  lemma CountedWords(image: Image, count: nat)
    requires count < 0x1_0000_0000
    ensures U32(Counted(image, count), 12) == count && Counted(image, count)[..12] == image[..12]
    ensures forall i :: 0 <= i < PAGE && !(12 <= i < 16) && !(47 <= i < 51) ==> Counted(image, count)[i] == image[i]
  {
    hide Le32;
    CountWord(count);
    var first := Put(image, 12, Le32(count));
    assert first[12..16] == Le32(count);
    assert forall i :: 12 <= i < 16 ==> Counted(image, count)[i] == first[i] == Le32(count)[i - 12];
  }

  lemma CountWord(count: nat)
    requires count < 0x1_0000_0000
    ensures |Le32(count)| == 4 && U32(Le32(count), 0) == count
  {
  }

  /** `after` is `middle` with the counts and the leaf replaced. */
  ghost predicate Patched(middle: seq<byte>, after: seq<byte>, root: nat, leaf: nat, count: nat,
                          entries: seq<seq<byte>>) {
    && |after| == |middle| && count < 0x1_0000_0000
    && PageOf(middle, root).Accepted? && PageOf(after, root) == Accepted(Counted(PageOf(middle, root).value, count))
    && PageOf(middle, leaf).Accepted? && PageOf(after, leaf).Accepted?
    && Rebuilt(PageOf(middle, leaf).value, PageOf(after, leaf).value, entries)
    && forall q: nat :: q != root && q != leaf ==> PageOf(after, q) == PageOf(middle, q)
  }

  // ----- Maps and reserve -----

  lemma PatchKeepsRow(middle: seq<byte>, after: seq<byte>, root: nat, leaf: nat, count: nat, entries: seq<seq<byte>>,
                      w: Locator)
    requires Patched(middle, after, root, leaf, count, entries)
    requires PageOf(middle, root).value[0] == 2 && PageOf(middle, leaf).value[0] == 4
    ensures LocatorRow(middle, w).Accepted? ==> LocatorRow(after, w) == LocatorRow(middle, w)
    ensures PageOf(middle, w.page).Accepted? && PageOf(middle, w.page).value[0] == 1 ==>
              LocatorRow(after, w) == LocatorRow(middle, w)
  {
    hide PageOf, DirectoryAccepted, RowAt, Rebuilt, Counted;
  }

  lemma PatchKeepsMap(middle: seq<byte>, after: seq<byte>, root: nat, leaf: nat, count: nat, entries: seq<seq<byte>>,
                      w: Locator)
    requires Patched(middle, after, root, leaf, count, entries)
    requires PageOf(middle, root).value[0] == 2 && PageOf(middle, leaf).value[0] == 4
    requires ReadMap(middle, w).Accepted?
    ensures ReadMap(after, w) == ReadMap(middle, w)
  {
    hide PageOf, LocatorRow, ReadMap, Rebuilt, Counted;
    MapHasRow(middle, w);
    PatchKeepsRow(middle, after, root, leaf, count, entries, w);
    MapKept(middle, after, w);
  }

  /** The patched file has grown as the appended one has, except for the two patched pages. */
  lemma PatchGrows(before: seq<byte>, middle: seq<byte>, after: seq<byte>, c: Catalog, k: nat,
                   root: nat, leaf: nat, count: nat, entries: seq<seq<byte>>)
    requires Grown(before, middle, c, k, {}) && Patched(middle, after, root, leaf, count, entries)
    requires PageOf(before, root).Accepted? && PageOf(before, root).value[0] == 2
    requires PageOf(before, leaf).Accepted? && PageOf(before, leaf).value[0] == 4
    ensures PageOf(middle, root) == PageOf(before, root) && PageOf(middle, leaf) == PageOf(before, leaf)
    ensures Grown(before, after, c, k, {root, leaf})
  {
    hide PageOf, ReadMap, GlobalAccepted, RoleAccepted, ValidAllocation, Rebuilt, Counted, Inside, IsMetadata,
         LocatorsDistinct;
    assert PageCount(after) == PageCount(middle);
    forall w: Locator | IsLocator(c, w) ensures ReadMap(after, w) == ReadMap(middle, w) {
      PatchKeepsMap(middle, after, root, leaf, count, entries, w);
    }
  }

  /** Growth alone gives back a valid allocation. */
  lemma GrownAllocation(before: seq<byte>, after: seq<byte>, c: Catalog, k: nat, touched: set<nat>)
    requires Grown(before, after, c, k, touched) && |after| % PAGE == 0
    ensures ValidAllocation(after, c)
  {
    hide PageOf, Grew, MapsAccepted, ReferencesDistinct, Partitioned, LocatorsDistinct;
    assert LocatorsDistinct(c);
    GrownMapsAccepted(before, after, c, k);
    GrownReferences(before, after, c, k);
    GrownPartition(before, after, c, k);
  }

  lemma PatchKeepsReserve(middle: seq<byte>, after: seq<byte>, c: Catalog, root: nat, leaf: nat, count: nat,
                          entries: seq<seq<byte>>)
    requires ValidAllocation(middle, c) && ReserveSound(middle, Spots(c))
    requires Patched(middle, after, root, leaf, count, entries)
    requires PageOf(middle, root).value[0] == 2 && PageOf(middle, leaf).value[0] == 4
    ensures ReserveSound(after, Spots(c))
  {
    hide PageOf, RowOf, Patched, MapsAccepted, Partitioned, ReferencesDistinct, ValidAllocation, Spots;
    var spots := Spots(c);
    SpotsReadable(middle, c);
    forall w: Locator | OnMapPage(spots, w) ensures LocatorRow(after, w) == LocatorRow(middle, w) {
      var i :| 0 <= i < |spots| && spots[i].page == w.page;
      RowOnMapPage(middle, spots[i]);
      PatchKeepsRow(middle, after, root, leaf, count, entries, w);
    }
  }

  lemma RowOnMapPage(data: seq<byte>, w: Locator)
    requires LocatorRow(data, w).Accepted?
    ensures PageOf(data, w.page).Accepted? && PageOf(data, w.page).value[0] == 1
  {
  }

  lemma PatchKeepsLinks(before: seq<byte>, middle: seq<byte>, after: seq<byte>, root: nat, leaf: nat, count: nat,
                        entries: seq<seq<byte>>)
    requires LinksKept(before, middle) && Patched(middle, after, root, leaf, count, entries)
    requires PageOf(middle, leaf) == PageOf(before, leaf) && PageOf(middle, leaf).value[0] == 4
    ensures LinksKept(before, after)
  {
    hide PageOf, Rebuilt, Counted;
    CountedWords(PageOf(middle, root).value, count);
    forall q: nat | Definitions.IsDefinitionPage(before, q)
      ensures PageOf(after, q).Accepted? && PageOf(after, q).value[..12] == PageOf(before, q).value[..12]
    {
      assert PageOf(before, q).value[0] == PageOf(before, q).value[..4][0] == 2;
    }
  }

  // ----- The single leaf -----

  /** What `tree` makes of a root that is a leaf. */
  lemma LeafTree(index: Index, root: nat, image: Image)
    requires PageOf(index.data, root) == Accepted(image) && image[0] == 4
    ensures var node := DecodeNode(image, 1, index.owner, index.fields);
            var read := ReadTree(index, root);
            && (read.Accepted? <==> node.Accepted? && node.value.previous == 0 && node.value.next == 0)
            && (read.Accepted? ==> read.value == ([Visited(root, 1, node.value, [])], node.value.entries))
  {
    hide PageOf, DecodeNode, Sorted, AllSiblingsAccepted;
    var node := DecodeNode(image, 1, index.owner, index.fields);
    FinalChecksRedundant(index, root);
    if node.Accepted? {
      DecodedTag(image, 1, index.owner, index.fields);
      var tree := Tree(root, node.value, []);
      assert Visit(index, root, 1, {}) == Accepted((tree, {} + {root}));
      var one := Visited(root, 1, node.value, []);
      assert Preorder(tree, 1) == [one] by {
        assert PreorderAll([], 2) == [];
      }
      OneNodeSiblings(one);
    }
  }

  lemma OneNodeSiblings(one: Visited)
    requires one.depth == 1
    ensures AllSiblingsAccepted([one]) <==> one.node.previous == 0 && one.node.next == 0
  {
    hide AtDepth;
    forall depth: nat ensures AtDepth([one], depth) == if depth == 1 then [one] else [] {
      SingleAtDepth(one, depth);
    }
    if AllSiblingsAccepted([one]) {
      LoneSibling([one]);
      assert SiblingsAccepted(AtDepth([one], 1));
    } else {
      var depth: nat :| depth <= 32 && !SiblingsAccepted(AtDepth([one], depth));
      LoneSibling([one]);
    }
  }

  lemma LoneSibling(level: seq<Visited>)
    requires |level| == 1
    ensures SiblingsAccepted(level) <==> level[0].node.previous == 0 && level[0].node.next == 0
  {
    assert SiblingsAccepted(level) <==> LinkedAt(level, 0);
  }

  lemma StampedPlain(image: Image, records: seq<seq<byte>>)
    requires PlainLeaf(image) && Stamped(image, [], records) && forall i :: 0 <= i < |records| ==> |records[i]| == 9
    ensures StoredEntries(image) == records
  {
    hide Concat, Stamped, EntriesFrom, Ends, RunningEnds;
    assert AllNonempty(records);
    StampedEntries(image, [], records);
    forall i | 0 <= i < |records| ensures Prefixed([], records)[i] == records[i] {
      assert [] + records[i] == records[i];
    }
    assert Prefixed([], records) == records;
  }

  /** An entry of nine bytes is never shortened, so it passes the width rule of a leaf. */
  lemma NineByteEntry(columns: seq<TableRows.TableColumn>, x: PhysicalIndex, rec: TableRows.Record,
                      collation: Collation, entry: seq<byte>)
    requires ValidCollation(collation) && KeysInside(columns, x.keys) && |rec.values| == |columns|
    requires RowEntries(columns, x, rec, collation) == Accepted([entry]) && |entry| == 9
    ensures WidthAccepted(entry, Fields(columns, x.keys), false)
  {
    hide Key, ValidCollation, KeyRow, Fields, RecordWidth, KeyShortening.Code;
    var row := KeyRow(columns, x.keys, rec).value;
    var fields := Fields(columns, x.keys);
    var key := Key(row.values, fields, collation).value;
    assert entry == KeyShortening.Shortened(key) + row.locator;
    assert |key| == 5;
    RecordWidthExact(row.values, fields, collation, row.locator);
  }

  ghost predicate NineBytes(entries: seq<seq<byte>>) {
    forall i :: 0 <= i < |entries| ==> |entries[i]| == 9
  }

  lemma SortKeepsEach(entries: seq<seq<byte>>, e: seq<byte>)
    ensures e in SortBy(entries, Self) <==> e in entries
  {
    SortSorts(entries, Self);
    assert e in multiset(SortBy(entries, Self)) <==> e in SortBy(entries, Self);
    assert e in multiset(entries) <==> e in entries;
  }

  lemma SortedEntries(entries: seq<seq<byte>>)
    ensures Sorted(SortBy(entries, Self)) && |SortBy(entries, Self)| == |entries|
    ensures NineBytes(entries) ==> NineBytes(SortBy(entries, Self))
  {
    hide SortBy;
    SortSorts(entries, Self);
    var sorted := SortBy(entries, Self);
    if NineBytes(entries) {
      forall i | 0 <= i < |sorted| ensures |sorted[i]| == 9 {
        assert sorted[i] in sorted;
        SortKeepsEach(entries, sorted[i]);
      }
    }
  }

  /** Two lists sort alike only if they have the same elements. */
  lemma SameSorted(earlier: seq<seq<byte>>, entry: seq<byte>, last: seq<seq<byte>>)
    requires |last| <= 1 && SortBy(earlier + [entry], Self) == SortBy(earlier + last, Self)
    ensures last == [entry]
  {
    hide SortBy;
    SortSorts(earlier + [entry], Self);
    SortSorts(earlier + last, Self);
    assert multiset(earlier + [entry]) == multiset(earlier) + multiset{entry};
    assert multiset(earlier + last) == multiset(earlier) + multiset(last);
    assert multiset(last) == multiset(earlier + last) - multiset(earlier) == multiset{entry};
    assert |last| == |multiset(last)| == 1;
    assert last == [last[0]] && last[0] in multiset(last);
  }

  /** The leaf holds the old entries and one more. */
  ghost predicate LeafFits(before: seq<byte>, t: Table, x: PhysicalIndex, records: seq<TableRows.Record>,
                           entry: seq<byte>, collation: Collation)
    requires ValidCollation(collation)
  {
    && KeysInside(t.columns, x.keys) && Complete(t.columns, records)
    && PageOf(before, x.root).Accepted? && PlainLeaf(PageOf(before, x.root).value)
    && Expected(t.columns, x, records, collation).Accepted?
    && NineBytes(Expected(t.columns, x, records, collation).value + [entry])
  }

  /** Reading the rebuilt leaf: accepted with the new entries exactly when they pass the width rule. */
  lemma LeafReads(data: seq<byte>, t: Table, x: PhysicalIndex, image: Image, entries: seq<seq<byte>>)
    requires KeysInside(t.columns, x.keys) && NineBytes(entries) && Sorted(entries)
    requires PageOf(data, x.root) == Accepted(image) && PlainLeaf(image) && image[0] == 4 && U32(image, 4) == t.root
    requires Stamped(image, [], entries) && U16(image, 2) == AREA_BYTES - 9 * |entries|
    requires StoredEntries(image) == entries
    ensures var read := ReadTree(TreeFile(data, t, x), x.root);
            && (read.Accepted? ==> read.value.1 == entries && forall i :: 0 <= i < |read.value.0| ==>
                  read.value.0[i].page == x.root)
            && ((forall i :: 0 <= i < |entries| ==> WidthAccepted(entries[i], Fields(t.columns, x.keys), false)) ==>
                  read.Accepted?)
  {
    hide PageOf, ReadTree, Stamped, WidthAccepted, Sorted, DecodeNode, PlainLeaf, StoredEntries, Fields;
    var index := TreeFile(data, t, x);
    LeafTree(index, x.root, image);
    DecodedFirst(image, 1, t.root, index.fields);
    if forall i :: 0 <= i < |entries| ==> WidthAccepted(entries[i], index.fields, false) {
      RebuiltLeafDecodes(image, entries, 1, index.fields);
    }
  }

  lemma EntriesMeasured(columns: seq<TableRows.TableColumn>, x: PhysicalIndex, records: seq<TableRows.Record>,
                        collation: Collation, e: seq<byte>)
    requires ValidCollation(collation) && KeysInside(columns, x.keys) && Complete(columns, records)
    requires Expected(columns, x, records, collation).Accepted?
    requires NineBytes(Expected(columns, x, records, collation).value)
    requires e in Expected(columns, x, records, collation).value
    ensures WidthAccepted(e, Fields(columns, x.keys), false)
  {
    hide Expected, RowEntries, WidthAccepted, ValidCollation, Fields;
    ExpectedExactly(columns, x, records, collation, e);
    var i :| 0 <= i < |records| && RowEntries(columns, x, records[i], collation) == Accepted([e]);
    NineByteEntry(columns, x, records[i], collation, e);
  }

  /** The map of the index and its pages after the patch. */
  lemma LeafPlaced(before: seq<byte>, after: seq<byte>, c: Catalog, k: nat, touched: set<nat>, t: Table,
                   x: PhysicalIndex, image: Image)
    requires Grown(before, after, c, k, touched) && TreePlaced(before, c.roles, t, x) && x.role != k
    requires touched == {t.root, x.root} && Definitions.IsDefinitionPage(before, t.root)
    requires PageOf(after, x.root) == Accepted(image) && image[0] == 4 && U32(image, 4) == t.root
    ensures MapPages(after, c.roles[x.role].owned) == MapPages(before, c.roles[x.role].owned)
    ensures x.root in MapPages(before, c.roles[x.role].owned)
    ensures forall p :: p in MapPages(before, c.roles[x.role].owned) ==> OwnedIndexPage(after, t.root, p)
  {
    hide PageOf, MapPages, ReadTree, Grown, Grew, Fields;
    GrownParts(before, after, c, k, touched);
    OtherMapKept(before, after, c, k, x.role);
    TreeStartsAtRoot(TreeFile(before, t, x), x.root);
    forall p | p in MapPages(before, c.roles[x.role].owned) ensures OwnedIndexPage(after, t.root, p) {
      assert OwnedIndexPage(before, t.root, p);
      if p != x.root {
        assert PageOf(before, t.root).value[0] == PageOf(before, t.root).value[..4][0] == 2;
        OwnedPageKept(before, after, c, k, touched, x.role, p);
      }
    }
  }

  lemma TreeStartsAtRoot(index: Index, root: nat)
    requires ReadTree(index, root).Accepted?
    ensures |ReadTree(index, root).value.0| > 0 && ReadTree(index, root).value.0[0].page == root
  {
    hide Visit, LeafEntries, AllSiblingsAccepted, OneLeafDepth, Sorted;
    VisitSound(index, root, 1, {});
  }

  /** The rebuilt index lists the grown table exactly when the new row has the entry that was added. */
  lemma LeafListsRow(before: seq<byte>, after: seq<byte>, c: Catalog, k: nat, touched: set<nat>, t: Table,
                     x: PhysicalIndex, records: seq<TableRows.Record>, rec: TableRows.Record, entry: seq<byte>,
                     collation: Collation)
    requires ValidCollation(collation) && Grown(before, after, c, k, touched) && x.role < |c.roles| && x.role != k
    requires IndexSound(before, c.roles, t, x, records, collation) && LeafFits(before, t, x, records, entry, collation)
    requires touched == {t.root, x.root} && Definitions.IsDefinitionPage(before, t.root) && |rec.values| == |t.columns|
    requires PageOf(after, x.root).Accepted?
    requires Rebuilt(PageOf(before, x.root).value, PageOf(after, x.root).value,
                     SortBy(Expected(t.columns, x, records, collation).value + [entry], Self))
    ensures IndexSound(after, c.roles, t, x, records + [rec], collation)
            <==> RowEntries(t.columns, x, rec, collation) == Accepted([entry])
  {
    hide PageOf, MapPages, ReadTree, SortBy, Expected, RowEntries, ValidCollation, Grown, Rebuilt, PlainLeaf,
         WidthAccepted, Sorted, Fields, NineBytes;
    var earlier, last := Expected(t.columns, x, records, collation).value, RowEntries(t.columns, x, rec, collation);
    var leaf, image := PageOf(before, x.root).value, PageOf(after, x.root).value;
    var entries := SortBy(earlier + [entry], Self);
    SortedEntries(earlier + [entry]);
    SoundIsPlaced(before, c.roles, t, x, records, collation);
    RootLeafOwner(before, c.roles, t, x);
    RebuiltIsStamped(leaf, image, entries);
    LeafPlaced(before, after, c, k, touched, t, x, image);
    LeafReads(after, t, x, image, entries);
    ExpectedSnoc(t.columns, x, records, rec, collation);
    OneEntryAtMost(t.columns, x, rec, collation);
    if last == Accepted([entry]) {
      AllMeasured(t, x, records, rec, collation, entries);
      assert TreePlaced(after, c.roles, t, x);
    } else if IndexSound(after, c.roles, t, x, records + [rec], collation) {
      SameSorted(earlier, entry, last.value);
    }
  }

  lemma AllMeasured(t: Table, x: PhysicalIndex, records: seq<TableRows.Record>, rec: TableRows.Record,
                    collation: Collation, entries: seq<seq<byte>>)
    requires ValidCollation(collation) && KeysInside(t.columns, x.keys) && Complete(t.columns, records + [rec])
    requires Expected(t.columns, x, records + [rec], collation).Accepted?
    requires NineBytes(Expected(t.columns, x, records + [rec], collation).value)
    requires entries == SortBy(Expected(t.columns, x, records + [rec], collation).value, Self)
    ensures forall i :: 0 <= i < |entries| ==> WidthAccepted(entries[i], Fields(t.columns, x.keys), false)
  {
    hide SortBy, Expected, ValidCollation, WidthAccepted, Fields, NineBytes;
    forall i | 0 <= i < |entries| ensures WidthAccepted(entries[i], Fields(t.columns, x.keys), false) {
      assert entries[i] in entries;
      SortKeepsEach(Expected(t.columns, x, records + [rec], collation).value, entries[i]);
      EntriesMeasured(t.columns, x, records + [rec], collation, entries[i]);
    }
  }

  lemma RootLeafOwner(data: seq<byte>, roles: seq<Role>, t: Table, x: PhysicalIndex)
    requires TreePlaced(data, roles, t, x)
    ensures PageOf(data, x.root).Accepted? && U32(PageOf(data, x.root).value, 4) == t.root
  {
    hide PageOf, MapPages, ReadTree, Fields;
    TreeStartsAtRoot(TreeFile(data, t, x), x.root);
    assert OwnedIndexPage(data, t.root, x.root);
  }

  /** A plain leaf stays plain, keeps its owner and stores the new records. */
  lemma RebuiltIsStamped(leaf: Image, image: Image, entries: seq<seq<byte>>)
    requires PlainLeaf(leaf) && Rebuilt(leaf, image, entries) && NineBytes(entries)
    ensures PlainLeaf(image) && image[0] == 4 && U32(image, 4) == U32(leaf, 4)
    ensures Stamped(image, [], entries) && U16(image, 2) == AREA_BYTES - 9 * |entries|
    ensures StoredEntries(image) == entries
  {
    hide Stamped, StoredEntries;
    assert image[..2] == leaf[..2];
    assert image[0] == image[..2][0];
    StampedPlain(image, entries);
  }

  // ----- The whole insertion -----

  /** `after` is the file with the row appended and counted, and `entry` put into the leaf of the only index. */
  ghost predicate RowInserted(before: seq<byte>, after: seq<byte>, roles: seq<Role>, t: Table,
                              records: seq<TableRows.Record>, encoded: seq<byte>, entry: seq<byte>,
                              collation: Collation)
    requires TableNamed(roles, t) && ValidCollation(collation)
  {
    var owned, available := roles[t.role].owned, roles[t.role].available.value;
    && AppendAdmitted(before, owned, available) && |encoded| <= 2036 && t.root < 0x100_0000 && |t.indexes| == 1
    && LeafFits(before, t, t.indexes[0], records, entry, collation)
    && Patched(Appended(before, owned, available, encoded, t.root), after, t.root, t.indexes[0].root, |records| + 1,
               SortBy(Expected(t.columns, t.indexes[0], records, collation).value + [entry], Self))
  }

  /** The table's pages before the patch, and what the patch did to them. */
  lemma PatchedPages(before: seq<byte>, middle: seq<byte>, after: seq<byte>, c: Catalog, t: Table, x: PhysicalIndex,
                     count: nat, entries: seq<seq<byte>>)
    requires Grown(before, middle, c, t.role, {}) && Patched(middle, after, t.root, x.root, count, entries)
    requires Definitions.IsDefinitionPage(before, t.root)
    requires PageOf(before, x.root).Accepted? && PlainLeaf(PageOf(before, x.root).value)
    ensures Grown(before, after, c, t.role, {t.root, x.root})
    ensures PageOf(middle, t.root) == PageOf(before, t.root) && PageOf(before, t.root).value[0] == 2
    ensures PageOf(middle, x.root) == PageOf(before, x.root) && PageOf(before, x.root).value[0] == 4
    ensures PageOf(after, t.root).Accepted? && U32(PageOf(after, t.root).value, 12) == count
    ensures PageOf(after, x.root).Accepted?
    ensures Rebuilt(PageOf(before, x.root).value, PageOf(after, x.root).value, entries)
  {
    hide PageOf, Grown, Rebuilt, Counted;
    var root, leaf := PageOf(before, t.root).value, PageOf(before, x.root).value;
    assert root[0] == root[..4][0] && leaf[0] == leaf[..2][0];
    PatchGrows(before, middle, after, c, t.role, t.root, x.root, count, entries);
    CountedWords(root, count);
  }

  lemma OneIndex(data: seq<byte>, roles: seq<Role>, t: Table, records: seq<TableRows.Record>, collation: Collation)
    requires TableNamed(roles, t) && ValidCollation(collation) && |t.indexes| == 1
    ensures TableSound(data, roles, t, 0, records, collation)
            <==> && RowsRead(data, roles, t, records) && DeclaredCount(data, t.root) == Accepted(|records|)
                 && IndexSound(data, roles, t, t.indexes[0], records, collation)
  {
    hide RowsRead, IndexSound, ValidCollation, DeclaredCount;
  }

  lemma RecordFits(data: seq<byte>, roles: seq<Role>, t: Table, encoded: seq<byte>)
    requires TableNamed(roles, t)
    ensures var rec := AppendedRecord(data, roles, t, encoded); rec.Accepted? ==> |rec.value.values| == |t.columns|
  {
  }

  lemma LeafOwned(data: seq<byte>, c: Catalog, t: Table, x: PhysicalIndex)
    requires TreePlaced(data, c.roles, t, x)
    ensures Owns(data, c, x.role, x.root)
  {
    hide PageOf, MapPages, ReadTree, Fields;
    TreeStartsAtRoot(TreeFile(data, t, x), x.root);
  }

  lemma PlacedPages(data: seq<byte>, c: Catalog, t: Table, x: PhysicalIndex, p: nat)
    requires TreePlaced(data, c.roles, t, x) && p in MapPages(data, c.roles[x.role].owned)
    ensures Owns(data, c, x.role, p) && PageOf(data, p).Accepted? && PageOf(data, p).value[0] != 2
  {
    hide PageOf, MapPages, ReadTree, Fields;
    assert OwnedIndexPage(data, t.root, p);
  }

  lemma OneOwner(data: seq<byte>, c: Catalog, j: nat, k: nat, p: nat)
    requires ValidAllocation(data, c) && Owns(data, c, j, p) && Owns(data, c, k, p)
    ensures j == k
  {
    hide MapsAccepted, LocatorsDistinct, ReferencesDistinct, IsMetadata, MapPages;
  }

  lemma IndexPlaced(data: seq<byte>, roles: seq<Role>, tables: seq<Table>, deltas: seq<int>,
                    contents: seq<seq<TableRows.Record>>, collation: Collation, i: nat, j: nat)
    requires Named(roles, tables) && |deltas| == |tables| && ValidCollation(collation) && i < |tables|
    requires j < |tables[i].indexes|
    requires Observed(data, roles, tables, deltas, contents, collation)
    ensures TreePlaced(data, roles, tables[i], tables[i].indexes[j])
  {
    hide ValidCollation, RowsRead, CountAdmitted, TreePlaced, Expected, ValidAllocation, ReserveSound, DefinitionPages;
    assert TableSound(data, roles, tables[i], deltas[i], contents[i], collation);
    assert IndexSound(data, roles, tables[i], tables[i].indexes[j], contents[i], collation);
  }

  lemma IndexRolesDiffer(roles: seq<Role>, tables: seq<Table>, i: nat, j: nat, k: nat, l: nat)
    requires Named(roles, tables) && i < |tables| && j < |tables[i].indexes| && k < |tables| && l < |tables[k].indexes|
    requires i != k
    ensures tables[i].indexes[j].role != tables[k].indexes[l].role
  {
  }

  /** The two patched pages belong to no index of another table. */
  lemma PatchMissesIndex(before: seq<byte>, roles: seq<Role>, tables: seq<Table>, deltas: seq<int>,
                         contents: seq<seq<TableRows.Record>>, collation: Collation, i: nat, j: nat, l: nat, p: nat)
    requires Named(roles, tables) && |deltas| == |tables| && ValidCollation(collation)
    requires i < |tables| && j < |tables| && i != j && |tables[i].indexes| == 1 && l < |tables[j].indexes|
    requires Observed(before, roles, tables, deltas, contents, collation)
    requires Definitions.IsDefinitionPage(before, tables[i].root)
    requires tables[j].indexes[l].role < |roles| && p in MapPages(before, roles[tables[j].indexes[l].role].owned)
    ensures p != tables[i].root && p != tables[i].indexes[0].root
  {
    hide ValidCollation, Named, TableSound, ReserveSound, ValidAllocation, TreePlaced, MapPages, PageOf,
         DefinitionPages, Owns;
    var c, x, y := CatalogOf(before, roles, tables), tables[i].indexes[0], tables[j].indexes[l];
    IndexPlaced(before, roles, tables, deltas, contents, collation, i, 0);
    IndexPlaced(before, roles, tables, deltas, contents, collation, j, l);
    PlacedPages(before, c, tables[j], y, p);
    var root := PageOf(before, tables[i].root).value;
    assert root[0] == root[..4][0] == 2;
    if p == x.root {
      LeafOwned(before, c, tables[i], x);
      OneOwner(before, c, x.role, y.role, p);
      IndexRolesDiffer(roles, tables, i, 0, j, l);
    }
  }

  /** Everything the table theorem needs to know about the patched file. */
  lemma InsertedFile(before: seq<byte>, after: seq<byte>, roles: seq<Role>, tables: seq<Table>, deltas: seq<int>,
                     contents: seq<seq<TableRows.Record>>, collation: Collation, i: nat, encoded: seq<byte>,
                     entry: seq<byte>)
    requires Named(roles, tables) && |deltas| == |tables| && |contents| == |tables| && ValidCollation(collation)
    requires i < |tables|
    requires RowInserted(before, after, roles, tables[i], contents[i], encoded, entry, collation)
    requires Observed(before, roles, tables, deltas, contents, collation)
    ensures var t, c := tables[i], CatalogOf(before, roles, tables);
            && CatalogOf(after, roles, tables) == c && ValidAllocation(after, c) && ReserveSound(after, Spots(c))
            && Grown(before, after, c, t.role, {t.root, t.indexes[0].root}) && LinksKept(before, after)
            && Definitions.IsDefinitionPage(before, t.root) && PageOf(before, t.indexes[0].root).Accepted?
            && PageOf(before, t.indexes[0].root).value[0] == 4
            && PageOf(after, PageCount(before)) == Accepted(NewPage(encoded, t.root))
            && PageOf(after, t.root).Accepted? && U32(PageOf(after, t.root).value, 12) == |contents[i]| + 1
            && PageOf(after, t.indexes[0].root).Accepted?
            && Rebuilt(PageOf(before, t.indexes[0].root).value, PageOf(after, t.indexes[0].root).value,
                       SortBy(Expected(t.columns, t.indexes[0], contents[i], collation).value + [entry], Self))
  {
    hide ValidCollation, TableSound, ReserveSound, Spots, Appended, AppendAdmitted, DefinitionPages, NewPage,
         ValidAllocation, Grown, LinksKept, Patched, PageOf, PlainLeaf, Rebuilt, SortBy, Expected, NineBytes,
         Definitions.ReadDefinition, Definitions.IsDefinitionPage, PageCount;
    var t, c := tables[i], CatalogOf(before, roles, tables);
    var x, count := t.indexes[0], |contents[i]| + 1;
    var entries := SortBy(Expected(t.columns, x, contents[i], collation).value + [entry], Self);
    var middle := Appended(before, roles[t.role].owned, roles[t.role].available.value, encoded, t.root);
    AppendedFile(before, roles, tables, deltas, contents, collation, i, encoded);
    DefinitionsRead(before, roles, tables, deltas, contents, collation);
    DefinitionKept(before, middle, t.root);
    PatchedPages(before, middle, after, c, t, x, count, entries);
    PatchedLength(before, middle, after, c, t.root, x.root, count, entries);
    GrownAllocation(before, after, c, t.role, {t.root, x.root});
    PatchKeepsReserve(middle, after, c, t.root, x.root, count, entries);
    PatchKeepsLinks(before, middle, after, t.root, x.root, count, entries);
    SameDefinitions(before, after, tables);
  }

  lemma PatchedLength(before: seq<byte>, middle: seq<byte>, after: seq<byte>, c: Catalog, root: nat, leaf: nat,
                      count: nat, entries: seq<seq<byte>>)
    requires ValidAllocation(middle, c) && Patched(middle, after, root, leaf, count, entries)
    requires PageOf(before, root).Accepted? && PageOf(before, leaf).Accepted?
    ensures |after| % PAGE == 0 && PageOf(after, PageCount(before)) == PageOf(middle, PageCount(before))
  {
    hide Rebuilt, Counted, LocatorsDistinct, MapsAccepted, ReferencesDistinct, Partitioned;
    Definitions.PageInRange(before, root);
    Definitions.PageInRange(before, leaf);
  }

  lemma OtherTablesMissed(before: seq<byte>, after: seq<byte>, roles: seq<Role>, tables: seq<Table>, deltas: seq<int>,
                          contents: seq<seq<TableRows.Record>>, collation: Collation, i: nat, j: nat,
                          others: seq<TableRows.Record>)
    requires Named(roles, tables) && |deltas| == |tables| && ValidCollation(collation)
    requires i < |tables| && j < |tables| && i != j && |tables[i].indexes| == 1
    requires TableNamed(roles, tables[i]) && TableNamed(roles, tables[j])
    requires Grown(before, after, CatalogOf(before, roles, tables), tables[i].role,
                   {tables[i].root, tables[i].indexes[0].root})
    requires LinksKept(before, after) && Definitions.IsDefinitionPage(before, tables[i].root)
    requires PageOf(before, tables[i].indexes[0].root).Accepted?
    requires PageOf(before, tables[i].indexes[0].root).value[0] == 4
    requires Observed(before, roles, tables, deltas, contents, collation)
    ensures TableSound(after, roles, tables[j], deltas[j], others, collation) <==> others == contents[j]
  {
    hide ValidCollation, TableSound, ReserveSound, Spots, ValidAllocation, Grown, LinksKept, Named, TableNamed,
         MapPages, PageOf, DefinitionPages, Definitions.ReadDefinition;
    NamedTable(roles, tables, i);
    NamedTable(roles, tables, j);
    NamedRole(roles, tables[i]);
    NoIndexRole(roles, tables[j], tables[i].role);
    IndexRolesInside(roles, tables[j]);
    DefinitionsRead(before, roles, tables, deltas, contents, collation);
    DefinitionKept(before, after, tables[j].root);
    var image := PageOf(before, tables[j].root).value;
    assert image[0] == image[..4][0] == 2;
    var touched := {tables[i].root, tables[i].indexes[0].root};
    forall l, p | 0 <= l < |tables[j].indexes| && p in MapPages(before, roles[tables[j].indexes[l].role].owned)
      ensures p !in touched
    {
      PatchMissesIndex(before, roles, tables, deltas, contents, collation, i, j, l, p);
    }
    OtherTableKept(before, after, CatalogOf(before, roles, tables), tables[i].role, touched, tables[j], deltas[j],
                   contents[j], others, collation);
  }

  lemma IndexRolesInside(roles: seq<Role>, t: Table)
    requires TableNamed(roles, t)
    ensures forall l :: 0 <= l < |t.indexes| ==> t.indexes[l].role < |roles|
  {
  }

  lemma InsertedKeys(before: seq<byte>, after: seq<byte>, roles: seq<Role>, t: Table, records: seq<TableRows.Record>,
                     encoded: seq<byte>, entry: seq<byte>, collation: Collation)
    requires TableNamed(roles, t) && ValidCollation(collation)
    requires RowInserted(before, after, roles, t, records, encoded, entry, collation)
    ensures |t.indexes| == 1 && KeysInside(t.columns, t.indexes[0].keys)
    ensures LeafFits(before, t, t.indexes[0], records, entry, collation)
    ensures |encoded| <= 2036 && t.root < 0x100_0000
  {
    hide AppendAdmitted, Appended, Patched, Expected, SortBy, PlainLeaf, NineBytes;
  }

  /**
   * A patched file passes the observation with the same deltas exactly when the new row decodes without fragments and
   * its index entry is the one put into the leaf; the rows are then the old ones and the new one behind them.
   */
  lemma InsertObserved(before: seq<byte>, after: seq<byte>, roles: seq<Role>, tables: seq<Table>, deltas: seq<int>,
                       contents: seq<seq<TableRows.Record>>, collation: Collation, i: nat, encoded: seq<byte>,
                       entry: seq<byte>, grown: seq<seq<TableRows.Record>>)
    requires Named(roles, tables) && |deltas| == |contents| == |tables| && ValidCollation(collation) && i < |tables|
    requires deltas[i] == 0
    requires RowInserted(before, after, roles, tables[i], contents[i], encoded, entry, collation)
    requires Observed(before, roles, tables, deltas, contents, collation)
    ensures |tables[i].indexes| == 1 && KeysInside(tables[i].columns, tables[i].indexes[0].keys)
    ensures var t := tables[i];
            var rec := AppendedRecord(before, roles, t, encoded);
            Observed(after, roles, tables, deltas, grown, collation)
            <==> && rec.Accepted? && SelfContained(rec.value)
                 && RowEntries(t.columns, t.indexes[0], rec.value, collation) == Accepted([entry])
                 && grown == contents[i := contents[i] + [rec.value]]
  {
    hide ValidCollation, TableSound, ReserveSound, Spots, RowInserted, ValidAllocation, NewPage, Grown, LinksKept,
         DefinitionPages, SelfContained, AppendedRecord, Named, TableNamed, PageOf, PageCount, RowEntries, LeafFits,
         Rebuilt, Expected, SortBy, Definitions.IsDefinitionPage, KeysInside,
         RowsRead, IndexSound, MapPages, Definitions.ReadDefinition, DeclaredCount;
    var t, c := tables[i], CatalogOf(before, roles, tables);
    NamedTable(roles, tables, i);
    var rec := AppendedRecord(before, roles, t, encoded);
    NamedRole(roles, t);
    NoIndexRole(roles, t, t.role);
    IndexRolesInside(roles, t);
    RecordFits(before, roles, t, encoded);
    InsertedKeys(before, after, roles, t, contents[i], encoded, entry, collation);
    InsertedFile(before, after, roles, tables, deltas, contents, collation, i, encoded, entry);
    var x, touched := t.indexes[0], {t.root, t.indexes[0].root};
    if |grown| == |tables| {
      assert TableSound(before, roles, t, 0, contents[i], collation);
      OneIndex(before, roles, t, contents[i], collation);
      OneIndex(after, roles, t, grown[i], collation);
      RowsGrow(before, after, c, touched, t, contents[i], encoded, grown[i]);
      CountIsRead(before, t.root);
      DefinitionKept(before, after, t.root);
      if rec.Accepted? {
        LeafListsRow(before, after, c, t.role, touched, t, x, contents[i], rec.value, entry, collation);
      }
      forall j | 0 <= j < |tables| && j != i
        ensures TableNamed(roles, tables[j])
        ensures TableSound(after, roles, tables[j], deltas[j], grown[j], collation) <==> grown[j] == contents[j]
      {
        NamedTable(roles, tables, j);
        OtherTablesMissed(before, after, roles, tables, deltas, contents, collation, i, j, grown[j]);
      }
    }
  }

  // ----- What the patch leaves of the definitions -----

  /** Position `p` of a body that starts on the patched root page is one of the two counts. */
  predicate IsCount(p: nat) {
    12 <= p < 16 || 47 <= p < 51
  }

  /** All definition pages are kept but one root, where only the counts change. */
  ghost predicate OnlyCounts(before: seq<byte>, after: seq<byte>, root: nat) {
    && LinksKept(before, after)
    && (forall q: nat :: Definitions.IsDefinitionPage(before, q) && q != root ==> PageOf(after, q) == PageOf(before, q))
    && (PageOf(before, root).Accepted? && PageOf(after, root).Accepted?)
    && forall p: nat :: p < PAGE && !IsCount(p) ==> PageOf(after, root).value[p] == PageOf(before, root).value[p]
  }

  lemma BodyByteKept(before: seq<byte>, after: seq<byte>, root: nat, own: nat, p: nat)
    requires OnlyCounts(before, after, root) && Definitions.ReadDefinition(before, own).Accepted?
    requires Definitions.ReadDefinition(after, own).Accepted?
    requires Definitions.ReadDefinition(after, own).value.pages == Definitions.ReadDefinition(before, own).value.pages
    requires p < |Definitions.ReadDefinition(before, own).value.body|
    requires p < |Definitions.ReadDefinition(after, own).value.body|
    requires if own == root then !IsCount(p) else root !in Definitions.ReadDefinition(before, own).value.pages
    ensures Definitions.ReadDefinition(after, own).value.body[p]
            == Definitions.ReadDefinition(before, own).value.body[p]
  {
    hide PageOf, Definitions.ReadDefinition, LinksKept, Definitions.IsDefinitionPage;
    var pages := Definitions.ReadDefinition(before, own).value.pages;
    Definitions.AddressTranslation(before, own, p);
    Definitions.AddressTranslation(after, own, p);
    ChainOf(before, own);
    var index := if p < PAGE then 0 else (p - PAGE) / (PAGE - 8) + 1;
    var within := if p < PAGE then p else 8 + (p - PAGE) % (PAGE - 8);
    var page := pages[index];
    assert Definitions.FileOffset(own, pages, p) == page * PAGE + within;
    Definitions.DefinitionPagesExist(before, pages);
    LinkKept(before, after, page);
    Definitions.PageByte(before, page, within);
    Definitions.PageByte(after, page, within);
  }

  lemma ChainOf(data: seq<byte>, root: nat)
    requires Definitions.ReadDefinition(data, root).Accepted?
    ensures var pages := Definitions.ReadDefinition(data, root).value.pages;
            && pages != [] && pages[0] == root && NoRepeats(pages)
            && forall i :: 0 <= i < |pages| ==> Definitions.IsDefinitionPage(data, pages[i])
  {
    hide Definitions.Follow, Definitions.BodyOf, Definitions.IsDefinitionPage;
    NoEmptyDefinition(data);
    Definitions.FollowedPages(data, root, []);
  }

  lemma BodyLengthKept(before: seq<byte>, after: seq<byte>, root: nat)
    requires LinksKept(before, after) && Definitions.ReadDefinition(before, root).Accepted?
    ensures Definitions.ReadDefinition(after, root).Accepted?
    ensures |Definitions.ReadDefinition(after, root).value.body|
            == |Definitions.ReadDefinition(before, root).value.body|
  {
    hide Definitions.BodyOf, PageOf, LinksKept, Definitions.Follow;
    DefinitionKept(before, after, root);
    Definitions.FollowedPages(before, root, []);
    NoEmptyDefinition(before);
    ChainFollowed(before, after, root, []);
    CountOnRoot(before, root);
    CountOnRoot(after, root);
    LinkKept(before, after, root);
  }

  /**
   * The patch changes no definition but its own table's, and there only the two counts: everything a definition says
   * about columns, indexes and maps is as before.
   */
  lemma InsertKeepsDefinitions(before: seq<byte>, after: seq<byte>, roles: seq<Role>, tables: seq<Table>,
                               deltas: seq<int>, contents: seq<seq<TableRows.Record>>, collation: Collation, i: nat,
                               encoded: seq<byte>, entry: seq<byte>, own: nat)
    requires Named(roles, tables) && |deltas| == |contents| == |tables| && ValidCollation(collation) && i < |tables|
    requires RowInserted(before, after, roles, tables[i], contents[i], encoded, entry, collation)
    requires Observed(before, roles, tables, deltas, contents, collation)
    requires Definitions.ReadDefinition(before, own).Accepted?
    requires own == tables[i].root || tables[i].root !in Definitions.ReadDefinition(before, own).value.pages
    ensures Definitions.ReadDefinition(after, own).Accepted?
    ensures var was, now := Definitions.ReadDefinition(before, own).value, Definitions.ReadDefinition(after, own).value;
            && now.pages == was.pages && |now.body| == |was.body|
            && forall p: nat :: p < |was.body| && !(own == tables[i].root && IsCount(p)) ==> now.body[p] == was.body[p]
  {
    hide ValidCollation, Observed, Definitions.ReadDefinition, RowInserted, LinksKept, Named, OnlyCounts, IsCount;
    PatchOnlyCounts(before, after, roles, tables, deltas, contents, collation, i, encoded, entry);
    CountsKeepLinks(before, after, tables[i].root);
    DefinitionKept(before, after, own);
    BodyLengthKept(before, after, own);
    var was, now := Definitions.ReadDefinition(before, own).value, Definitions.ReadDefinition(after, own).value;
    forall p: nat | p < |was.body| && !(own == tables[i].root && IsCount(p)) ensures now.body[p] == was.body[p] {
      BodyByteKept(before, after, tables[i].root, own, p);
    }
  }

  lemma CountsKeepLinks(before: seq<byte>, after: seq<byte>, root: nat)
    requires OnlyCounts(before, after, root)
    ensures LinksKept(before, after)
  {
    hide PageOf, LinksKept;
  }

  lemma PatchOnlyCounts(before: seq<byte>, after: seq<byte>, roles: seq<Role>, tables: seq<Table>, deltas: seq<int>,
                        contents: seq<seq<TableRows.Record>>, collation: Collation, i: nat, encoded: seq<byte>,
                        entry: seq<byte>)
    requires Named(roles, tables) && |deltas| == |contents| == |tables| && ValidCollation(collation) && i < |tables|
    requires RowInserted(before, after, roles, tables[i], contents[i], encoded, entry, collation)
    requires Observed(before, roles, tables, deltas, contents, collation)
    ensures OnlyCounts(before, after, tables[i].root)
  {
    hide ValidCollation, TableSound, ReserveSound, Spots, Appended, AppendAdmitted, DefinitionPages, NewPage, PageOf,
         ValidAllocation, Grown, LinksKept, PlainLeaf, Rebuilt, SortBy, Expected, NineBytes, Counted, LeafFits;
    var t, c := tables[i], CatalogOf(before, roles, tables);
    var middle := Appended(before, roles[t.role].owned, roles[t.role].available.value, encoded, t.root);
    AppendedFile(before, roles, tables, deltas, contents, collation, i, encoded);
    InsertedFile(before, after, roles, tables, deltas, contents, collation, i, encoded, entry);
    RootKept(before, middle, c, t.role, {}, t.root);
    CountedWords(PageOf(before, t.root).value, |contents[i]| + 1);
    forall q: nat | Definitions.IsDefinitionPage(before, q) && q != t.root
      ensures PageOf(after, q) == PageOf(before, q)
    {
      var image := PageOf(before, q).value;
      assert image[0] == image[..4][0] == 2;
      RootKept(before, after, c, t.role, {t.root, t.indexes[0].root}, q);
    }
  }
}
