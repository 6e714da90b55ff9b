/**
 * The checks of `observe` (oracle/windows-dao/structure.py) over whole tables: the rows are decoded from the pages
 * that the table's own map owns, their number agrees with the declared count, every index tree lies on pages of its
 * own map and lists the entries of these rows, and no map row of the file is left over but the native empty reserve.
 *
 * Together with the classification these checks tie the structures to each other: trees of different indexes
 * share no page with each other, with metadata or with free pages, and searching an accepted index finds
 * exactly the rows of its table.
 */
module Observation {
  import opened Bytes
  import opened DataPages
  import opened KeyEncoding
  import opened AllocationMaps
  import opened Classification
  import opened IndexTrees
  import opened IndexKeys
  import opened Sorting
  import Definitions
  import FieldValues
  import Links
  import TableRows

  // ----- The reserve map -----

  const RESERVE := Locator(1, 1)

  function ZeroRow(): (r: seq<byte>) {
    seq(133, i => 0)
  }

  ghost predicate OnMapPage(spots: seq<Locator>, w: Locator) {
    exists i :: 0 <= i < |spots| && spots[i].page == w.page
  }

  /** Active rows of the map pages are the named maps and the empty reserve, which nothing names. */
  ghost predicate ReserveSound(data: seq<byte>, spots: seq<Locator>) {
    && (forall w: Locator :: OnMapPage(spots, w) && LocatorRow(data, w).Accepted? ==> (w in spots <==> w != RESERVE))
    && OnMapPage(spots, RESERVE) && LocatorRow(data, RESERVE) == Accepted(ZeroRow())
  }

  /** The reserve is the second row of page 1, 133 zero bytes that no table, index or column names. */
  lemma ReserveRow(data: seq<byte>, spots: seq<Locator>)
    requires ReserveSound(data, spots)
    ensures Locator(1, 1) !in spots && LocatorRow(data, Locator(1, 1)).Accepted?
    ensures var row := LocatorRow(data, Locator(1, 1)).value;
            |row| == 133 && forall i :: 0 <= i < 133 ==> row[i] == 0
  {
    hide LocatorRow;
  }

  /** The loop over map pages and their directories. */
  method CheckReserve(data: seq<byte>, spots: seq<Locator>) returns (ok: bool)
    requires forall i :: 0 <= i < |spots| ==> LocatorRow(data, spots[i]).Accepted?
    ensures ok <==> ReserveSound(data, spots)
  {
    hide RowOf;
    var active: set<Locator> := {};
    for i := 0 to |spots|
      invariant forall w: Locator :: w in active <==> OnMapPage(spots[..i], w) && LocatorRow(data, w).Accepted?
    {
      var page := spots[i].page;
      var image := PageOf(data, page).value;
      ghost var before := active;
      for row := 0 to Count(image)
        invariant forall w: Locator :: w in active <==>
                    w in before || (w.page == page && w.row < row && LocatorRow(data, w).Accepted?)
      {
        if LocatorRow(data, Locator(page, row)).Accepted? {
          active := active + {Locator(page, row)};
        }
      }
      RowsAreCounted(data, page);
      assert spots[..i + 1] == spots[..i] + [spots[i]];
      OnMapPageSnoc(spots[..i], spots[i]);
    }
    assert spots[..|spots|] == spots;
    var named := set w | w in spots;
    ok := active - named == {RESERVE} && LocatorRow(data, RESERVE) == Accepted(ZeroRow());
    LeftOver(data, spots, active, named);
  }

  lemma RowsAreCounted(data: seq<byte>, page: nat)
    ensures forall w: Locator :: w.page == page && LocatorRow(data, w).Accepted? ==>
              w.row < Count(PageOf(data, page).value)
  {
  }

  lemma OnMapPageSnoc(spots: seq<Locator>, last: Locator)
    ensures forall w: Locator :: OnMapPage(spots + [last], w) <==> OnMapPage(spots, w) || w.page == last.page
  {
    var more := spots + [last];
    assert more[|spots|] == last && forall i :: 0 <= i < |spots| ==> more[i] == spots[i];
    forall w: Locator ensures OnMapPage(more, w) <==> OnMapPage(spots, w) || w.page == last.page {
      if i :| 0 <= i < |spots| && spots[i].page == w.page {
        assert more[i].page == w.page;
      }
    }
  }

  lemma LeftOver(data: seq<byte>, spots: seq<Locator>, active: set<Locator>, named: set<Locator>)
    requires forall i :: 0 <= i < |spots| ==> LocatorRow(data, spots[i]).Accepted?
    requires forall w: Locator :: w in active <==> OnMapPage(spots, w) && LocatorRow(data, w).Accepted?
    requires forall w: Locator :: w in named <==> w in spots
    ensures active - named == {RESERVE} && LocatorRow(data, RESERVE) == Accepted(ZeroRow())
            <==> ReserveSound(data, spots)
  {
    hide LocatorRow, OnMapPage;
    var left := active - named;
    assert forall w: Locator :: w in left <==> w in active && w !in spots;
    if left == {RESERVE} {
      assert RESERVE in left;
      assert forall w: Locator :: w in left <==> w == RESERVE;
    }
    if ReserveSound(data, spots) {
      assert RESERVE in active && RESERVE !in spots;
      assert left == {RESERVE};
    }
  }

  // ----- Tables -----

  /**
   * A table as its definition describes it: its map among the roles, its definition root, its columns, the roles
   * of its long-value columns by ordinal, and its indexes.
   */
  datatype Table = Table(role: nat, root: nat, columns: seq<TableRows.TableColumn>, highWater: nat,
                         longRoles: seq<(nat, nat)>, indexes: seq<PhysicalIndex>)

  /** Tables and long-value columns have an availability map, indexes have none. */
  ghost predicate TableNamed(roles: seq<Role>, t: Table) {
    && t.role < |roles| && roles[t.role].available.Accepted?
    && (forall k :: 0 <= k < |t.longRoles| ==>
          t.longRoles[k].1 < |roles| && roles[t.longRoles[k].1].available.Accepted?)
    && (forall j :: 0 <= j < |t.indexes| ==>
          t.indexes[j].role < |roles| && roles[t.indexes[j].role].available.Rejected?)
  }

  /** The role list has an own entry for every table, index and long-value column, and tables have own roots. */
  ghost predicate Named(roles: seq<Role>, tables: seq<Table>) {
    && (forall i :: 0 <= i < |tables| ==> TableNamed(roles, tables[i]))
    && (forall i, j :: 0 <= i < j < |tables| ==> tables[i].role != tables[j].role && tables[i].root != tables[j].root)
    && (forall i, j, k :: 0 <= i < |tables| && 0 <= j < |tables| && 0 <= k < |tables[j].longRoles| ==>
          tables[i].role != tables[j].longRoles[k].1)
    && (forall i, j, k, l :: 0 <= i < |tables| && 0 <= j < |tables[i].indexes| ==>
          0 <= k < |tables| && 0 <= l < |tables[k].indexes| ==>
          tables[i].indexes[j].role == tables[k].indexes[l].role ==> i == k && j == l)
  }

  function LongMaps(roles: seq<Role>, t: Table): (r: seq<(nat, Locator)>)
    requires TableNamed(roles, t)
    ensures |r| == |t.longRoles|
  {
    seq(|t.longRoles|, k requires 0 <= k < |t.longRoles| => (t.longRoles[k].0, roles[t.longRoles[k].1].owned))
  }

  /** The data pages among the first `n` pages: those a table owns, without its long-value pages. */
  function DataPagesOf(data: seq<byte>, root: nat, members: set<nat>, n: nat): (r: Result<seq<nat>>) {
    if n == 0 then Accepted([])
    else
      var earlier :- DataPagesOf(data, root, members, n - 1);
      if n - 1 !in members then Accepted(earlier)
      else
        var image :- PageOf(data, n - 1);
        if image[0] != 1 then Rejected
        else if image[4..8] == Links.LONG_VALUE_OWNER then Accepted(earlier)
        else if U32(image, 4) == root then Accepted(earlier + [n - 1])
        else Rejected
  }

  /** The data pages in increasing order: tagged 1, with the root in bytes 4 to 7 unless these spell `LVAL`. */
  lemma {:induction false} DataPagesExactly(data: seq<byte>, root: nat, members: set<nat>, n: nat, p: nat)
    requires DataPagesOf(data, root, members, n).Accepted?
    ensures var pages := DataPagesOf(data, root, members, n).value;
            && (forall i, j :: 0 <= i < j < |pages| ==> pages[i] < pages[j] < n)
            && (forall i :: 0 <= i < |pages| ==> pages[i] < n)
            && (p in members && p < n ==>
                  && PageOf(data, p).Accepted?
                  && var image := PageOf(data, p).value;
                     && image[0] == 1
                     && (p in pages
                         <==> !(image[4] == 0x4c && image[5] == 0x56 && image[6] == 0x41 && image[7] == 0x4c))
                     && (p in pages ==> root == image[4] as int + 0x100 * image[5] as int + 0x1_0000 * image[6] as int
                                                + 0x100_0000 * image[7] as int))
            && (p in pages ==> p in members)
  {
    hide PageOf;
    if n > 0 {
      DataPagesExactly(data, root, members, n - 1, p);
      if n - 1 in members {
        OwnerByBytes(PageOf(data, n - 1).value);
      }
    }
  }

  lemma OwnerByBytes(image: Image)
    ensures image[4..8] == Links.LONG_VALUE_OWNER
            <==> image[4] == 0x4c && image[5] == 0x56 && image[6] == 0x41 && image[7] == 0x4c
  {
    var owner := image[4..8];
    assert owner == [image[4], image[5], image[6], image[7]];
    assert owner[0] == image[4] && owner[1] == image[5] && owner[2] == image[6] && owner[3] == image[7];
  }

  /** `_owned_pages`, for the data pages. */
  method CollectDataPages(data: seq<byte>, root: nat, members: set<nat>) returns (r: Result<seq<nat>>)
    ensures r == DataPagesOf(data, root, members, PageCount(data))
  {
    hide PageOf;
    var pages: seq<nat> := [];
    for number := 0 to PageCount(data)
      invariant DataPagesOf(data, root, members, number) == Accepted(pages)
    {
      if number in members {
        var image := PageOf(data, number);
        if image.Rejected? || image.value[0] != 1 {
          PagesRejected(data, root, members, number + 1, PageCount(data));
          return Rejected;
        }
        if image.value[4..8] != Links.LONG_VALUE_OWNER {
          if U32(image.value, 4) != root {
            PagesRejected(data, root, members, number + 1, PageCount(data));
            return Rejected;
          }
          pages := pages + [number];
        }
      }
    }
    return Accepted(pages);
  }

  lemma {:induction false} PagesRejected(data: seq<byte>, root: nat, members: set<nat>, k: nat, n: nat)
    requires k <= n && DataPagesOf(data, root, members, k).Rejected?
    ensures DataPagesOf(data, root, members, n).Rejected?
    decreases n
  {
    if k < n {
      PagesRejected(data, root, members, k, n - 1);
    }
  }

  function Stored(roles: seq<Role>, t: Table, pages: seq<nat>): (r: TableRows.Table)
    requires TableNamed(roles, t)
  {
    TableRows.Table(pages, t.columns, t.highWater, LongMaps(roles, t))
  }

  /** These are the rows of the table: `_owned_pages` and `rows` accept it and return them. */
  ghost predicate RowsRead(data: seq<byte>, roles: seq<Role>, t: Table, records: seq<TableRows.Record>)
    requires TableNamed(roles, t)
  {
    var pages := DataPagesOf(data, t.root, MapPages(data, roles[t.role].owned), PageCount(data));
    var owned := TableRows.LongPages(data, LongMaps(roles, t));
    pages.Accepted? && owned.Accepted? && TableRows.Decoded(data, Stored(roles, t, pages.value), owned.value, records)
  }

  /** The row count that the definition declares. */
  function DeclaredCount(data: seq<byte>, root: nat): (r: Result<nat>) {
    var d :- Definitions.ReadDefinition(data, root);
    Accepted(U32(d.body, 12))
  }

  method ReadCount(data: seq<byte>, root: nat) returns (r: Result<nat>)
    ensures r == DeclaredCount(data, root)
  {
    var d := Definitions.LoadDefinition(data, root);
    if d.Rejected? {
      return Rejected;
    }
    return Accepted(U32(d.value.body, 12));
  }

  /** The declared count exceeds the live rows by exactly the admitted number. */
  ghost predicate CountAdmitted(data: seq<byte>, t: Table, live: nat, delta: int) {
    DeclaredCount(data, t.root).Accepted? && DeclaredCount(data, t.root).value - live == delta
  }

  // ----- Index trees -----

  predicate OwnedIndexPage(data: seq<byte>, owner: nat, page: nat) {
    var image := PageOf(data, page);
    image.Accepted? && image.value[0] in {3, 4} && U32(image.value, 4) == owner
  }

  function TreeFile(data: seq<byte>, t: Table, x: PhysicalIndex): (index: Index)
    requires KeysInside(t.columns, x.keys)
  {
    Index(data, t.root, Fields(t.columns, x.keys))
  }

  /** The tree is accepted and lies on pages of its own map, all of which are the table's index pages. */
  ghost predicate TreePlaced(data: seq<byte>, roles: seq<Role>, t: Table, x: PhysicalIndex) {
    && x.role < |roles| && KeysInside(t.columns, x.keys)
    && var read := ReadTree(TreeFile(data, t, x), x.root);
       var members := MapPages(data, roles[x.role].owned);
       && read.Accepted?
       && (forall i :: 0 <= i < |read.value.0| ==> read.value.0[i].page in members)
       && (forall p :: p in members ==> OwnedIndexPage(data, t.root, p))
  }

  /** A tree lies on its own map: every page of it is in the map, and every page of the map is tagged for the table. */
  lemma PlacedByBytes(data: seq<byte>, roles: seq<Role>, t: Table, x: PhysicalIndex)
    requires x.role < |roles| && KeysInside(t.columns, x.keys)
    ensures TreePlaced(data, roles, t, x) <==>
            var read, members := ReadTree(TreeFile(data, t, x), x.root), MapPages(data, roles[x.role].owned);
            && read.Accepted? && (forall i :: 0 <= i < |read.value.0| ==> read.value.0[i].page in members)
            && forall p: nat :: p in members ==> TaggedFor(data, t.root, p)
  {
    hide ReadTree, PageOf;
    forall p: nat ensures OwnedIndexPage(data, t.root, p) <==> TaggedFor(data, t.root, p) {
      if PageOf(data, p).Accepted? {
        FieldValues.WordsUnsigned(PageOf(data, p).value, 4);
      }
    }
  }

  /** The page starts with tag 3 or 4 and spells the table's definition page in bytes 4 to 7. */
  ghost predicate TaggedFor(data: seq<byte>, root: nat, page: nat) {
    PageOf(data, page).Accepted? &&
    var image := PageOf(data, page).value;
    (image[0] == 3 || image[0] == 4) && FieldValues.Unsigned(image[4..8]) == root
  }

  /** The index lists exactly the entries of the given rows. */
  ghost predicate IndexSound(
    data: seq<byte>, roles: seq<Role>, t: Table, x: PhysicalIndex, records: seq<TableRows.Record>, collation: Collation)
    requires ValidCollation(collation)
  {
    && TreePlaced(data, roles, t, x) && Complete(t.columns, records)
    && var expected := Expected(t.columns, x, records, collation);
       && expected.Accepted?
       && ReadTree(TreeFile(data, t, x), x.root).value.1 == SortBy(expected.value, Self)
  }

  /** The checks on one index, given the decoded rows of its table. */
  method CheckIndex(
    data: seq<byte>, roles: seq<Role>, t: Table, x: PhysicalIndex, records: seq<TableRows.Record>, collation: Collation)
    returns (ok: bool)
    requires x.role < |roles| && ValidCollation(collation) && Complete(t.columns, records)
    ensures ok <==> IndexSound(data, roles, t, x, records, collation)
  {
    hide ReadTree, MapPages, SortBy, OwnedIndexPage, Expected, ValidCollation, Complete, Fields;
    if !KeysInside(t.columns, x.keys) {
      return false;
    }
    var read := ReadIndexTree(TreeFile(data, t, x), x.root);
    var expected := BuildEntries(t.columns, x, records, collation);
    if read.Rejected? || expected.Rejected? || read.value.1 != SortBy(expected.value, Self) {
      return false;
    }
    var nodes, members := read.value.0, MapPages(data, roles[x.role].owned);
    for i := 0 to |nodes|
      invariant forall k :: 0 <= k < i ==> nodes[k].page in members
    {
      if nodes[i].page !in members {
        return false;
      }
    }
    var left := members;
    while left != {}
      invariant left <= members
      invariant forall p :: p in members - left ==> OwnedIndexPage(data, t.root, p)
      decreases left
    {
      var p :| p in left;
      if !OwnedIndexPage(data, t.root, p) {
        return false;
      }
      left := left - {p};
    }
    return true;
  }

  // ----- The whole observation -----

  ghost predicate TableSound(
    data: seq<byte>, roles: seq<Role>, t: Table, delta: int, records: seq<TableRows.Record>, collation: Collation)
    requires TableNamed(roles, t) && ValidCollation(collation)
  {
    && RowsRead(data, roles, t, records)
    && CountAdmitted(data, t, |records|, delta)
    && forall j :: 0 <= j < |t.indexes| ==> IndexSound(data, roles, t, t.indexes[j], records, collation)
  }

  /** The pages of all definition chains. */
  function DefinitionPages(data: seq<byte>, tables: seq<Table>): (r: set<nat>) {
    if tables == [] then {}
    else
      var n := |tables| - 1;
      var d := Definitions.ReadDefinition(data, tables[n].root);
      DefinitionPages(data, tables[..n]) + (if d.Accepted? then set p | p in d.value.pages else {})
  }

  function CatalogOf(data: seq<byte>, roles: seq<Role>, tables: seq<Table>): (c: Catalog) {
    Catalog(DefinitionPages(data, tables), roles)
  }

  /** Everything `observe` checks, with the count deltas it is given and the rows it returns for each table. */
  ghost predicate Observed(data: seq<byte>, roles: seq<Role>, tables: seq<Table>, deltas: seq<int>,
                           contents: seq<seq<TableRows.Record>>, collation: Collation)
    requires Named(roles, tables) && |deltas| == |tables| && ValidCollation(collation)
  {
    var c := CatalogOf(data, roles, tables);
    && ValidAllocation(data, c) && ReserveSound(data, Spots(c)) && |contents| == |tables|
    && forall i :: 0 <= i < |tables| ==> TableSound(data, roles, tables[i], deltas[i], contents[i], collation)
  }

  lemma DecodedIsComplete(data: seq<byte>, t: TableRows.Table, owned: TableRows.Owned, records: seq<TableRows.Record>)
    requires TableRows.Decoded(data, t, owned, records)
    ensures Complete(t.columns, records)
  {
    hide TableRows.RecordMeans, TableRows.Decoded;
    TableRows.RowsAreMeant(data, t, owned, records);
    forall i | 0 <= i < |records| ensures |records[i].values| == |t.columns| {
      TableRows.ValuesPerColumn(data, t, owned, records[i]);
    }
  }

  lemma RowsAreComplete(data: seq<byte>, roles: seq<Role>, t: Table, records: seq<TableRows.Record>)
    requires TableNamed(roles, t) && RowsRead(data, roles, t, records)
    ensures Complete(t.columns, records)
  {
    hide DataPagesOf, MapPages, TableRows.LongPages, TableRows.Decoded;
    var pages := DataPagesOf(data, t.root, MapPages(data, roles[t.role].owned), PageCount(data)).value;
    DecodedIsComplete(data, Stored(roles, t, pages), TableRows.LongPages(data, LongMaps(roles, t)).value, records);
  }

  /** A file holds at most one list of rows for a table. */
  lemma RowsUnique(data: seq<byte>, roles: seq<Role>, t: Table, a: seq<TableRows.Record>, b: seq<TableRows.Record>)
    requires TableNamed(roles, t) && RowsRead(data, roles, t, a) && RowsRead(data, roles, t, b)
    ensures a == b
  {
    hide DataPagesOf, MapPages, TableRows.LongPages, TableRows.RecordsOf, TableRows.LiveSlots;
  }

  /** `_owned_pages` and `rows` for one table. */
  method ReadTable(data: seq<byte>, roles: seq<Role>, t: Table) returns (r: Result<seq<TableRows.Record>>)
    requires TableNamed(roles, t)
    ensures r.Accepted? ==> RowsRead(data, roles, t, r.value)
    ensures forall records :: RowsRead(data, roles, t, records) ==> r == Accepted(records)
  {
    hide DataPagesOf, MapPages, TableRows.LongPages, TableRows.Decoded;
    var pages := CollectDataPages(data, t.root, MapPages(data, roles[t.role].owned));
    if pages.Rejected? {
      return Rejected;
    }
    r := TableRows.ReadRows(data, Stored(roles, t, pages.value));
  }

  /** The body of the table loop in `observe`. */
  method CheckTable(data: seq<byte>, roles: seq<Role>, t: Table, delta: int, collation: Collation)
    returns (r: Result<seq<TableRows.Record>>)
    requires TableNamed(roles, t) && ValidCollation(collation)
    ensures r.Accepted? ==> TableSound(data, roles, t, delta, r.value, collation)
    ensures forall records :: TableSound(data, roles, t, delta, records, collation) ==> r == Accepted(records)
  {
    hide RowsRead, IndexSound, ValidCollation, DeclaredCount;
    r := ReadTable(data, roles, t);
    var declared := ReadCount(data, t.root);
    if r.Rejected? || declared.Rejected? || declared.value - |r.value| != delta {
      return Rejected;
    }
    RowsAreComplete(data, roles, t, r.value);
    for j := 0 to |t.indexes|
      invariant forall k :: 0 <= k < j ==> IndexSound(data, roles, t, t.indexes[k], r.value, collation)
    {
      var sound := CheckIndex(data, roles, t, t.indexes[j], r.value, collation);
      if !sound {
        return Rejected;
      }
    }
  }

  lemma SpotsReadable(data: seq<byte>, c: Catalog)
    requires ValidAllocation(data, c)
    ensures forall i :: 0 <= i < |Spots(c)| ==> LocatorRow(data, Spots(c)[i]).Accepted?
  {
    hide LocatorRow, GlobalAccepted, RoleAccepted, MapPages, Partitioned, ReferencesDistinct, IsLocator;
    forall i | 0 <= i < |Spots(c)| ensures LocatorRow(data, Spots(c)[i]).Accepted? {
      SpotsExact(c, Spots(c)[i]);
      MapHasRow(data, Spots(c)[i]);
    }
  }

  lemma MapHasRow(data: seq<byte>, w: Locator)
    ensures ReadMap(data, w).Accepted? ==> LocatorRow(data, w).Accepted?
  {
  }

  /** `observe`: accepts exactly the files for which all checks hold, and returns the rows of every table. */
  method Observe(data: seq<byte>, roles: seq<Role>, tables: seq<Table>, deltas: seq<int>, collation: Collation)
    returns (r: Result<seq<seq<TableRows.Record>>>)
    requires Named(roles, tables) && |deltas| == |tables| && ValidCollation(collation)
    ensures r.Accepted? ==> Observed(data, roles, tables, deltas, r.value, collation)
    ensures forall contents :: Observed(data, roles, tables, deltas, contents, collation) ==> r == Accepted(contents)
  {
    hide ValidAllocation, ReserveSound, TableSound, Spots, LocatorRow, ValidCollation, DefinitionPages;
    var contents: seq<seq<TableRows.Record>> := [];
    for i := 0 to |tables|
      invariant |contents| == i
      invariant forall k :: 0 <= k < i ==> TableSound(data, roles, tables[k], deltas[k], contents[k], collation)
      invariant forall others :: Observed(data, roles, tables, deltas, others, collation) ==> contents == others[..i]
    {
      var rows := CheckTable(data, roles, tables[i], deltas[i], collation);
      if rows.Rejected? {
        return Rejected;
      }
      forall others | Observed(data, roles, tables, deltas, others, collation)
        ensures contents + [rows.value] == others[..i + 1]
      {
        assert TableSound(data, roles, tables[i], deltas[i], others[i], collation);
      }
      contents := contents + [rows.value];
    }
    var c := CatalogOf(data, roles, tables);
    var ok := Classify(data, c);
    if !ok {
      return Rejected;
    }
    SpotsReadable(data, c);
    ok := CheckReserve(data, Spots(c));
    if !ok {
      return Rejected;
    }
    forall others | Observed(data, roles, tables, deltas, others, collation) ensures contents == others {
      assert others[..|tables|] == others;
    }
    return Accepted(contents);
  }

  // ----- What an accepted observation means -----

  /** The declared count is spelled by bytes 12 to 15 of the definition's root page. */
  lemma CountByBytes(data: seq<byte>, root: nat)
    requires DeclaredCount(data, root).Accepted?
    ensures PageOf(data, root).Accepted?
    ensures var image := PageOf(data, root).value;
            DeclaredCount(data, root).value
            == image[12] as int + 0x100 * image[13] as int + 0x1_0000 * image[14] as int + 0x100_0000 * image[15] as int
  {
    hide Definitions.ReadDefinition;
    Definitions.BodyByBytes(data, root);
    Definitions.ChainStarts(data, root);
    forall p: nat | 12 <= p < 16
      ensures Definitions.ReadDefinition(data, root).value.body[p] == PageOf(data, root).value[p]
    {
      Definitions.AddressTranslation(data, root, p);
      Definitions.PageByte(data, root, p);
    }
  }

  /** Trees of two indexes share no page, and no tree page is free or metadata. */
  lemma IndexTreesApart(data: seq<byte>, roles: seq<Role>, tables: seq<Table>, deltas: seq<int>,
                        contents: seq<seq<TableRows.Record>>, collation: Collation, i: nat, j: nat, k: nat, l: nat,
                        p: nat)
    requires Named(roles, tables) && |deltas| == |tables| && ValidCollation(collation)
    requires Observed(data, roles, tables, deltas, contents, collation)
    requires i < |tables| && j < |tables[i].indexes| && k < |tables| && l < |tables[k].indexes|
    requires p in TreePages(data, tables[i], tables[i].indexes[j])
    ensures p !in MapPages(data, GLOBAL) && !IsMetadata(data, CatalogOf(data, roles, tables), p)
    ensures i != k || j != l ==> p !in TreePages(data, tables[k], tables[k].indexes[l])
  {
    hide ReadTree, MapPages, SortBy, OwnedIndexPage, IsMetadata, ReserveSound, LocatorsDistinct, MapsAccepted,
         ReferencesDistinct, RowsRead, CountAdmitted, Expected, DefinitionPages, ValidCollation;
    var c := CatalogOf(data, roles, tables);
    var x, y := tables[i].indexes[j], tables[k].indexes[l];
    assert TableSound(data, roles, tables[i], deltas[i], contents[i], collation)
        && TableSound(data, roles, tables[k], deltas[k], contents[k], collation);
    assert IndexSound(data, roles, tables[i], x, contents[i], collation)
        && IndexSound(data, roles, tables[k], y, contents[k], collation);
    assert Owns(data, c, x.role, p);
    if p in TreePages(data, tables[k], y) {
      assert Owns(data, c, y.role, p);
    }
  }

  /** The pages of an accepted tree. */
  function TreePages(data: seq<byte>, t: Table, x: PhysicalIndex): (r: set<nat>) {
    if !KeysInside(t.columns, x.keys) then {}
    else
      var read := ReadTree(TreeFile(data, t, x), x.root);
      if read.Rejected? then {} else set i | 0 <= i < |read.value.0| :: read.value.0[i].page
  }

  /** Searching an accepted index by its separators finds exactly the entries of the table's rows. */
  lemma SearchFindsRows(data: seq<byte>, roles: seq<Role>, t: Table, delta: int, records: seq<TableRows.Record>,
                        collation: Collation, j: nat, entry: seq<byte>)
    requires TableNamed(roles, t) && ValidCollation(collation) && j < |t.indexes|
    requires TableSound(data, roles, t, delta, records, collation)
    ensures KeysInside(t.columns, t.indexes[j].keys) && Complete(t.columns, records)
    ensures var x := t.indexes[j];
            var tree := Visit(TreeFile(data, t, x), x.root, 1, {}).value.0;
            entry in Descend(tree, entry).node.entries <==>
            exists i :: 0 <= i < |records| && RowEntries(t.columns, x, records[i], collation) == Accepted([entry])
  {
    hide Visit, SortBy, MapPages, OwnedIndexPage, Sound, LeafEntries, Descend, RowEntries, Preorder, RowsRead,
         CountAdmitted, ValidCollation, Expected;
    var x := t.indexes[j];
    assert IndexSound(data, roles, t, x, records, collation);
    var index, entries := TreeFile(data, t, x), Expected(t.columns, x, records, collation).value;
    FinalChecksRedundant(index, x.root);
    VisitSound(index, x.root, 1, {});
    var tree := Visit(index, x.root, 1, {}).value.0;
    SearchCorrect(tree, index.fields, entry);
    LeafChainSpellsTraversal(index, x.root);
    SortSorts(entries, Self);
    assert entry in LeafEntries(tree) <==> entry in multiset(SortBy(entries, Self));
    assert entry in multiset(entries) <==> entry in entries;
    ExpectedExactly(t.columns, x, records, collation, entry);
  }
}
