/**
 * A data page appended to an observed file (oracle/windows-dao/registry/indexed_boundary.py, against `observe`
 * in oracle/windows-dao/structure.py).
 *
 * The append leaves the maps, the reserve, all other tables and every index tree as they were, and adds one row
 * to its table. So the appended file alone passes the observation exactly when the new row decodes, no index of
 * its table lists it, and the declared count is allowed to be one short.
 */
module Appends {
  import opened Bytes
  import opened DataPages
  import opened KeyEncoding
  import opened AllocationMaps
  import opened Classification
  import opened IndexNodes
  import opened IndexTrees
  import opened IndexKeys
  import opened Sorting
  import opened Observation
  import opened RowFrames
  import Definitions
  import TableRows

  // ----- Map rows and pages -----

  lemma FlipKeepsRow(data: seq<byte>, spot: Locator, page: nat, on: bool, w: Locator)
    requires FlipAdmitted(data, spot, page, on)
    ensures var after := Flipped(data, spot, page, on);
            && |after| == |data|
            && (w != spot ==> LocatorRow(after, w) == LocatorRow(data, w))
            && (LocatorRow(after, w).Accepted? <==> LocatorRow(data, w).Accepted?)
  {
    hide PageOf, LocatorRow, RowEdited, Bit;
    var raw := LocatorRow(data, spot).value;
    var k := 5 + Relative(data, spot, page) / 8;
    RowEditEffect(data, spot, k, PutByteBit(raw[k], Relative(data, spot, page) % 8, on));
  }

  lemma FlipKeepsPage(data: seq<byte>, spot: Locator, page: nat, on: bool, q: nat)
    requires FlipAdmitted(data, spot, page, on)
    requires q != spot.page || (PageOf(data, q).Accepted? && PageOf(data, q).value[0] != 1)
    ensures PageOf(Flipped(data, spot, page, on), q) == PageOf(data, q)
  {
    hide PageOf, Bit, Floor, RowAt;
    assert q != spot.page;
    var raw := LocatorRow(data, spot).value;
    var k := 5 + Relative(data, spot, page) / 8;
    RowByteAt(data, spot, k);
    var image := PageOf(data, spot.page).value;
    RowByteEdit(image, spot.row, k, 0);
    var b := PutByteBit(raw[k], Relative(data, spot, page) % 8, on);
    PageEdited(data, spot.page, Floor(image, spot.row + 1) + k, b, q);
  }

  lemma SameLengthSamePages(data: seq<byte>, after: seq<byte>)
    requires |after| == |data|
    ensures forall q: nat :: PageOf(after, q).Accepted? <==> PageOf(data, q).Accepted?
  {
  }

  /** The append changes no row but those of its three maps. */
  lemma AppendKeepsRow(before: seq<byte>, owned: Locator, available: Locator, encoded: seq<byte>, root: nat, w: Locator)
    requires AppendAdmitted(before, owned, available) && DistinctSpots(owned, available)
    requires |encoded| <= 2036 && root < 0x1_0000_0000 && PageOf(before, w.page).Accepted?
    ensures var after := Appended(before, owned, available, encoded, root);
            && (w !in {GLOBAL, owned, available} ==> LocatorRow(after, w) == LocatorRow(before, w))
            && (LocatorRow(after, w).Accepted? <==> LocatorRow(before, w).Accepted?)
  {
    hide PageOf, RowOf, Flipped, FlipAdmitted, NewPage, Appended;
    var page := PageCount(before);
    AppendedIsFlips(before, owned, available, encoded, root);
    var first := Flipped(before, GLOBAL, page, false);
    var second := Flipped(first, owned, page, true);
    var third := Flipped(second, available, page, true);
    FlipKeepsRow(before, GLOBAL, page, false, w);
    FlipKeepsRow(first, owned, page, true, w);
    FlipKeepsRow(second, available, page, true, w);
    SameLengthSamePages(before, third);
    PagesAppended(third, NewPage(encoded, root), w.page);
  }

  /** The append changes no page but those that hold its three maps. */
  lemma AppendKeepsPage(before: seq<byte>, owned: Locator, available: Locator, encoded: seq<byte>, root: nat, q: nat)
    requires AppendAdmitted(before, owned, available) && DistinctSpots(owned, available)
    requires |encoded| <= 2036 && root < 0x1_0000_0000 && PageOf(before, q).Accepted?
    requires q !in {1, owned.page, available.page} || PageOf(before, q).value[0] != 1
    ensures PageOf(Appended(before, owned, available, encoded, root), q) == PageOf(before, q)
  {
    hide PageOf, Flipped, FlipAdmitted, NewPage, Appended;
    var page := PageCount(before);
    AppendedIsFlips(before, owned, available, encoded, root);
    var first := Flipped(before, GLOBAL, page, false);
    var second := Flipped(first, owned, page, true);
    var third := Flipped(second, available, page, true);
    FlipKeepsPage(before, GLOBAL, page, false, q);
    FlipKeepsPage(first, owned, page, true, q);
    FlipKeepsPage(second, available, page, true, q);
    PagesAppended(third, NewPage(encoded, root), q);
  }

  lemma CatalogDistinct(data: seq<byte>, c: Catalog, k: nat)
    requires ValidAllocation(data, c) && k < |c.roles| && c.roles[k].available.Accepted?
    ensures DistinctSpots(c.roles[k].owned, c.roles[k].available.value)
  {
    hide MapsAccepted, Partitioned, ReferencesDistinct;
  }

  lemma OwnMap(c: Catalog, j: nat, k: nat)
    requires LocatorsDistinct(c) && j < |c.roles| && k < |c.roles| && j != k
    ensures c.roles[j].owned != c.roles[k].owned && c.roles[k].available != Accepted(c.roles[j].owned)
  {
  }

  lemma AppendKeepsReserve(before: seq<byte>, c: Catalog, k: nat, encoded: seq<byte>, root: nat)
    requires ValidAllocation(before, c) && ReserveSound(before, Spots(c)) && k < |c.roles|
    requires c.roles[k].available.Accepted?
    requires AppendAdmitted(before, c.roles[k].owned, c.roles[k].available.value)
    requires |encoded| <= 2036 && root < 0x1_0000_0000
    ensures ReserveSound(Appended(before, c.roles[k].owned, c.roles[k].available.value, encoded, root), Spots(c))
  {
    hide PageOf, RowOf, Appended, AppendAdmitted, MapsAccepted, Partitioned, ReferencesDistinct, ValidAllocation, Spots;
    var owned, available, spots := c.roles[k].owned, c.roles[k].available.value, Spots(c);
    var after := Appended(before, owned, available, encoded, root);
    SpotsReadable(before, c);
    CatalogDistinct(before, c, k);
    SpotsExact(c, GLOBAL);
    SpotsExact(c, owned);
    SpotsExact(c, available);
    forall w: Locator | OnMapPage(spots, w)
      ensures LocatorRow(after, w).Accepted? <==> LocatorRow(before, w).Accepted?
      ensures w !in spots ==> LocatorRow(after, w) == LocatorRow(before, w)
    {
      var i :| 0 <= i < |spots| && spots[i].page == w.page;
      assert LocatorRow(before, spots[i]).Accepted?;
      AppendKeepsRow(before, owned, available, encoded, root, w);
    }
  }

  // ----- Index trees on untouched pages -----

  /** An accepted visit reads only the pages of its tree. */
  lemma {:induction false} VisitKept(index: Index, after: seq<byte>, number: nat, depth: nat, seen: set<nat>)
    requires Visit(index, number, depth, seen).Accepted?
    requires forall p :: p in Pages(Visit(index, number, depth, seen).value.0) ==>
               PageOf(after, p) == PageOf(index.data, p)
    ensures Visit(index.(data := after), number, depth, seen) == Visit(index, number, depth, seen)
    decreases if depth > 32 then 0 else 33 - depth, 0
  {
    hide DecodeNode, PageOf, ChildrenAccepted, VisitAll;
    var node := DecodeNode(PageOf(index.data, number).value, depth, index.owner, index.fields).value;
    var t := Visit(index, number, depth, seen).value.0;
    assert Pages(t)[0] == number;
    if node.branch {
      assert forall p :: p in PagesAll(t.children) ==> p in Pages(t);
      VisitAllKept(index, after, ChildPages(node), depth + 1, seen + {number});
    }
  }

  lemma {:induction false} VisitAllKept(index: Index, after: seq<byte>, numbers: seq<nat>, depth: nat, seen: set<nat>)
    requires VisitAll(index, numbers, depth, seen).Accepted?
    requires forall p :: p in PagesAll(VisitAll(index, numbers, depth, seen).value.0) ==>
               PageOf(after, p) == PageOf(index.data, p)
    ensures VisitAll(index.(data := after), numbers, depth, seen) == VisitAll(index, numbers, depth, seen)
    decreases if depth > 32 then 0 else 33 - depth, 1 + |numbers|
  {
    hide Visit, PageOf, Pages;
    if numbers != [] {
      var n := |numbers| - 1;
      var earlier := VisitAll(index, numbers[..n], depth, seen).value;
      var last := Visit(index, numbers[n], depth, earlier.1).value;
      assert (earlier.0 + [last.0])[..n] == earlier.0;
      VisitAllKept(index, after, numbers[..n], depth, seen);
      VisitKept(index, after, numbers[n], depth, earlier.1);
    }
  }

  lemma {:induction false} PagesListed(t: Tree, depth: nat, p: nat)
    requires p in Pages(t)
    ensures exists i :: 0 <= i < |Preorder(t, depth)| && Preorder(t, depth)[i].page == p
    decreases t, 1
  {
    if p == t.page {
      assert Preorder(t, depth)[0].page == p;
    } else {
      PagesAllListed(t.children, depth + 1, p);
      var i :| 0 <= i < |PreorderAll(t.children, depth + 1)| && PreorderAll(t.children, depth + 1)[i].page == p;
      assert Preorder(t, depth)[i + 1].page == p;
    }
  }

  lemma {:induction false} PagesAllListed(ts: seq<Tree>, depth: nat, p: nat)
    requires p in PagesAll(ts)
    ensures exists i :: 0 <= i < |PreorderAll(ts, depth)| && PreorderAll(ts, depth)[i].page == p
    decreases ts, 0
  {
    var n := |ts| - 1;
    var all, head := PreorderAll(ts, depth), PreorderAll(ts[..n], depth);
    if p in PagesAll(ts[..n]) {
      PagesAllListed(ts[..n], depth, p);
      var i :| 0 <= i < |head| && head[i].page == p;
      assert all[i].page == p;
    } else {
      PagesListed(ts[n], depth, p);
      var i :| 0 <= i < |Preorder(ts[n], depth)| && Preorder(ts[n], depth)[i].page == p;
      assert all[|head| + i].page == p;
    }
  }

  /** A tree whose map and pages are untouched is read as before. */
  lemma TreeKept(before: seq<byte>, after: seq<byte>, roles: seq<Role>, t: Table, x: PhysicalIndex)
    requires TreePlaced(before, roles, t, x)
    requires MapPages(after, roles[x.role].owned) == MapPages(before, roles[x.role].owned)
    requires SamePages(before, after, MapPages(before, roles[x.role].owned))
    ensures TreePlaced(after, roles, t, x)
    ensures ReadTree(TreeFile(after, t, x), x.root) == ReadTree(TreeFile(before, t, x), x.root)
  {
    hide PageOf, MapPages, Visit, Preorder, LeafEntries, AllSiblingsAccepted, OneLeafDepth, Sorted, Fields, Pages;
    var index, members := TreeFile(before, t, x), MapPages(before, roles[x.role].owned);
    var tree := Visit(index, x.root, 1, {}).value.0;
    forall p | p in Pages(tree) ensures PageOf(after, p) == PageOf(before, p) {
      PagesListed(tree, 1, p);
      assert p in members;
    }
    VisitKept(index, after, x.root, 1, {});
    assert index.(data := after) == TreeFile(after, t, x);
  }

  lemma IndexKept(before: seq<byte>, after: seq<byte>, roles: seq<Role>, t: Table, x: PhysicalIndex,
                  records: seq<TableRows.Record>, collation: Collation)
    requires ValidCollation(collation) && IndexSound(before, roles, t, x, records, collation)
    requires MapPages(after, roles[x.role].owned) == MapPages(before, roles[x.role].owned)
    requires SamePages(before, after, MapPages(before, roles[x.role].owned))
    ensures IndexSound(after, roles, t, x, records, collation)
  {
    hide MapPages, TreePlaced, ReadTree, SortBy, Expected, ValidCollation, SamePages;
    assert TreePlaced(before, roles, t, x);
    PlacedRole(before, roles, t, x);
    TreeKept(before, after, roles, t, x);
  }

  lemma PlacedRole(data: seq<byte>, roles: seq<Role>, t: Table, x: PhysicalIndex)
    requires TreePlaced(data, roles, t, x)
    ensures x.role < |roles| && KeysInside(t.columns, x.keys) && ReadTree(TreeFile(data, t, x), x.root).Accepted?
  {
  }

  // ----- Definition chains -----

  /** Every definition page keeps its prefix, its link and its length word. */
  ghost predicate LinksKept(before: seq<byte>, after: seq<byte>) {
    forall q: nat :: Definitions.IsDefinitionPage(before, q) ==>
      PageOf(after, q).Accepted? && PageOf(after, q).value[..12] == PageOf(before, q).value[..12]
  }

  lemma LinkKept(before: seq<byte>, after: seq<byte>, q: nat)
    requires LinksKept(before, after) && Definitions.IsDefinitionPage(before, q)
    ensures Definitions.IsDefinitionPage(after, q) && Definitions.NextPage(after, q) == Definitions.NextPage(before, q)
    ensures PageOf(after, q).Accepted? && U32(PageOf(after, q).value, 8) == U32(PageOf(before, q).value, 8)
  {
    var a, b := PageOf(after, q).value, PageOf(before, q).value;
    assert a[..4] == a[..12][..4] && b[..4] == b[..12][..4];
    assert forall k :: 0 <= k < 12 ==> a[k] == a[..12][k] && b[k] == b[..12][k];
  }

  lemma {:induction false} ChainFollowed(before: seq<byte>, after: seq<byte>, current: nat, pages: seq<nat>)
    requires LinksKept(before, after) && Definitions.Follow(before, current, pages).Accepted?
    ensures Definitions.Follow(after, current, pages) == Definitions.Follow(before, current, pages)
    decreases Definitions.Unvisited(before, pages)
  {
    hide Definitions.IsDefinitionPage, Definitions.NextPage, LinksKept;
    if current != 0 {
      LinkKept(before, after, current);
      Definitions.InUnvisited(before, current, pages);
      ChainFollowed(before, after, Definitions.NextPage(before, current), pages + [current]);
    }
  }

  lemma {:induction false} BodyStarts(data: seq<byte>, pages: seq<nat>)
    requires pages != [] && forall i :: 0 <= i < |pages| ==> PageOf(data, pages[i]).Accepted?
    ensures |Definitions.BodyOf(data, pages)| >= PAGE
    ensures Definitions.BodyOf(data, pages)[..PAGE] == PageOf(data, pages[0]).value
  {
    hide PageOf;
    if |pages| > 1 {
      BodyStarts(data, pages[..|pages| - 1]);
    } else {
      assert pages[..0] == [] && Definitions.BodyOf(data, []) == [];
    }
  }

  /** The declared count is the word at byte 12 of the root page. */
  lemma CountOnRoot(data: seq<byte>, root: nat)
    requires Definitions.Follow(data, root, []).Accepted? && root != 0
    ensures PageOf(data, root).Accepted?
    ensures DeclaredCount(data, root).Accepted? ==> DeclaredCount(data, root).value == U32(PageOf(data, root).value, 12)
    ensures var pages := Definitions.Follow(data, root, []).value;
            && (forall i :: 0 <= i < |pages| ==> PageOf(data, pages[i]).Accepted?)
            && |Definitions.BodyOf(data, pages)| == PAGE + (|pages| - 1) * (PAGE - 8)
            && U32(Definitions.BodyOf(data, pages), 8) == U32(PageOf(data, root).value, 8)
  {
    hide Definitions.Follow, Definitions.BodyOf, Definitions.IsDefinitionPage;
    var pages := Definitions.Follow(data, root, []).value;
    Definitions.FollowedPages(data, root, []);
    Definitions.DefinitionPagesExist(data, pages);
    Definitions.BodyLength(data, pages);
    BodyStarts(data, pages);
    var body, image := Definitions.BodyOf(data, pages), PageOf(data, root).value;
    assert forall k :: 0 <= k < PAGE ==> body[k] == body[..PAGE][k];
  }

  lemma NoEmptyDefinition(data: seq<byte>)
    ensures Definitions.ReadDefinition(data, 0).Rejected?
  {
  }

  /** Edits that keep the links keep the chain; the count is whatever the root page now says. */
  lemma DefinitionKept(before: seq<byte>, after: seq<byte>, root: nat)
    requires LinksKept(before, after) && Definitions.ReadDefinition(before, root).Accepted?
    ensures Definitions.ReadDefinition(after, root).Accepted?
    ensures Definitions.ReadDefinition(after, root).value.pages == Definitions.ReadDefinition(before, root).value.pages
    ensures PageOf(after, root).Accepted? && DeclaredCount(after, root) == Accepted(U32(PageOf(after, root).value, 12))
    ensures Definitions.IsDefinitionPage(before, root)
    ensures DeclaredCount(before, root) == Accepted(U32(PageOf(before, root).value, 12))
  {
    hide Definitions.BodyOf, PageOf, LinksKept, Definitions.Follow;
    NoEmptyDefinition(before);
    ChainFollowed(before, after, root, []);
    Definitions.FollowedPages(before, root, []);
    CountOnRoot(before, root);
    CountOnRoot(after, root);
    LinkKept(before, after, root);
  }

  lemma {:induction false} SameDefinitions(before: seq<byte>, after: seq<byte>, tables: seq<Table>)
    requires LinksKept(before, after)
    requires forall i :: 0 <= i < |tables| ==> Definitions.ReadDefinition(before, tables[i].root).Accepted?
    ensures DefinitionPages(after, tables) == DefinitionPages(before, tables)
  {
    hide LinksKept, Definitions.ReadDefinition;
    if tables != [] {
      var n := |tables| - 1;
      SameDefinitions(before, after, tables[..n]);
      DefinitionKept(before, after, tables[n].root);
    }
  }

  // ----- Files grown by one page -----

  /**
   * The maps changed as an append to role `k` changes them, and every page is as before except `touched` pages,
   * which are no data pages, and pages that hold maps.
   */
  ghost predicate Grown(before: seq<byte>, after: seq<byte>, c: Catalog, k: nat, touched: set<nat>) {
    && ValidAllocation(before, c) && Grew(before, after, c, k)
    && (forall q :: q in touched ==> PageOf(before, q).Accepted? && PageOf(before, q).value[0] != 1)
    && (forall q: nat :: PageOf(before, q).Accepted? && q !in touched ==>
          PageOf(before, q).value[0] != 1 || !IsMetadata(before, c, q) ==> PageOf(after, q) == PageOf(before, q))
  }

  lemma AppendGrows(before: seq<byte>, c: Catalog, k: nat, encoded: seq<byte>, root: nat)
    requires ValidAllocation(before, c) && k < |c.roles| && c.roles[k].available.Accepted?
    requires AppendAdmitted(before, c.roles[k].owned, c.roles[k].available.value)
    requires |encoded| <= 2036 && root < 0x1_0000_0000
    ensures Grown(before, Appended(before, c.roles[k].owned, c.roles[k].available.value, encoded, root), c, k, {})
  {
    hide PageOf, ReadMap, Appended, AppendAdmitted, GlobalAccepted, RoleAccepted, PageCount, MapsAccepted, Partitioned,
         ReferencesDistinct, MapGrew;
    var owned, available := c.roles[k].owned, c.roles[k].available.value;
    var after := Appended(before, owned, available, encoded, root);
    PagesAfterAppend(before, owned, available, encoded, root);
    CatalogDistinct(before, c, k);
    forall w: Locator | IsLocator(c, w)
      ensures ReadMap(after, w).Accepted?
      ensures if w == GLOBAL then GlobalAccepted(ReadMap(after, w).value, PageCount(after))
              else RoleAccepted(ReadMap(after, w).value, PageCount(after))
      ensures MapGrew(before, after, w, w == owned || c.roles[k].available == Accepted(w))
    {
      CatalogMapGrew(before, c, k, encoded, root, w);
    }
    assert IsLocator(c, owned) && IsLocator(c, available);
    forall q: nat | PageOf(before, q).Accepted? && (PageOf(before, q).value[0] != 1 || !IsMetadata(before, c, q))
      ensures PageOf(after, q) == PageOf(before, q)
    {
      AppendKeepsPage(before, owned, available, encoded, root, q);
    }
  }

  lemma OwnedPageKept(before: seq<byte>, after: seq<byte>, c: Catalog, k: nat, touched: set<nat>, j: nat, q: nat)
    requires Grown(before, after, c, k, touched) && Owns(before, c, j, q) && PageOf(before, q).Accepted?
    requires PageOf(before, q).value[0] == 1 || q !in touched
    ensures PageOf(after, q) == PageOf(before, q)
  {
    hide PageOf, Grew, IsMetadata, MapsAccepted, ReferencesDistinct, LocatorsDistinct, MapPages;
  }

  lemma OtherMapKept(before: seq<byte>, after: seq<byte>, c: Catalog, k: nat, j: nat)
    requires Grew(before, after, c, k) && j < |c.roles| && j != k
    ensures MapPages(after, c.roles[j].owned) == MapPages(before, c.roles[j].owned)
    ensures ReadMap(after, c.roles[j].owned).Accepted?
    ensures RoleAccepted(ReadMap(after, c.roles[j].owned).value, PageCount(after))
  {
    hide ReadMap, GlobalAccepted, RoleAccepted, MapPages, MapReferences, PageCount;
    OwnMap(c, j, k);
    assert IsLocator(c, c.roles[j].owned);
  }

  lemma OwnMapGrew(before: seq<byte>, after: seq<byte>, c: Catalog, k: nat)
    requires Grew(before, after, c, k)
    ensures MapPages(after, c.roles[k].owned) == MapPages(before, c.roles[k].owned) + {PageCount(before)}
  {
    hide ReadMap, GlobalAccepted, RoleAccepted, MapPages, MapReferences, PageCount;
    assert IsLocator(c, c.roles[k].owned);
  }

  // ----- Long-value pages -----

  /** The map is readable in both files and owns the same pages. */
  ghost predicate SameOwner(before: seq<byte>, after: seq<byte>, w: Locator) {
    && ReadMap(before, w).Accepted? && RoleAccepted(ReadMap(before, w).value, PageCount(before))
    && ReadMap(after, w).Accepted? && RoleAccepted(ReadMap(after, w).value, PageCount(after))
    && MapPages(after, w) == MapPages(before, w)
  }

  lemma MembersInside(m: Map, pages: nat)
    requires RoleAccepted(m, pages)
    ensures m.members == Inside(m, pages)
  {
    forall p | p in m.members ensures p < pages {
      assert p >= pages ==> p in Beyond(m, pages);
    }
  }

  lemma {:induction false} LongPagesKept(before: seq<byte>, after: seq<byte>, groups: seq<(nat, Locator)>)
    requires forall i :: 0 <= i < |groups| ==> SameOwner(before, after, groups[i].1)
    ensures TableRows.LongPages(before, groups).Accepted?
    ensures TableRows.LongPages(after, groups) == TableRows.LongPages(before, groups)
    ensures forall o :: o in TableRows.LongPages(before, groups).value ==>
              exists i ::
                0 <= i < |groups| && TableRows.LongPages(before, groups).value[o] == MapPages(before, groups[i].1)
  {
    hide ReadMap, RoleAccepted, Inside;
    if groups != [] {
      var n := |groups| - 1;
      LongPagesKept(before, after, groups[..n]);
      var w := groups[n].1;
      assert SameOwner(before, after, w);
      MembersInside(ReadMap(before, w).value, PageCount(before));
      MembersInside(ReadMap(after, w).value, PageCount(after));
      var value := TableRows.LongPages(before, groups).value;
      forall o | o in value ensures exists i :: 0 <= i < |groups| && value[o] == MapPages(before, groups[i].1) {
        if o == groups[n].0 {
          assert value[o] == MapPages(before, groups[n].1);
        } else {
          var i :| 0 <= i < n && value[o] == MapPages(before, groups[..n][i].1);
          assert groups[i] == groups[..n][i];
        }
      }
    }
  }

  // ----- Rows of a table -----

  /** A listed data page is owned, exists and is tagged as data. */
  lemma {:induction false} DataPagesTagged(data: seq<byte>, root: nat, members: set<nat>, n: nat)
    requires DataPagesOf(data, root, members, n).Accepted?
    ensures forall p :: p in DataPagesOf(data, root, members, n).value ==>
              p < n && p in members && PageOf(data, p).Accepted? && PageOf(data, p).value[0] == 1
  {
    hide PageOf;
    if n > 0 {
      DataPagesTagged(data, root, members, n - 1);
    }
  }

  lemma {:induction false} DataPagesKept(before: seq<byte>, after: seq<byte>, root: nat, members: set<nat>,
                                         now: set<nat>, n: nat)
    requires DataPagesOf(before, root, members, n).Accepted? && forall p :: p < n ==> (p in members <==> p in now)
    requires forall p :: p in members && PageOf(before, p).Accepted? && PageOf(before, p).value[0] == 1 ==>
               PageOf(after, p) == PageOf(before, p)
    ensures DataPagesOf(after, root, now, n) == DataPagesOf(before, root, members, n)
  {
    hide PageOf;
    if n > 0 {
      DataPagesKept(before, after, root, members, now, n - 1);
    }
  }

  /** A new page of the table comes last. */
  lemma NewPageListed(after: seq<byte>, root: nat, members: set<nat>, n: nat, encoded: seq<byte>)
    requires |encoded| <= 2036 && root < 0x100_0000 && PageOf(after, n) == Accepted(NewPage(encoded, root))
    requires n in members
    requires DataPagesOf(after, root, members, n).Accepted?
    ensures DataPagesOf(after, root, members, n + 1) == Accepted(DataPagesOf(after, root, members, n).value + [n])
  {
    hide NewPage, PageOf;
    NewPageRows(encoded, root);
    var image := NewPage(encoded, root);
    assert image[0] == image[..2][0] == 1;
    assert image[4..8][3] == image[7];
  }

  lemma PageSkipped(data: seq<byte>, root: nat, members: set<nat>, n: nat)
    requires n !in members
    ensures DataPagesOf(data, root, members, n + 1) == DataPagesOf(data, root, members, n)
  {
  }

  lemma GrownParts(before: seq<byte>, after: seq<byte>, c: Catalog, k: nat, touched: set<nat>)
    requires Grown(before, after, c, k, touched)
    ensures Grew(before, after, c, k) && PageCount(after) == PageCount(before) + 1
  {
    hide PageOf, ValidAllocation;
  }

  /** A page owned by some role of a table is inside the file and kept if it carries data. */
  lemma MemberKept(before: seq<byte>, after: seq<byte>, c: Catalog, k: nat, touched: set<nat>, j: nat)
    requires Grown(before, after, c, k, touched) && j < |c.roles|
    ensures forall p :: p in MapPages(before, c.roles[j].owned) ==>
              PageOf(before, p).Accepted? && PageOf(before, p).value[0] == 1 ==> PageOf(after, p) == PageOf(before, p)
    ensures forall p :: p in MapPages(before, c.roles[j].owned) ==> p < PageCount(before)
  {
    hide Grown, PageOf, MapPages, PageCount;
    forall p | p in MapPages(before, c.roles[j].owned) ensures p < PageCount(before) {
      OldPagesInside(before, c.roles[j].owned, p);
    }
    forall p | p in MapPages(before, c.roles[j].owned) && PageOf(before, p).Accepted? && PageOf(before, p).value[0] == 1
      ensures PageOf(after, p) == PageOf(before, p)
    {
      OwnedPageKept(before, after, c, k, touched, j, p);
    }
  }

  /** The long-value columns of a table own the same pages, and those hold the same bytes. */
  lemma LongColumnsKept(before: seq<byte>, after: seq<byte>, c: Catalog, k: nat, touched: set<nat>, t: Table)
    requires Grown(before, after, c, k, touched) && TableNamed(c.roles, t)
    requires forall i :: 0 <= i < |t.longRoles| ==> t.longRoles[i].1 != k
    ensures var groups := LongMaps(c.roles, t);
            && TableRows.LongPages(before, groups).Accepted?
            && TableRows.LongPages(after, groups) == TableRows.LongPages(before, groups)
            && var owned := TableRows.LongPages(before, groups).value;
               forall o, p :: o in owned && p in owned[o] && TableRows.LongReadable(before, p) ==>
                 PageOf(after, p) == PageOf(before, p)
  {
    hide PageOf, MapPages, ReadMap, RoleAccepted, PageCount, TableRows.LongPages, Grew, Partitioned, ReferencesDistinct;
    var groups := LongMaps(c.roles, t);
    forall i | 0 <= i < |groups| ensures SameOwner(before, after, groups[i].1) {
      OtherMapKept(before, after, c, k, t.longRoles[i].1);
      assert IsLocator(c, groups[i].1);
      OwnMapIsRole(c, t.longRoles[i].1);
    }
    LongPagesKept(before, after, groups);
    var owned := TableRows.LongPages(before, groups).value;
    forall o, p | o in owned && p in owned[o] && TableRows.LongReadable(before, p)
      ensures PageOf(after, p) == PageOf(before, p)
    {
      var i :| 0 <= i < |groups| && owned[o] == MapPages(before, groups[i].1);
      LongPageTagged(before, p);
      MemberKept(before, after, c, k, touched, t.longRoles[i].1);
    }
  }

  lemma OwnMapIsRole(c: Catalog, j: nat)
    requires LocatorsDistinct(c) && j < |c.roles|
    ensures c.roles[j].owned != GLOBAL
  {
  }

  lemma LongPageTagged(data: seq<byte>, p: nat)
    requires TableRows.LongReadable(data, p)
    ensures PageOf(data, p).Accepted? && PageOf(data, p).value[0] == 1
  {
    var image := PageOf(data, p).value;
    assert image[0] == image[..2][0];
  }

  /** The pages read for a table are untouched. */
  lemma TableUntouched(before: seq<byte>, after: seq<byte>, c: Catalog, k: nat, touched: set<nat>, t: Table,
                       records: seq<TableRows.Record>)
    requires Grown(before, after, c, k, touched) && TableNamed(c.roles, t) && RowsRead(before, c.roles, t, records)
    requires forall i :: 0 <= i < |t.longRoles| ==> t.longRoles[i].1 != k
    ensures var pages := DataPagesOf(before, t.root, MapPages(before, c.roles[t.role].owned), PageCount(before)).value;
            var owned := TableRows.LongPages(before, LongMaps(c.roles, t)).value;
            SameTable(before, after, Stored(c.roles, t, pages), owned)
  {
    hide PageOf, MapPages, PageCount, TableRows.LongPages, Grown, DataPagesOf, TableRows.LongReadable,
         TableRows.RecordsOf, TableRows.LiveSlots, TableRows.DistinctStorages, TableRows.FedOnce, TableRows.Storages;
    var members := MapPages(before, c.roles[t.role].owned);
    var pages := DataPagesOf(before, t.root, members, PageCount(before)).value;
    var owned := TableRows.LongPages(before, LongMaps(c.roles, t)).value;
    DataPagesTagged(before, t.root, members, PageCount(before));
    MemberKept(before, after, c, k, touched, t.role);
    LongColumnsKept(before, after, c, k, touched, t);
    forall o | o in owned ensures SamePages(before, after, owned[o]) {
      assert TableRows.ColumnComplete(before, Stored(c.roles, t, pages), owned, records, o);
    }
  }

  /** Another table of a grown file has the rows it had. */
  lemma RowsKept(before: seq<byte>, after: seq<byte>, c: Catalog, k: nat, touched: set<nat>, t: Table,
                 records: seq<TableRows.Record>)
    requires Grown(before, after, c, k, touched) && TableNamed(c.roles, t) && RowsRead(before, c.roles, t, records)
    requires t.role != k && forall i :: 0 <= i < |t.longRoles| ==> t.longRoles[i].1 != k
    ensures RowsRead(after, c.roles, t, records)
  {
    hide PageOf, MapPages, TableRows.LongPages, TableRows.Decoded, Grown, Grew, SameTable, DataPagesOf, PageCount;
    GrownParts(before, after, c, k, touched);
    var members, n := MapPages(before, c.roles[t.role].owned), PageCount(before);
    var pages := DataPagesOf(before, t.root, members, n).value;
    var owned := TableRows.LongPages(before, LongMaps(c.roles, t)).value;
    TableUntouched(before, after, c, k, touched, t, records);
    LongColumnsKept(before, after, c, k, touched, t);
    OtherMapKept(before, after, c, k, t.role);
    MemberKept(before, after, c, k, touched, t.role);
    DataPagesKept(before, after, t.root, members, members, n);
    PageSkipped(after, t.root, members, n);
    DecodedKept(before, after, Stored(c.roles, t, pages), owned, records);
  }

  /** The record that a row stored alone on the next page of the file has in the table. */
  function AppendedRecord(data: seq<byte>, roles: seq<Role>, t: Table, encoded: seq<byte>)
    : (r: Result<TableRows.Record>)
    requires TableNamed(roles, t)
    ensures r.Accepted? ==> |r.value.values| == |t.columns| && r.value.origin == Locator(PageCount(data), 0)
  {
    var owned :- TableRows.LongPages(data, LongMaps(roles, t));
    NewRecord(data, Stored(roles, t, []), owned, PageCount(data), encoded)
  }

  lemma NewRecordAnyPages(data: seq<byte>, t: TableRows.Table, owned: TableRows.Owned, page: nat, encoded: seq<byte>)
    ensures NewRecord(data, t.(pages := []), owned, page, encoded) == NewRecord(data, t, owned, page, encoded)
  {
    SameFields(t, t.(pages := []), encoded);
  }

  /** The table that gained the page has its old rows and then the new one, or no decoding at all. */
  lemma RowsGrow(before: seq<byte>, after: seq<byte>, c: Catalog, touched: set<nat>, t: Table,
                 records: seq<TableRows.Record>, encoded: seq<byte>, grown: seq<TableRows.Record>)
    requires TableNamed(c.roles, t) && Grown(before, after, c, t.role, touched) && RowsRead(before, c.roles, t, records)
    requires forall i :: 0 <= i < |t.longRoles| ==> t.longRoles[i].1 != t.role
    requires |encoded| <= 2036 && t.root < 0x100_0000
    requires PageOf(after, PageCount(before)) == Accepted(NewPage(encoded, t.root))
    ensures var rec := AppendedRecord(before, c.roles, t, encoded);
            RowsRead(after, c.roles, t, grown)
            <==> rec.Accepted? && SelfContained(rec.value) && grown == records + [rec.value]
  {
    hide PageOf, MapPages, TableRows.LongPages, TableRows.Decoded, Grown, Grew, SameTable, DataPagesOf, PageCount,
         NewRecord, NewPage, SelfContained;
    GrownParts(before, after, c, t.role, touched);
    var roles, n := c.roles, PageCount(before);
    var members := MapPages(before, roles[t.role].owned);
    var pages := DataPagesOf(before, t.root, members, n).value;
    var owned := TableRows.LongPages(before, LongMaps(roles, t)).value;
    TableUntouched(before, after, c, t.role, touched, t, records);
    LongColumnsKept(before, after, c, t.role, touched, t);
    OwnMapGrew(before, after, c, t.role);
    MemberKept(before, after, c, t.role, touched, t.role);
    DataPagesKept(before, after, t.root, members, members + {n}, n);
    NewPageListed(after, t.root, members + {n}, n, encoded);
    DataPagesTagged(before, t.root, members, n);
    var stored := Stored(roles, t, pages);
    assert stored.(pages := stored.pages + [n]) == Stored(roles, t, pages + [n])
        && stored.(pages := []) == Stored(roles, t, []);
    DecodedGrows(before, after, stored, owned, records, n, encoded, t.root, grown);
    NewRecordAnyPages(before, stored, owned, n, encoded);
  }

  // ----- Tables of a grown file -----

  lemma IndexUntouched(before: seq<byte>, after: seq<byte>, c: Catalog, k: nat, touched: set<nat>, t: Table,
                       x: PhysicalIndex)
    requires Grown(before, after, c, k, touched) && TreePlaced(before, c.roles, t, x) && x.role != k
    requires forall p :: p in MapPages(before, c.roles[x.role].owned) ==> p !in touched
    ensures MapPages(after, c.roles[x.role].owned) == MapPages(before, c.roles[x.role].owned)
    ensures SamePages(before, after, MapPages(before, c.roles[x.role].owned))
  {
    hide PageOf, MapPages, ReadTree, Grown, Grew, Fields;
    GrownParts(before, after, c, k, touched);
    OtherMapKept(before, after, c, k, x.role);
    forall p | p in MapPages(before, c.roles[x.role].owned) ensures PageOf(after, p) == PageOf(before, p) {
      assert OwnedIndexPage(before, t.root, p);
      OwnedPageKept(before, after, c, k, touched, x.role, p);
    }
  }

  lemma RootKept(before: seq<byte>, after: seq<byte>, c: Catalog, k: nat, touched: set<nat>, root: nat)
    requires Grown(before, after, c, k, touched) && Definitions.IsDefinitionPage(before, root) && root !in touched
    ensures PageOf(after, root) == PageOf(before, root)
  {
    hide PageOf, ValidAllocation, Grew;
    var image := PageOf(before, root).value;
    assert image[0] == image[..4][0] == 2;
  }

  /** A table other than the one that gained a page is sound with the same rows and with no others. */
  lemma OtherTableKept(before: seq<byte>, after: seq<byte>, c: Catalog, k: nat, touched: set<nat>, t: Table, delta: int,
                       records: seq<TableRows.Record>, others: seq<TableRows.Record>, collation: Collation)
    requires Grown(before, after, c, k, touched) && LinksKept(before, after) && TableNamed(c.roles, t)
    requires ValidCollation(collation)
    requires t.role != k && t.root !in touched && forall i :: 0 <= i < |t.longRoles| ==> t.longRoles[i].1 != k
    requires forall j :: 0 <= j < |t.indexes| ==> t.indexes[j].role != k
    requires forall j, p :: 0 <= j < |t.indexes| && p in MapPages(before, c.roles[t.indexes[j].role].owned) ==>
               p !in touched
    requires TableSound(before, c.roles, t, delta, records, collation)
    ensures TableSound(after, c.roles, t, delta, others, collation) <==> others == records
  {
    hide Grown, LinksKept, ValidCollation, RowsRead, IndexSound, MapPages, Definitions.ReadDefinition, SamePages;
    RowsKept(before, after, c, k, touched, t, records);
    CountIsRead(before, t.root);
    DefinitionKept(before, after, t.root);
    RootKept(before, after, c, k, touched, t.root);
    forall j | 0 <= j < |t.indexes| ensures IndexSound(after, c.roles, t, t.indexes[j], records, collation) {
      SoundIsPlaced(before, c.roles, t, t.indexes[j], records, collation);
      IndexUntouched(before, after, c, k, touched, t, t.indexes[j]);
      IndexKept(before, after, c.roles, t, t.indexes[j], records, collation);
    }
    if TableSound(after, c.roles, t, delta, others, collation) {
      RowsUnique(after, c.roles, t, others, records);
    }
  }

  lemma CountIsRead(data: seq<byte>, root: nat)
    requires DeclaredCount(data, root).Accepted?
    ensures Definitions.ReadDefinition(data, root).Accepted?
  {
  }

  lemma SoundIsPlaced(data: seq<byte>, roles: seq<Role>, t: Table, x: PhysicalIndex, records: seq<TableRows.Record>,
                      collation: Collation)
    requires ValidCollation(collation) && IndexSound(data, roles, t, x, records, collation)
    ensures TreePlaced(data, roles, t, x) && x.role < |roles| && KeysInside(t.columns, x.keys)
    ensures Complete(t.columns, records)
    ensures ReadTree(TreeFile(data, t, x), x.root).Accepted? && Expected(t.columns, x, records, collation).Accepted?
    ensures ReadTree(TreeFile(data, t, x), x.root).value.1
            == SortBy(Expected(t.columns, x, records, collation).value, Self)
  {
    hide ReadTree, MapPages, SortBy, Expected;
  }

  /** An untouched index lists a grown table exactly when it skips the new row. */
  lemma IndexSkips(before: seq<byte>, after: seq<byte>, roles: seq<Role>, t: Table, x: PhysicalIndex,
                   records: seq<TableRows.Record>, rec: TableRows.Record, collation: Collation)
    requires ValidCollation(collation) && IndexSound(before, roles, t, x, records, collation)
    requires |rec.values| == |t.columns|
    requires MapPages(after, roles[x.role].owned) == MapPages(before, roles[x.role].owned)
    requires SamePages(before, after, MapPages(before, roles[x.role].owned))
    ensures KeysInside(t.columns, x.keys)
    ensures IndexSound(after, roles, t, x, records + [rec], collation) <==> Skips(x, rec)
  {
    hide MapPages, TreePlaced, ReadTree, SortBy, Expected, ValidCollation, SamePages, Key;
    SoundIsPlaced(before, roles, t, x, records, collation);
    TreeKept(before, after, roles, t, x);
    var earlier, last := Expected(t.columns, x, records, collation).value, RowEntries(t.columns, x, rec, collation);
    ExpectedSnoc(t.columns, x, records, rec, collation);
    SortSorts(earlier, Self);
    if last.Accepted? {
      SortSorts(earlier + last.value, Self);
      if Skips(x, rec) {
        assert earlier + last.value == earlier;
      }
    }
  }

  lemma NoIndexRole(roles: seq<Role>, t: Table, k: nat)
    requires TableNamed(roles, t) && k < |roles| && roles[k].available.Accepted?
    ensures forall j :: 0 <= j < |t.indexes| ==> t.indexes[j].role != k
  {
  }

  /** Every index of the table skips the row. */
  ghost predicate Unlisted(t: Table, rec: TableRows.Record) {
    && |rec.values| == |t.columns|
    && forall j :: 0 <= j < |t.indexes| ==> KeysInside(t.columns, t.indexes[j].keys) && Skips(t.indexes[j], rec)
  }

  /** The table that gained the page: sound exactly when its new row decodes, is counted short and is skipped. */
  lemma GrownTable(before: seq<byte>, after: seq<byte>, c: Catalog, t: Table, delta: int,
                   records: seq<TableRows.Record>, encoded: seq<byte>, now: int, grown: seq<TableRows.Record>,
                   collation: Collation)
    requires TableNamed(c.roles, t) && ValidCollation(collation) && Grown(before, after, c, t.role, {})
    requires LinksKept(before, after)
    requires forall i :: 0 <= i < |t.longRoles| ==> t.longRoles[i].1 != t.role
    requires |encoded| <= 2036 && t.root < 0x100_0000
    requires PageOf(after, PageCount(before)) == Accepted(NewPage(encoded, t.root))
    requires TableSound(before, c.roles, t, delta, records, collation)
    ensures var rec := AppendedRecord(before, c.roles, t, encoded);
            TableSound(after, c.roles, t, now, grown, collation)
            <==> && rec.Accepted? && SelfContained(rec.value) && Unlisted(t, rec.value)
                 && grown == records + [rec.value] && now == delta - 1
  {
    hide Grown, LinksKept, ValidCollation, RowsRead, IndexSound, MapPages, Definitions.ReadDefinition, SamePages,
         NewPage, PageOf, PageCount, SelfContained, Skips;
    var rec := AppendedRecord(before, c.roles, t, encoded);
    RowsGrow(before, after, c, {}, t, records, encoded, grown);
    CountIsRead(before, t.root);
    DefinitionKept(before, after, t.root);
    RootKept(before, after, c, t.role, {}, t.root);
    NoIndexRole(c.roles, t, t.role);
    forall j | 0 <= j < |t.indexes|
      ensures KeysInside(t.columns, t.indexes[j].keys)
      ensures rec.Accepted? ==>
                (IndexSound(after, c.roles, t, t.indexes[j], records + [rec.value], collation)
                 <==> Skips(t.indexes[j], rec.value))
    {
      SoundIsPlaced(before, c.roles, t, t.indexes[j], records, collation);
      IndexUntouched(before, after, c, t.role, {}, t, t.indexes[j]);
      if rec.Accepted? {
        IndexSkips(before, after, c.roles, t, t.indexes[j], records, rec.value, collation);
      }
    }
  }

  // ----- The append alone -----

  lemma LinksUntouched(before: seq<byte>, after: seq<byte>, c: Catalog, k: nat)
    requires Grown(before, after, c, k, {})
    ensures LinksKept(before, after)
  {
    hide Grown, PageOf;
    forall q: nat | Definitions.IsDefinitionPage(before, q) ensures PageOf(after, q) == PageOf(before, q) {
      RootKept(before, after, c, k, {}, q);
    }
  }

  lemma DefinitionsRead(data: seq<byte>, roles: seq<Role>, tables: seq<Table>, deltas: seq<int>,
                        contents: seq<seq<TableRows.Record>>, collation: Collation)
    requires Named(roles, tables) && |deltas| == |tables| && ValidCollation(collation)
    requires Observed(data, roles, tables, deltas, contents, collation)
    ensures forall i :: 0 <= i < |tables| ==> Definitions.ReadDefinition(data, tables[i].root).Accepted?
  {
    hide ValidCollation, RowsRead, IndexSound, Definitions.ReadDefinition, DeclaredCount, ValidAllocation, ReserveSound;
    forall i | 0 <= i < |tables| ensures Definitions.ReadDefinition(data, tables[i].root).Accepted? {
      assert TableSound(data, roles, tables[i], deltas[i], contents[i], collation);
      CountIsRead(data, tables[i].root);
    }
  }

  /** Maps, reserve and catalog of the appended file. */
  lemma AppendedFile(before: seq<byte>, roles: seq<Role>, tables: seq<Table>, deltas: seq<int>,
                     contents: seq<seq<TableRows.Record>>, collation: Collation, i: nat, encoded: seq<byte>)
    requires Named(roles, tables) && |deltas| == |tables| && ValidCollation(collation) && i < |tables|
    requires Observed(before, roles, tables, deltas, contents, collation)
    requires AppendAdmitted(before, roles[tables[i].role].owned, roles[tables[i].role].available.value)
    requires |encoded| <= 2036 && tables[i].root < 0x1_0000_0000
    ensures var t := tables[i];
            var after := Appended(before, roles[t.role].owned, roles[t.role].available.value, encoded, t.root);
            var c := CatalogOf(before, roles, tables);
            && CatalogOf(after, roles, tables) == c && ValidAllocation(after, c) && ReserveSound(after, Spots(c))
            && Grown(before, after, c, t.role, {}) && LinksKept(before, after)
            && PageOf(after, PageCount(before)) == Accepted(NewPage(encoded, t.root))
  {
    hide ValidCollation, TableSound, ReserveSound, Spots, Appended, AppendAdmitted, DefinitionPages, NewPage,
         MapsAccepted, Partitioned, ReferencesDistinct, LocatorsDistinct, Grown, LinksKept;
    var t, c := tables[i], CatalogOf(before, roles, tables);
    var after := Appended(before, roles[t.role].owned, roles[t.role].available.value, encoded, t.root);
    AppendKeepsAllocation(before, c, t.role, encoded, t.root);
    AppendKeepsReserve(before, c, t.role, encoded, t.root);
    AppendGrows(before, c, t.role, encoded, t.root);
    LinksUntouched(before, after, c, t.role);
    DefinitionsRead(before, roles, tables, deltas, contents, collation);
    SameDefinitions(before, after, tables);
    PagesAfterAppend(before, roles[t.role].owned, roles[t.role].available.value, encoded, t.root);
  }

  /** What `Named` says about one table. */
  lemma NamedTable(roles: seq<Role>, tables: seq<Table>, i: nat)
    requires Named(roles, tables) && i < |tables|
    ensures TableNamed(roles, tables[i])
    ensures forall j, k :: 0 <= j < |tables| && 0 <= k < |tables[j].longRoles| ==>
              tables[j].longRoles[k].1 != tables[i].role
    ensures forall j :: 0 <= j < |tables| && j != i ==>
              tables[j].role != tables[i].role && tables[j].root != tables[i].root
  {
  }

  /** Tables other than the one that gained a page keep their rows and accept no others. */
  lemma OtherTablesKept(before: seq<byte>, after: seq<byte>, roles: seq<Role>, tables: seq<Table>, deltas: seq<int>,
                        contents: seq<seq<TableRows.Record>>, collation: Collation, i: nat, j: nat,
                        others: seq<TableRows.Record>)
    requires Named(roles, tables) && |deltas| == |tables| && ValidCollation(collation)
    requires i < |tables| && j < |tables| && i != j && TableNamed(roles, tables[i]) && TableNamed(roles, tables[j])
    requires Grown(before, after, CatalogOf(before, roles, tables), tables[i].role, {}) && LinksKept(before, after)
    requires Observed(before, roles, tables, deltas, contents, collation)
    ensures TableSound(after, roles, tables[j], deltas[j], others, collation) <==> others == contents[j]
  {
    hide ValidCollation, TableSound, ReserveSound, Spots, ValidAllocation, Grown, LinksKept, Named, TableNamed;
    NamedTable(roles, tables, i);
    NamedTable(roles, tables, j);
    NamedRole(roles, tables[i]);
    NoIndexRole(roles, tables[j], tables[i].role);
    OtherTableKept(before, after, CatalogOf(before, roles, tables), tables[i].role, {}, tables[j], deltas[j],
                   contents[j], others, collation);
  }

  lemma NamedRole(roles: seq<Role>, t: Table)
    requires TableNamed(roles, t)
    ensures t.role < |roles| && roles[t.role].available.Accepted?
  {
  }

  /**
   * An append without any other edit passes the observation exactly when the new row decodes without fragments, every
   * index of its table skips it, and the declared count is admitted to be one smaller against the live rows.
   */
  lemma AppendAlone(before: seq<byte>, roles: seq<Role>, tables: seq<Table>, deltas: seq<int>,
                    contents: seq<seq<TableRows.Record>>, collation: Collation, i: nat, encoded: seq<byte>, now: int,
                    grown: seq<seq<TableRows.Record>>)
    requires Named(roles, tables) && |deltas| == |tables| && ValidCollation(collation) && i < |tables|
    requires AppendAdmitted(before, roles[tables[i].role].owned, roles[tables[i].role].available.value)
    requires |encoded| <= 2036 && tables[i].root < 0x100_0000
    requires Observed(before, roles, tables, deltas, contents, collation)
    ensures var t := tables[i];
            var after := Appended(before, roles[t.role].owned, roles[t.role].available.value, encoded, t.root);
            var rec := AppendedRecord(before, roles, t, encoded);
            Observed(after, roles, tables, deltas[i := now], grown, collation)
            <==> && rec.Accepted? && SelfContained(rec.value) && Unlisted(t, rec.value)
                 && now == deltas[i] - 1 && grown == contents[i := contents[i] + [rec.value]]
  {
    hide ValidCollation, TableSound, ReserveSound, Spots, Appended, AppendAdmitted, ValidAllocation, NewPage, Grown,
         LinksKept, DefinitionPages, SelfContained, Unlisted, AppendedRecord, Named, TableNamed, PageOf, PageCount;
    var t, c := tables[i], CatalogOf(before, roles, tables);
    NamedTable(roles, tables, i);
    NamedRole(roles, t);
    var after := Appended(before, roles[t.role].owned, roles[t.role].available.value, encoded, t.root);
    AppendedFile(before, roles, tables, deltas, contents, collation, i, encoded);
    if |grown| == |tables| {
      GrownTable(before, after, c, t, deltas[i], contents[i], encoded, now, grown[i], collation);
      forall j | 0 <= j < |tables| && j != i
        ensures TableNamed(roles, tables[j])
        ensures TableSound(after, roles, tables[j], deltas[j], grown[j], collation) <==> grown[j] == contents[j]
      {
        NamedTable(roles, tables, j);
        OtherTablesKept(before, after, roles, tables, deltas, contents, collation, i, j, grown[j]);
      }
    }
  }
}
