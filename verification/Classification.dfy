/**
 * The page classification of `observe` (oracle/windows-dao/structure.py): its loops over roles and maps
 * accept exactly the allocations in which every page is free, metadata or owned by one role.
 */
module Classification {
  import opened Bytes
  import opened DataPages
  import opened AllocationMaps

  /** The maps of some roles, in the order they are read. */
  function RoleSpots(roles: seq<Role>): (r: seq<Locator>) {
    if roles == [] then []
    else
      var role := roles[|roles| - 1];
      RoleSpots(roles[..|roles| - 1]) + [role.owned] + (if role.available.Accepted? then [role.available.value] else [])
  }

  function Spots(c: Catalog): (r: seq<Locator>) {
    [GLOBAL] + RoleSpots(c.roles)
  }

  ghost predicate NamedBy(roles: seq<Role>, w: Locator) {
    exists k :: 0 <= k < |roles| && (w == roles[k].owned || roles[k].available == Accepted(w))
  }

  lemma {:induction false} RoleSpotsExact(roles: seq<Role>, w: Locator)
    ensures w in RoleSpots(roles) <==> NamedBy(roles, w)
  {
    hide NamedBy;
    if roles == [] {
      NamedByNone(w);
    } else {
      RoleSpotsExact(roles[..|roles| - 1], w);
      NamedByLast(roles, w);
    }
  }

  lemma NamedByNone(w: Locator)
    ensures !NamedBy([], w)
  {
  }

  lemma NamedByLast(roles: seq<Role>, w: Locator)
    requires roles != []
    ensures var n := |roles| - 1;
            NamedBy(roles, w) <==> NamedBy(roles[..n], w) || w == roles[n].owned || roles[n].available == Accepted(w)
  {
    var n := |roles| - 1;
    if k :| 0 <= k < n && (w == roles[k].owned || roles[k].available == Accepted(w)) {
      assert roles[..n][k] == roles[k];
    }
  }

  lemma SpotsExact(c: Catalog, w: Locator)
    ensures w in Spots(c) <==> IsLocator(c, w)
  {
    RoleSpotsExact(c.roles, w);
  }

  /** The last role names maps that no earlier role, nor the global map, nor it itself names twice. */
  ghost predicate NewNames(earlier: seq<Locator>, role: Role) {
    && role.owned !in earlier
    && (role.available.Accepted? ==> role.available.value !in earlier && role.available.value != role.owned)
  }

  lemma SnocNoRepeats(earlier: seq<Locator>, role: Role)
    ensures NoRepeats(earlier + [role.owned] + (if role.available.Accepted? then [role.available.value] else []))
            <==> NoRepeats(earlier) && NewNames(earlier, role)
  {
    var one := earlier + [role.owned];
    NoRepeatsSnoc(earlier, role.owned);
    if role.available.Accepted? {
      NoRepeatsSnoc(one, role.available.value);
    } else {
      assert one + [] == one;
    }
  }

  lemma SnocDistinct(c: Catalog, n: nat)
    requires n + 1 == |c.roles|
    ensures LocatorsDistinct(c)
            <==> LocatorsDistinct(c.(roles := c.roles[..n])) && NewNames(Spots(c.(roles := c.roles[..n])), c.roles[n])
  {
    var fewer := c.(roles := c.roles[..n]);
    var earlier, role := Spots(fewer), c.roles[n];
    assert forall k :: 0 <= k < n ==> fewer.roles[k] == c.roles[k];
    SpotsExact(fewer, role.owned);
    if role.available.Accepted? {
      SpotsExact(fewer, role.available.value);
    }
  }

  /** One list without repetitions says that every map is named once. */
  lemma {:induction false} SpotsDistinct(c: Catalog)
    ensures NoRepeats(Spots(c)) <==> LocatorsDistinct(c)
    decreases |c.roles|
  {
    hide LocatorsDistinct, NoRepeats, NewNames;
    if c.roles != [] {
      var n := |c.roles| - 1;
      var fewer := c.(roles := c.roles[..n]);
      SpotsDistinct(fewer);
      SnocDistinct(c, n);
      SnocNoRepeats(Spots(fewer), c.roles[n]);
      var role := c.roles[n];
      var last := if role.available.Accepted? then [role.available.value] else [];
      assert Spots(c) == Spots(fewer) + [role.owned] + last;
    } else {
      NoRoles(c);
    }
  }

  lemma NoRoles(c: Catalog)
    requires c.roles == []
    ensures NoRepeats(Spots(c)) && LocatorsDistinct(c)
  {
  }

  // ----- The roles -----

  /** The maps of role `k` are readable, it owns no free page and what is available is owned. */
  ghost predicate RoleSound(data: seq<byte>, c: Catalog, k: nat)
    requires k < |c.roles|
  {
    var role := c.roles[k];
    && ReadMap(data, role.owned).Accepted? && RoleAccepted(ReadMap(data, role.owned).value, PageCount(data))
    && MapPages(data, role.owned) !! MapPages(data, GLOBAL)
    && (role.available.Accepted? ==>
          && ReadMap(data, role.available.value).Accepted?
          && RoleAccepted(ReadMap(data, role.available.value).value, PageCount(data))
          && MapPages(data, role.available.value) <= MapPages(data, role.owned))
  }

  ghost predicate OwnersApart(data: seq<byte>, c: Catalog, n: nat)
    requires n <= |c.roles|
  {
    forall j, k :: 0 <= j < k < n ==> MapPages(data, c.roles[j].owned) !! MapPages(data, c.roles[k].owned)
  }

  ghost predicate ClaimedBy(data: seq<byte>, c: Catalog, n: nat, page: nat) {
    exists k: nat :: k < n && Owns(data, c, k, page)
  }

  method ClaimPages(data: seq<byte>, c: Catalog, free: set<nat>) returns (ok: bool, claimed: set<nat>)
    requires free == MapPages(data, GLOBAL)
    ensures ok <==> (forall k: nat :: k < |c.roles| ==> RoleSound(data, c, k)) && OwnersApart(data, c, |c.roles|)
    ensures ok ==> forall page: nat :: page in claimed <==> ClaimedBy(data, c, |c.roles|, page)
  {
    hide ReadMap, RoleAccepted, Inside, PageCount;
    claimed := {};
    for k := 0 to |c.roles|
      invariant forall j: nat :: j < k ==> RoleSound(data, c, j)
      invariant OwnersApart(data, c, k)
      invariant forall page: nat :: page in claimed <==> ClaimedBy(data, c, k, page)
    {
      var role := c.roles[k];
      var owned := ReadMap(data, role.owned);
      if owned.Rejected? || !RoleAccepted(owned.value, PageCount(data)) {
        assert !RoleSound(data, c, k);
        return false, claimed;
      }
      var members := Inside(owned.value, PageCount(data));
      if !(members !! free) {
        assert !RoleSound(data, c, k);
        return false, claimed;
      }
      if !(members !! claimed) {
        ghost var page :| page in members && page in claimed;
        SharedPage(data, c, k, page);
        return false, claimed;
      }
      if role.available.Accepted? {
        var available := ReadMap(data, role.available.value);
        if available.Rejected? || !RoleAccepted(available.value, PageCount(data))
           || !(Inside(available.value, PageCount(data)) <= members) {
          assert !RoleSound(data, c, k);
          return false, claimed;
        }
      }
      assert RoleSound(data, c, k);
      NewOwner(data, c, k, claimed);
      claimed := claimed + members;
    }
    ok := true;
  }

  lemma SharedPage(data: seq<byte>, c: Catalog, k: nat, page: nat)
    requires k < |c.roles| && page in MapPages(data, c.roles[k].owned) && ClaimedBy(data, c, k, page)
    ensures !OwnersApart(data, c, |c.roles|)
  {
    hide MapPages;
    var j: nat :| j < k && Owns(data, c, j, page);
    assert page in MapPages(data, c.roles[j].owned) && page in MapPages(data, c.roles[k].owned);
  }

  lemma NewOwner(data: seq<byte>, c: Catalog, k: nat, claimed: set<nat>)
    requires k < |c.roles| && OwnersApart(data, c, k) && claimed !! MapPages(data, c.roles[k].owned)
    requires forall page: nat :: page in claimed <==> ClaimedBy(data, c, k, page)
    ensures OwnersApart(data, c, k + 1)
    ensures forall page: nat :: page in claimed + MapPages(data, c.roles[k].owned) <==> ClaimedBy(data, c, k + 1, page)
  {
    hide MapPages;
    forall j | 0 <= j < k ensures MapPages(data, c.roles[j].owned) !! MapPages(data, c.roles[k].owned) {
      forall page | page in MapPages(data, c.roles[j].owned) ensures page !in MapPages(data, c.roles[k].owned) {
        assert Owns(data, c, j, page);
      }
    }
    forall page: nat ensures page in claimed + MapPages(data, c.roles[k].owned) <==> ClaimedBy(data, c, k + 1, page) {
      if page in MapPages(data, c.roles[k].owned) {
        assert Owns(data, c, k, page);
      } else if j: nat :| j < k && Owns(data, c, j, page) {
        assert ClaimedBy(data, c, k + 1, page);
      }
    }
  }

  // ----- Maps and metadata -----

  function Bitmaps(data: seq<byte>, w: Locator): (r: set<nat>) {
    set p | p in MapReferences(data, w) && p != 0
  }

  ghost predicate BitmapsApart(data: seq<byte>, spots: seq<Locator>) {
    forall i, j :: 0 <= i < j < |spots| ==> Bitmaps(data, spots[i]) !! Bitmaps(data, spots[j])
  }

  ghost predicate Holds(data: seq<byte>, spots: seq<Locator>, page: nat) {
    exists i :: 0 <= i < |spots| && (spots[i].page == page || page in Bitmaps(data, spots[i]))
  }

  /** The loop over all maps: locators and bitmap pages are unique, and all of them are metadata. */
  method CollectMetadata(data: seq<byte>, spots: seq<Locator>, start: set<nat>) returns (ok: bool, metadata: set<nat>)
    ensures ok <==> NoRepeats(spots) && BitmapsApart(data, spots)
    ensures ok ==> forall page: nat :: page in metadata <==> page in start || Holds(data, spots, page)
  {
    hide MapReferences, Bitmaps;
    var locators: set<Locator>, references: set<nat> := {}, {};
    metadata := start;
    for i := 0 to |spots|
      invariant forall w: Locator :: w in locators <==> w in spots[..i]
      invariant forall p: nat :: p in references <==> exists j :: 0 <= j < i && p in Bitmaps(data, spots[j])
      invariant NoRepeats(spots[..i])
      invariant forall j, k :: 0 <= j < k < i ==> Bitmaps(data, spots[j]) !! Bitmaps(data, spots[k])
      invariant forall page: nat :: page in metadata <==> page in start || Holds(data, spots[..i], page)
    {
      var w, bitmaps := spots[i], Bitmaps(data, spots[i]);
      if w in locators {
        var j :| 0 <= j < i && spots[..i][j] == w;
        assert spots[j] == spots[i];
        return false, metadata;
      }
      if references * bitmaps != {} {
        var p :| p in references * bitmaps;
        return false, metadata;
      }
      assert spots[..i + 1] == spots[..i] + [w];
      NoRepeatsSnoc(spots[..i], w);
      HoldsSnoc(data, spots[..i], w);
      locators, references := locators + {w}, references + bitmaps;
      metadata := metadata + {w.page} + bitmaps;
    }
    assert spots[..|spots|] == spots;
    ok := true;
  }

  lemma HoldsSnoc(data: seq<byte>, spots: seq<Locator>, w: Locator)
    ensures forall page: nat ::
              Holds(data, spots + [w], page) <==> Holds(data, spots, page) || page == w.page || page in Bitmaps(data, w)
  {
    hide Bitmaps;
    var more := spots + [w];
    assert more[|spots|] == w && forall i :: 0 <= i < |spots| ==> more[i] == spots[i];
    forall page: nat
      ensures Holds(data, more, page) <==> Holds(data, spots, page) || page == w.page || page in Bitmaps(data, w)
    {
      if i :| 0 <= i < |spots| && (spots[i].page == page || page in Bitmaps(data, spots[i])) {
        assert more[i] == spots[i];
      }
    }
  }

  lemma MetadataExact(data: seq<byte>, c: Catalog, page: nat)
    ensures IsMetadata(data, c, page) <==> page in {0, 1} + c.definitions || Holds(data, Spots(c), page)
  {
    hide MapReferences, IsLocator;
    forall w: Locator ensures w in Spots(c) <==> IsLocator(c, w) {
      SpotsExact(c, w);
    }
    var spots := Spots(c);
    if Holds(data, spots, page) {
      var i :| 0 <= i < |spots| && (spots[i].page == page || page in Bitmaps(data, spots[i]));
      assert IsLocator(c, spots[i]);
    }
    forall w: Locator | IsLocator(c, w) && (w.page == page || (page != 0 && page in MapReferences(data, w)))
      ensures Holds(data, spots, page)
    {
      var i :| 0 <= i < |spots| && spots[i] == w;
    }
  }

  lemma BitmapsExact(data: seq<byte>, c: Catalog)
    requires NoRepeats(Spots(c))
    ensures BitmapsApart(data, Spots(c)) <==> ReferencesDistinct(data, c)
  {
    hide MapReferences, IsLocator;
    var spots := Spots(c);
    forall w: Locator ensures w in spots <==> IsLocator(c, w) {
      SpotsExact(c, w);
    }
    if BitmapsApart(data, spots) {
      forall v: Locator, w: Locator, p: nat | IsLocator(c, v) && IsLocator(c, w) && v != w && p != 0
      && p in MapReferences(data, v)
        ensures p !in MapReferences(data, w)
      {
        var i :| 0 <= i < |spots| && spots[i] == v;
        var j :| 0 <= j < |spots| && spots[j] == w;
        assert p in Bitmaps(data, spots[i]) && (i < j || j < i);
      }
    }
    if ReferencesDistinct(data, c) {
      forall i, j | 0 <= i < j < |spots| ensures Bitmaps(data, spots[i]) !! Bitmaps(data, spots[j]) {
        assert IsLocator(c, spots[i]) && IsLocator(c, spots[j]);
      }
    }
  }

  // ----- The whole classification -----

  ghost predicate GlobalSound(data: seq<byte>) {
    ReadMap(data, GLOBAL).Accepted? && GlobalAccepted(ReadMap(data, GLOBAL).value, PageCount(data))
  }

  /** The global map starts at page 0, and beyond the end of the file it holds exactly what it represents. */
  lemma GlobalMapExactly(data: seq<byte>)
    ensures GlobalSound(data) <==>
            && ReadMap(data, GLOBAL).Accepted? && ReadMap(data, GLOBAL).value.start == 0
            && forall p: nat :: p >= PageCount(data) ==>
                 (p in ReadMap(data, GLOBAL).value.members <==> p < ReadMap(data, GLOBAL).value.extent)
  {
    hide ReadMap;
    if ReadMap(data, GLOBAL).Accepted? {
      var m, pages := ReadMap(data, GLOBAL).value, PageCount(data);
      assert forall p: nat :: p in Beyond(m, pages) <==> p in m.members && p >= pages;
      var high := m.start + m.extent;
      assert forall p: nat :: p in Range(pages, high) <==> InRange(pages, p, high);
      if m.start == 0 && forall p: nat :: p >= pages ==> (p in m.members <==> p < m.extent) {
        assert Beyond(m, pages) == Range(pages, m.extent);
      }
    }
  }

  /** An inline global map: first page 0, and every bit from the end of the file on is set. */
  lemma InlineGlobalByBytes(data: seq<byte>, raw: seq<byte>)
    requires LocatorRow(data, Locator(1, 0)) == Accepted(raw) && raw != [] && raw[0] == 0
    ensures GlobalSound(data) <==>
            && |raw| >= 5 && WordOf(raw, 1) == 0
            && forall k: nat :: PageCount(data) <= k < 8 * (|raw| - 5) ==> BitSet(raw[5..], k)
  {
    hide LocatorRow, GlobalSound, ReadMap, BitSet;
    GlobalMapExactly(data);
    InlineMapAccepted(data, GLOBAL, raw);
    if |raw| >= 5 {
      var m := ReadMap(data, GLOBAL).value;
      InlineMapByBytes(data, GLOBAL, 0);
      if m.start == 0 {
        forall p: nat ensures p in m.members <==> BitSet(raw[5..], p) {
          InlineMapByBytes(data, GLOBAL, p);
        }
        forall k: nat | BitSet(raw[5..], k) ensures k < m.extent {
          BitInside(raw[5..], k);
        }
      }
    }
  }

  lemma InlineMapAccepted(data: seq<byte>, spot: Locator, raw: seq<byte>)
    requires LocatorRow(data, spot) == Accepted(raw) && raw != [] && raw[0] == 0
    ensures ReadMap(data, spot).Accepted? <==> |raw| >= 5
  {
  }

  lemma BitInside(bitmap: seq<byte>, k: nat)
    requires BitSet(bitmap, k)
    ensures k < 8 * |bitmap|
  {
  }

  /** The conditions of the loops, together. */
  ghost predicate Classified(data: seq<byte>, c: Catalog) {
    && |data| % PAGE == 0 && GlobalSound(data)
    && (forall k: nat :: k < |c.roles| ==> RoleSound(data, c, k)) && OwnersApart(data, c, |c.roles|)
    && NoRepeats(Spots(c)) && BitmapsApart(data, Spots(c))
    && (forall page: nat :: IsMetadata(data, c, page) ==>
          page !in MapPages(data, GLOBAL) && !ClaimedBy(data, c, |c.roles|, page))
    && (forall page: nat :: page < PageCount(data) <==>
          page in MapPages(data, GLOBAL) || IsMetadata(data, c, page) || ClaimedBy(data, c, |c.roles|, page))
  }

  lemma MapsSound(data: seq<byte>, c: Catalog)
    requires LocatorsDistinct(c)
    ensures MapsAccepted(data, c)
            && (forall k: nat, page: nat :: Owns(data, c, k, page) ==> page !in MapPages(data, GLOBAL))
            <==> GlobalSound(data) && forall k: nat :: k < |c.roles| ==> RoleSound(data, c, k)
  {
    hide ReadMap, RoleAccepted, GlobalAccepted, MapPages, PageCount;
    if MapsAccepted(data, c)
        && (forall k: nat, page: nat :: Owns(data, c, k, page) ==> page !in MapPages(data, GLOBAL)) {
      assert IsLocator(c, GLOBAL);
      forall k: nat | k < |c.roles| ensures RoleSound(data, c, k) {
        assert IsLocator(c, c.roles[k].owned);
        if c.roles[k].available.Accepted? {
          assert IsLocator(c, c.roles[k].available.value);
        }
        forall page | page in MapPages(data, c.roles[k].owned) ensures page !in MapPages(data, GLOBAL) {
          assert Owns(data, c, k, page);
        }
      }
    }
    if GlobalSound(data) && forall k: nat :: k < |c.roles| ==> RoleSound(data, c, k) {
      forall w: Locator | IsLocator(c, w) && w != GLOBAL
        ensures ReadMap(data, w).Accepted? && RoleAccepted(ReadMap(data, w).value, PageCount(data))
      {
        var k :| 0 <= k < |c.roles| && (w == c.roles[k].owned || c.roles[k].available == Accepted(w));
        assert RoleSound(data, c, k);
      }
      forall k | 0 <= k < |c.roles| && c.roles[k].available.Accepted?
        ensures MapPages(data, c.roles[k].available.value) <= MapPages(data, c.roles[k].owned)
      {
        assert RoleSound(data, c, k);
      }
      forall k: nat, page: nat | Owns(data, c, k, page) ensures page !in MapPages(data, GLOBAL) {
        assert RoleSound(data, c, k);
      }
    }
  }

  /** One owner for every owned page, in either form. */
  lemma OwnersExact(data: seq<byte>, c: Catalog)
    ensures OwnersApart(data, c, |c.roles|)
            <==> forall page: nat, j: nat, k: nat :: Owns(data, c, j, page) && Owns(data, c, k, page) ==> j == k
  {
    hide MapPages;
    if forall page: nat, j: nat, k: nat :: Owns(data, c, j, page) && Owns(data, c, k, page) ==> j == k {
      forall j, k | 0 <= j < k < |c.roles|
        ensures MapPages(data, c.roles[j].owned) !! MapPages(data, c.roles[k].owned)
      {
        forall page | page in MapPages(data, c.roles[j].owned) ensures page !in MapPages(data, c.roles[k].owned) {
          assert Owns(data, c, j, page);
          assert page in MapPages(data, c.roles[k].owned) ==> Owns(data, c, k, page);
        }
      }
    }
  }

  lemma ClaimedIsOwned(data: seq<byte>, c: Catalog, page: nat)
    ensures ClaimedBy(data, c, |c.roles|, page) <==> exists k: nat :: Owns(data, c, k, page)
  {
    hide MapPages;
    if k: nat :| Owns(data, c, k, page) {
      assert k < |c.roles|;
    }
  }

  /** The loops of `observe` demand exactly a valid allocation. */
  lemma ClassifiedIsValid(data: seq<byte>, c: Catalog)
    ensures Classified(data, c) <==> ValidAllocation(data, c)
  {
    hide ReadMap, MapPages, PageCount, IsMetadata, LocatorsDistinct, NoRepeats, MapsAccepted, GlobalSound, RoleSound,
         OwnersApart, BitmapsApart, ReferencesDistinct, Owns, ClaimedBy;
    SpotsDistinct(c);
    if NoRepeats(Spots(c)) {
      MapsSound(data, c);
      BitmapsExact(data, c);
      OwnersExact(data, c);
      forall page: nat, k: nat ensures Owns(data, c, k, page) ==> page < PageCount(data) {
        OwnedInside(data, c, k, page);
      }
      forall page: nat
        ensures ClaimedBy(data, c, |c.roles|, page) <==> exists j: nat :: Owns(data, c, j, page)
        ensures page in MapPages(data, GLOBAL) ==> page < PageCount(data)
      {
        ClaimedIsOwned(data, c, page);
        if page in MapPages(data, GLOBAL) {
          OldPagesInside(data, GLOBAL, page);
        }
      }
      PartitionExact(data, c);
    }
  }

  /** Coverage and separation of the three kinds of page, in either form. */
  lemma PartitionExact(data: seq<byte>, c: Catalog)
    requires forall page: nat :: ClaimedBy(data, c, |c.roles|, page) <==> exists j: nat :: Owns(data, c, j, page)
    requires forall page: nat :: page in MapPages(data, GLOBAL) ==> page < PageCount(data)
    requires forall page: nat, k: nat :: Owns(data, c, k, page) ==> page < PageCount(data)
    ensures Partitioned(data, c) <==>
              && (forall page: nat, k: nat :: Owns(data, c, k, page) ==> page !in MapPages(data, GLOBAL))
              && (forall page: nat, j: nat, k: nat :: Owns(data, c, j, page) && Owns(data, c, k, page) ==> j == k)
              && (forall page: nat :: IsMetadata(data, c, page) ==>
                    page !in MapPages(data, GLOBAL) && !ClaimedBy(data, c, |c.roles|, page))
              && (forall page: nat :: page < PageCount(data) <==>
                    page in MapPages(data, GLOBAL) || IsMetadata(data, c, page) || ClaimedBy(data, c, |c.roles|, page))
  {
    hide MapPages, PageCount, IsMetadata, Owns, ClaimedBy;
    if Partitioned(data, c) {
      forall page: nat
        ensures page < PageCount(data) <==>
                  page in MapPages(data, GLOBAL) || IsMetadata(data, c, page) || ClaimedBy(data, c, |c.roles|, page)
      {
      }
    }
  }

  /** The classification part of `observe`: accepts exactly the valid allocations. */
  method Classify(data: seq<byte>, c: Catalog) returns (ok: bool)
    ensures ok <==> ValidAllocation(data, c)
  {
    hide ReadMap, GlobalAccepted, RoleAccepted, ValidAllocation, IsMetadata, RoleSound, OwnersApart, BitmapsApart,
         NoRepeats, ClaimedBy, Holds, Spots, Inside, PageCount;
    ClassifiedIsValid(data, c);
    var global := ReadMap(data, GLOBAL);
    if |data| % PAGE != 0 || global.Rejected? || !GlobalAccepted(global.value, PageCount(data)) {
      return false;
    }
    var free := Inside(global.value, PageCount(data));
    var claimed, metadata;
    ok, claimed := ClaimPages(data, c, free);
    if !ok {
      return;
    }
    ok, metadata := CollectMetadata(data, Spots(c), {0, 1} + c.definitions);
    if !ok {
      return;
    }
    forall page: nat ensures page in metadata <==> IsMetadata(data, c, page) {
      MetadataExact(data, c, page);
    }
    var all := AllocationMaps.Range(0, PageCount(data));
    assert forall page: nat :: page in all <==> page < PageCount(data);
    ok := metadata * free == {} && metadata * claimed == {} && free + metadata + claimed == all;
    SeparationExact(data, c, free, metadata, claimed, all);
  }

  lemma SeparationExact(data: seq<byte>, c: Catalog, free: set<nat>, metadata: set<nat>, claimed: set<nat>,
                        all: set<nat>)
    requires free == MapPages(data, GLOBAL) && forall page: nat :: page in metadata <==> IsMetadata(data, c, page)
    requires forall page: nat :: page in claimed <==> ClaimedBy(data, c, |c.roles|, page)
    requires forall page: nat :: page in all <==> page < PageCount(data)
    ensures metadata * free == {} && metadata * claimed == {} <==>
              forall page: nat :: IsMetadata(data, c, page) ==> page !in free && !ClaimedBy(data, c, |c.roles|, page)
    ensures free + metadata + claimed == all <==>
              forall page: nat :: page < PageCount(data) <==>
                page in free || IsMetadata(data, c, page) || ClaimedBy(data, c, |c.roles|, page)
  {
    hide MapPages, IsMetadata, ClaimedBy, PageCount;
    if metadata * free == {} && metadata * claimed == {} {
      assert forall page :: page in metadata ==> page !in metadata * free && page !in metadata * claimed;
    }
    if free + metadata + claimed == all {
      forall page: nat
        ensures page < PageCount(data)
                <==> page in free || IsMetadata(data, c, page) || ClaimedBy(data, c, |c.roles|, page)
      {
        assert page in free + metadata + claimed <==> page in all;
      }
    }
  }
}
