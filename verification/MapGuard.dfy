/**
 * The allocation-map mutation guard (`validate` and `inspect` in
 * crates/jet3/src/alloc/mutation_map_guard.rs, over `MapBits` of mutation_map.rs).
 *
 * The catalog walk and the map loader are inputs here: the guard receives the global map and the maps of
 * every table in catalog order. Read failures and resource budgets are not part of the model.
 */
module MapGuard {
  import opened Bytes
  import opened DataPages

  /** A run of bitmap bytes: the page number of its first bit and where it is stored. */
  datatype Span = Span(first: nat, page: nat, offset: nat, data: seq<byte>)

  /** A loaded map: its locator, the byte range of its row on the locator's page, and its bitmap storage. */
  datatype MapBits = MapBits(locator: Locator, start: nat, end: nat, spans: seq<Span>)

  /** Spans whose first bit is at most `page`; spans are kept in ascending order. */
  function PartitionPoint(spans: seq<Span>, page: nat): (n: nat)
    ensures n <= |spans|
  {
    if spans == [] || spans[0].first > page then 0 else 1 + PartitionPoint(spans[1..], page)
  }

  /** A page outside every span has no set bit. */
  predicate Contains(bits: MapBits, page: nat) {
    var position := PartitionPoint(bits.spans, page);
    position > 0 &&
    var span := bits.spans[position - 1];
    span.first <= page && (page - span.first) / 8 < |span.data|
    && Bit(span.data[(page - span.first) / 8], (page - span.first) % 8)
  }

  /** The span stores a set bit for `page`. */
  predicate Marks(span: Span, page: nat) {
    && span.first <= page < span.first + 8 * |span.data|
    && span.data[(page - span.first) / 8] / [1, 2, 4, 8, 16, 32, 64, 128][(page - span.first) % 8] % 2 == 1
  }

  /** Every span ends before the next one starts. */
  ghost predicate Ascending(spans: seq<Span>) {
    forall i, j :: 0 <= i < j < |spans| ==> spans[i].first + 8 * |spans[i].data| <= spans[j].first
  }

  lemma {:induction false} PartitionSplits(spans: seq<Span>, page: nat)
    requires Ascending(spans)
    ensures var n := PartitionPoint(spans, page);
            && (forall i :: 0 <= i < n ==> spans[i].first <= page)
            && (forall i :: n <= i < |spans| ==> spans[i].first > page)
  {
    if spans != [] {
      if spans[0].first <= page {
        PartitionSplits(spans[1..], page);
        var n := PartitionPoint(spans[1..], page);
        assert forall i :: 0 < i < |spans| ==> spans[i] == spans[1..][i - 1];
      }
    }
  }

  /** The search for one span finds a page exactly when some span marks it. */
  lemma ContainsExactly(bits: MapBits, page: nat)
    requires Ascending(bits.spans)
    ensures Contains(bits, page) <==> exists i :: 0 <= i < |bits.spans| && Marks(bits.spans[i], page)
  {
    hide Bit;
    PartitionSplits(bits.spans, page);
    var n := PartitionPoint(bits.spans, page);
    if n > 0 {
      var span := bits.spans[n - 1];
      if span.first <= page && (page - span.first) / 8 < |span.data| {
        BitValue(span.data[(page - span.first) / 8], (page - span.first) % 8);
      }
      assert Contains(bits, page) <==> Marks(span, page);
    }
    forall i | 0 <= i < |bits.spans| && Marks(bits.spans[i], page) ensures i == n - 1 {
      assert i < n;
    }
  }

  predicate SpansMeet(a: Span, b: Span) {
    a.page == b.page && a.offset < b.offset + |b.data| && b.offset < a.offset + |a.data|
  }

  predicate Overlaps(a: MapBits, b: MapBits) {
    || (a.locator.page == b.locator.page && a.start < b.end && b.start < a.end)
    || (exists i, j :: 0 <= i < |a.spans| && 0 <= j < |b.spans| && SpansMeet(a.spans[i], b.spans[j]))
  }

  /** The pages that hold a map: its row's page, then each span's page. */
  function StoragePages(bits: MapBits): (r: seq<nat>) {
    [bits.locator.page] + seq(|bits.spans|, i requires 0 <= i < |bits.spans| => bits.spans[i].page)
  }

  predicate HoldsStorage(bits: MapBits, pending: MapBits) {
    exists i :: 0 <= i < |StoragePages(pending)| && Contains(bits, StoragePages(pending)[i])
  }

  datatype Refusal = GloballyFree | SharedMap | SharedBitmap | ClaimedAsContent | Unreferenced

  datatype Verdict = Valid | Refused(why: Refusal)

  // ----- What acceptance means -----

  function CountLocator(maps: seq<MapBits>, locator: Locator): (n: nat) {
    if maps == [] then 0
    else CountLocator(maps[..|maps| - 1], locator) + (if maps[|maps| - 1].locator == locator then 1 else 0)
  }

  /** One role is compatible with one pending map: it is that map, or shares none of its storage. */
  predicate Compatible(bits: MapBits, pending: MapBits, global: bool) {
    && (bits.locator == pending.locator || !Overlaps(bits, pending))
    && (global || !HoldsStorage(bits, pending))
  }

  /** Every pending map is one role, shares storage with no other role, and is neither free nor content. */
  ghost predicate Admissible(global: MapBits, roles: seq<MapBits>, maps: seq<MapBits>) {
    forall p :: 0 <= p < |maps| ==>
      && !HoldsStorage(global, maps[p])
      && CountLocator([global] + roles, maps[p].locator) == 1
      && Compatible(global, maps[p], true)
      && (forall i :: 0 <= i < |roles| ==> Compatible(roles[i], maps[p], false))
  }

  // ----- The guard -----

  /** `inspect`: compares one role with every pending map, recording which of them it is. */
  method Inspect(bits: MapBits, maps: seq<MapBits>, seen: array<bool>, global: bool) returns (r: Verdict)
    requires seen.Length == |maps|
    modifies seen
    ensures r.Valid? <==> forall p :: 0 <= p < |maps| ==>
                            Compatible(bits, maps[p], global) && !(bits.locator == maps[p].locator && old(seen[p]))
    ensures r.Valid? ==> forall p :: 0 <= p < |maps| ==> seen[p] == (old(seen[p]) || bits.locator == maps[p].locator)
    ensures r != Refused(GloballyFree)
  {
    hide Overlaps, HoldsStorage;
    for position := 0 to |maps|
      invariant forall p :: 0 <= p < position ==>
                  Compatible(bits, maps[p], global) && !(bits.locator == maps[p].locator && old(seen[p]))
      invariant forall p :: 0 <= p < |maps| ==>
                  seen[p] == (old(seen[p]) || (p < position && bits.locator == maps[p].locator))
    {
      var pending := maps[position];
      if bits.locator == pending.locator {
        if seen[position] {
          return Refused(SharedMap);
        }
        seen[position] := true;
      } else if Overlaps(bits, pending) {
        return Refused(SharedBitmap);
      }
      if !global {
        var claimed := HoldsStorage(bits, pending);
        if claimed {
          return Refused(ClaimedAsContent);
        }
      }
    }
    return Valid;
  }

  /** The maps of one table, in the order the guard loads them. */
  datatype TableMaps = TableMaps(owned: MapBits, available: MapBits, indexes: seq<MapBits>,
                                 longValues: seq<(MapBits, MapBits)>)

  function LongValueMaps(pairs: seq<(MapBits, MapBits)>): (r: seq<MapBits>) {
    if pairs == [] then [] else LongValueMaps(pairs[..|pairs| - 1]) + [pairs[|pairs| - 1].0, pairs[|pairs| - 1].1]
  }

  function TableRoles(table: TableMaps): (r: seq<MapBits>) {
    [table.owned, table.available] + table.indexes + LongValueMaps(table.longValues)
  }

  function Roles(tables: seq<TableMaps>): (r: seq<MapBits>) {
    if tables == [] then [] else Roles(tables[..|tables| - 1]) + TableRoles(tables[|tables| - 1])
  }

  /** Each pending map is compatible with the roles so far and was met at most once. */
  ghost predicate Checked(global: MapBits, roles: seq<MapBits>, maps: seq<MapBits>, seen: seq<bool>) {
    && |seen| == |maps|
    && forall p :: 0 <= p < |maps| ==>
         && !HoldsStorage(global, maps[p])
         && Compatible(global, maps[p], true)
         && (forall i :: 0 <= i < |roles| ==> Compatible(roles[i], maps[p], false))
         && CountLocator([global] + roles, maps[p].locator) == if seen[p] then 1 else 0
  }

  lemma CountSnoc(roles: seq<MapBits>, bits: MapBits, locator: Locator)
    ensures CountLocator(roles + [bits], locator)
            == CountLocator(roles, locator) + (if bits.locator == locator then 1 else 0)
  {
    assert (roles + [bits])[..|roles|] == roles;
  }

  /** Counting over more roles never finds fewer. */
  lemma {:induction false} CountGrows(some: seq<MapBits>, all: seq<MapBits>, locator: Locator)
    requires some <= all
    ensures CountLocator(some, locator) <= CountLocator(all, locator)
    decreases |all|
  {
    if some != all {
      CountGrows(some, all[..|all| - 1], locator);
    }
  }

  /** One more inspected role keeps the state checked. */
  lemma CheckedStep(global: MapBits, roles: seq<MapBits>, bits: MapBits, maps: seq<MapBits>, before: seq<bool>,
                    after: seq<bool>)
    requires Checked(global, roles, maps, before) && |after| == |maps|
    requires forall p :: 0 <= p < |maps| ==>
               Compatible(bits, maps[p], false) && !(bits.locator == maps[p].locator && before[p])
    requires forall p :: 0 <= p < |maps| ==> after[p] == (before[p] || bits.locator == maps[p].locator)
    ensures Checked(global, roles + [bits], maps, after)
  {
    hide Compatible, HoldsStorage, CountLocator;
    forall p | 0 <= p < |maps|
      ensures CountLocator([global] + (roles + [bits]), maps[p].locator) == if after[p] then 1 else 0
    {
      CountSnoc([global] + roles, bits, maps[p].locator);
      assert [global] + (roles + [bits]) == [global] + roles + [bits];
    }
  }

  /** A role refused by the inspection makes the whole set inadmissible. */
  lemma RefusedRole(global: MapBits, roles: seq<MapBits>, k: nat, maps: seq<MapBits>, before: seq<bool>, p: nat)
    requires k < |roles| && Checked(global, roles[..k], maps, before) && p < |maps|
    requires !Compatible(roles[k], maps[p], false) || (roles[k].locator == maps[p].locator && before[p])
    ensures !Admissible(global, roles, maps)
  {
    hide Compatible, HoldsStorage, CountLocator;
    if Compatible(roles[k], maps[p], false) {
      CountSnoc([global] + roles[..k], roles[k], maps[p].locator);
      assert [global] + roles[..k] + [roles[k]] == ([global] + roles)[..k + 2];
      CountGrows(([global] + roles)[..k + 2], [global] + roles, maps[p].locator);
    }
  }

  lemma FirstChecked(global: MapBits, maps: seq<MapBits>, seen: seq<bool>)
    requires |seen| == |maps|
    requires forall p :: 0 <= p < |maps| ==>
               !HoldsStorage(global, maps[p]) && Compatible(global, maps[p], true)
               && seen[p] == (global.locator == maps[p].locator)
    ensures Checked(global, [], maps, seen)
  {
    hide Compatible, HoldsStorage;
    forall p | 0 <= p < |maps| ensures CountLocator([global] + [], maps[p].locator) == if seen[p] then 1 else 0 {
      CountSnoc([], global, maps[p].locator);
      assert [global] + [] == [] + [global];
    }
  }

  /** `validate`: no storage page is globally free, every role is inspected, every pending map is met. */
  method Validate(global: MapBits, tables: seq<TableMaps>, maps: seq<MapBits>) returns (r: Verdict)
    ensures r.Valid? <==> Admissible(global, Roles(tables), maps)
    ensures r == Refused(GloballyFree) <==> exists p :: 0 <= p < |maps| && HoldsStorage(global, maps[p])
  {
    hide Compatible, HoldsStorage, CountLocator, TableRoles, Roles;
    var seen := new bool[|maps|](i => false);
    for p := 0 to |maps|
      invariant forall q :: 0 <= q < p ==> !HoldsStorage(global, maps[q])
      invariant forall q :: 0 <= q < |maps| ==> !seen[q]
    {
      var free := HoldsStorage(global, maps[p]);
      if free {
        return Refused(GloballyFree);
      }
    }
    r := Inspect(global, maps, seen, true);
    if r.Refused? {
      return;
    }
    FirstChecked(global, maps, seen[..]);
    var roles := Roles(tables);
    assert roles[..0] == [];
    for k := 0 to |roles|
      invariant Checked(global, roles[..k], maps, seen[..])
    {
      ghost var before := seen[..];
      r := Inspect(roles[k], maps, seen, false);
      if r.Refused? {
        ghost var p: nat :| p < |maps| &&
          !(Compatible(roles[k], maps[p], false) && !(roles[k].locator == maps[p].locator && before[p]));
        RefusedRole(global, roles, k, maps, before, p);
        return;
      }
      CheckedStep(global, roles[..k], roles[k], maps, before, seen[..]);
      assert roles[..k + 1] == roles[..k] + [roles[k]];
    }
    assert roles[..|roles|] == roles;
    for p := 0 to |maps|
      invariant forall q :: 0 <= q < p ==> seen[q]
    {
      if !seen[p] {
        assert CountLocator([global] + roles, maps[p].locator) == 0;
        return Refused(Unreferenced);
      }
    }
    return Valid;
  }

  // ----- What an admitted edit can touch -----

  /** A stored byte of a map's bitmap. */
  ghost predicate Stores(bits: MapBits, page: nat, offset: nat) {
    exists i :: 0 <= i < |bits.spans| && bits.spans[i].page == page
                && bits.spans[i].offset <= offset < bits.spans[i].offset + |bits.spans[i].data|
  }

  predicate InRow(bits: MapBits, page: nat, offset: nat) {
    bits.locator.page == page && bits.start <= offset < bits.end
  }

  /** A byte of both rows, or of the bitmaps of both maps. */
  ghost predicate SharedByte(a: MapBits, b: MapBits, page: nat, offset: nat) {
    (InRow(a, page, offset) && InRow(b, page, offset)) || (Stores(a, page, offset) && Stores(b, page, offset))
  }

  /** The interval comparisons find maps that share a byte, and no others. */
  lemma OverlapsExactly(a: MapBits, b: MapBits)
    requires a.start < a.end && forall i :: 0 <= i < |a.spans| ==> a.spans[i].data != []
    requires b.start < b.end && forall i :: 0 <= i < |b.spans| ==> b.spans[i].data != []
    ensures Overlaps(a, b) <==> exists page, offset :: SharedByte(a, b, page, offset)
  {
    if Overlaps(a, b) {
      if a.locator.page == b.locator.page && a.start < b.end && b.start < a.end {
        assert SharedByte(a, b, a.locator.page, if a.start < b.start then b.start else a.start);
      } else {
        var i, j :| 0 <= i < |a.spans| && 0 <= j < |b.spans| && SpansMeet(a.spans[i], b.spans[j]);
        var s, t := a.spans[i], b.spans[j];
        var offset := if s.offset < t.offset then t.offset else s.offset;
        assert Stores(a, s.page, offset) && Stores(b, s.page, offset);
        assert SharedByte(a, b, s.page, offset);
      }
    }
    if page, offset :| SharedByte(a, b, page, offset) {
      if Stores(a, page, offset) && Stores(b, page, offset) {
        OverlapSeen(a, b, page, offset);
      }
    }
  }

  lemma OverlapSeen(a: MapBits, b: MapBits, page: nat, offset: nat)
    requires Stores(a, page, offset) && Stores(b, page, offset)
    ensures Overlaps(a, b)
  {
    var i :| 0 <= i < |a.spans| && a.spans[i].page == page
        && a.spans[i].offset <= offset < a.spans[i].offset + |a.spans[i].data|;
    var j :| 0 <= j < |b.spans| && b.spans[j].page == page
        && b.spans[j].offset <= offset < b.spans[j].offset + |b.spans[j].data|;
    assert SpansMeet(a.spans[i], b.spans[j]);
  }

  /**
   * Once the guard accepts, a byte of a pending map's bitmap belongs to no other role, no role claims the
   * page that holds it, and that page is not free: rewriting it changes that one map and nothing else.
   */
  lemma AdmittedBytesAreExclusive(global: MapBits, roles: seq<MapBits>, maps: seq<MapBits>, p: nat, i: nat, page: nat,
                                  offset: nat)
    requires Admissible(global, roles, maps) && p < |maps| && i <= |roles| && Stores(maps[p], page, offset)
    ensures var role := ([global] + roles)[i];
            && (role.locator != maps[p].locator ==> !Stores(role, page, offset))
            && !Contains(role, page)
  {
    hide Overlaps, Contains, CountLocator;
    var role := ([global] + roles)[i];
    if role.locator != maps[p].locator && Stores(role, page, offset) {
      OverlapSeen(role, maps[p], page, offset);
    }
    var s :| 0 <= s < |maps[p].spans| && maps[p].spans[s].page == page;
    assert StoragePages(maps[p])[s + 1] == page;
    assert !HoldsStorage(role, maps[p]);
  }

  /** Two pending maps with different locators never share a bitmap byte when each is the role it was loaded from. */
  lemma PendingMapsDisjoint(global: MapBits, roles: seq<MapBits>, maps: seq<MapBits>, p: nat, q: nat, page: nat,
                            offset: nat)
    requires Admissible(global, roles, maps) && p < |maps| && q < |maps| && maps[p].locator != maps[q].locator
    requires forall i :: 0 <= i <= |roles| ==> ([global] + roles)[i].locator == maps[q].locator ==>
               ([global] + roles)[i] == maps[q]
    ensures !(Stores(maps[p], page, offset) && Stores(maps[q], page, offset))
  {
    hide Stores, Contains, Compatible, HoldsStorage;
    if Stores(maps[p], page, offset) {
      CountedSomewhere([global] + roles, maps[q].locator);
      var i: nat :| i < |[global] + roles| && ([global] + roles)[i].locator == maps[q].locator;
      AdmittedBytesAreExclusive(global, roles, maps, p, i, page, offset);
    }
  }

  lemma {:induction false} CountedSomewhere(maps: seq<MapBits>, locator: Locator)
    requires CountLocator(maps, locator) > 0
    ensures exists i: nat :: i < |maps| && maps[i].locator == locator
  {
    var n := |maps| - 1;
    if maps[n].locator != locator {
      CountedSomewhere(maps[..n], locator);
      var i: nat :| i < n && maps[..n][i].locator == locator;
      assert maps[i].locator == locator;
    }
  }
}
