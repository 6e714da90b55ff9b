/**
 * The two link walks of the row decoder in oracle/windows-dao/structure.py: the overflow links from a live
 * slot to the slot that stores its row (inside `rows`), and the fragments of a long value (`payload`).
 *
 * Each walk is one function that carries the set of visited places, one loop that computes it, and one
 * relation that knows nothing of visited places: a finite list of places, each linked to the next.
 */
module Links {
  import opened Bytes
  import opened DataPages
  import opened AllocationMaps

  /** One slot of a data page. */
  function SlotOf(data: seq<byte>, w: Locator): (r: Result<Row>)
    ensures r.Accepted? ==> w.row < 1024
  {
    var image :- PageOf(data, w.page);
    if DirectoryAccepted(image) && w.row < Count(image) then Accepted(RowAt(image, w.row)) else Rejected
  }

  /** Row byte, then a three-byte little-endian page. */
  function LocatorAt(raw: seq<byte>, offset: nat): (w: Locator)
    requires offset + 4 <= |raw|
  {
    Locator(raw[offset + 1] as int + 0x100 * raw[offset + 2] as int + 0x1_0000 * raw[offset + 3] as int, raw[offset])
  }

  /** Every slot a walk inside these pages can visit. */
  function Places(pages: set<nat>): (r: set<Locator>)
    ensures forall w: Locator :: w in r <==> w.page in pages && w.row < 1024
  {
    set p: nat, row: nat | p in pages && row in Range(0, 1024) :: Locator(p, row)
  }

  lemma FewerPlaces(pages: set<nat>, visited: set<Locator>, at: Locator)
    requires at.page in pages && at.row < 1024 && at !in visited
    ensures |Places(pages) - (visited + {at})| < |Places(pages) - visited|
  {
    var before := Places(pages) - visited;
    assert at in before;
    assert Places(pages) - (visited + {at}) == before - {at};
  }

  ghost predicate Apart(places: seq<Locator>, visited: set<Locator>) {
    forall i :: 0 <= i < |places| ==> places[i] !in visited
  }

  function Prepend(done: seq<Locator>, rest: Result<seq<Locator>>): (r: Result<seq<Locator>>) {
    if rest.Accepted? then Accepted(done + rest.value) else Rejected
  }

  lemma PrependNothing(rest: Result<seq<Locator>>)
    ensures Prepend([], rest) == rest
  {
    assert rest.Accepted? ==> [] + rest.value == rest.value;
  }

  // ----- Overflow links -----

  /** The slot that an overflow slot names: a hidden slot on one of the table's pages. */
  function NextSlot(data: seq<byte>, pages: set<nat>, row: Row): (r: Result<Locator>)
    ensures r.Accepted? ==>
              r.value.page in pages && SlotOf(data, r.value).Accepted? && SlotOf(data, r.value).value.hidden
  {
    if |row.data| != 4 || LocatorAt(row.data, 0).page !in pages then Rejected
    else
      var target :- SlotOf(data, LocatorAt(row.data, 0));
      if target.hidden then Accepted(LocatorAt(row.data, 0)) else Rejected
  }

  /** The places visited from a slot to its stored row; a place met twice is rejected. */
  function Follow(data: seq<byte>, pages: set<nat>, at: Locator, seen: set<Locator>): (r: Result<seq<Locator>>)
    requires at.page in pages
    decreases |Places(pages) - seen|
  {
    if at in seen then Rejected
    else
      var row :- SlotOf(data, at);
      if !row.overflow then Accepted([at])
      else
        var next :- NextSlot(data, pages, row);
        FewerPlaces(pages, seen, at);
        Prepend([at], Follow(data, pages, next, seen + {at}))
  }

  /** A finite list of slots, each an overflow slot naming the next, that ends in a stored row. */
  ghost predicate IsPath(data: seq<byte>, pages: set<nat>, path: seq<Locator>) {
    && path != [] && path[0].page in pages && SlotOf(data, path[0]).Accepted?
    && var row := SlotOf(data, path[0]).value;
       if row.overflow then |path| > 1 && NextSlot(data, pages, row) == Accepted(path[1])
           && IsPath(data, pages, path[1..])
       else |path| == 1
  }

  lemma {:induction false} PathUnique(data: seq<byte>, pages: set<nat>, p: seq<Locator>, q: seq<Locator>)
    requires IsPath(data, pages, p) && IsPath(data, pages, q) && p[0] == q[0]
    ensures p == q
  {
    hide SlotOf, NextSlot;
    if |p| > 1 {
      PathUnique(data, pages, p[1..], q[1..]);
      assert p == [p[0]] + p[1..] && q == [q[0]] + q[1..];
    }
  }

  lemma {:induction false} PathSuffix(data: seq<byte>, pages: set<nat>, path: seq<Locator>, i: nat)
    requires IsPath(data, pages, path) && i < |path|
    ensures IsPath(data, pages, path[i..])
  {
    hide SlotOf, NextSlot;
    if i > 0 {
      PathSuffix(data, pages, path[1..], i - 1);
      assert path[1..][i - 1..] == path[i..];
    } else {
      assert path[0..] == path;
    }
  }

  /** A path never meets a slot twice: from equal slots on it would be equal, yet the suffixes differ in length. */
  lemma PathDistinct(data: seq<byte>, pages: set<nat>, path: seq<Locator>)
    requires IsPath(data, pages, path)
    ensures NoRepeats(path)
  {
    hide IsPath;
    forall i, j | 0 <= i < j < |path| ensures path[i] != path[j] {
      PathSuffix(data, pages, path, i);
      PathSuffix(data, pages, path, j);
      if path[i] == path[j] {
        PathUnique(data, pages, path[i..], path[j..]);
      }
    }
  }

  lemma {:induction false} FollowIsPath(data: seq<byte>, pages: set<nat>, at: Locator, seen: set<Locator>)
    requires at.page in pages && Follow(data, pages, at, seen).Accepted?
    ensures var path := Follow(data, pages, at, seen).value;
            path != [] && IsPath(data, pages, path) && path[0] == at && Apart(path, seen)
    decreases |Places(pages) - seen|
  {
    hide SlotOf, NextSlot, Places;
    var row := SlotOf(data, at).value;
    if row.overflow {
      var next := NextSlot(data, pages, row).value;
      SlotInRange(data, at);
      FewerPlaces(pages, seen, at);
      FollowIsPath(data, pages, next, seen + {at});
      var rest := Follow(data, pages, next, seen + {at}).value;
      assert ([at] + rest)[1..] == rest;
    }
  }

  lemma SlotInRange(data: seq<byte>, at: Locator)
    requires SlotOf(data, at).Accepted?
    ensures at.row < 1024
  {
  }

  lemma {:induction false} PathIsFollowed(data: seq<byte>, pages: set<nat>, path: seq<Locator>, seen: set<Locator>)
    requires IsPath(data, pages, path) && NoRepeats(path) && Apart(path, seen)
    ensures Follow(data, pages, path[0], seen) == Accepted(path)
    decreases |path|
  {
    hide SlotOf, NextSlot, Places;
    var row := SlotOf(data, path[0]).value;
    if row.overflow {
      PathIsFollowed(data, pages, path[1..], seen + {path[0]});
      assert path == [path[0]] + path[1..];
    } else {
      assert path == [path[0]];
    }
  }

  /** The walk accepts exactly the slots from which a finite path exists, and returns that path. */
  lemma FollowExact(data: seq<byte>, pages: set<nat>, at: Locator, path: seq<Locator>)
    requires at.page in pages
    ensures Follow(data, pages, at, {}) == Accepted(path) <==> path != [] && IsPath(data, pages, path) && path[0] == at
  {
    hide Follow, IsPath;
    if Follow(data, pages, at, {}).Accepted? {
      FollowIsPath(data, pages, at, {});
      var found := Follow(data, pages, at, {}).value;
      if path != [] && IsPath(data, pages, path) && path[0] == at {
        PathUnique(data, pages, path, found);
      }
    } else if path != [] && IsPath(data, pages, path) && path[0] == at {
      PathDistinct(data, pages, path);
      PathIsFollowed(data, pages, path, {});
    }
  }

  function Endpoint(path: Result<seq<Locator>>): (r: Result<Locator>) {
    if path.Accepted? && path.value != [] then Accepted(path.value[|path.value| - 1]) else Rejected
  }

  lemma FollowUnfolds(data: seq<byte>, pages: set<nat>, at: Locator, seen: set<Locator>)
    requires at.page in pages && SlotOf(data, at).Accepted?
    ensures var row := SlotOf(data, at).value;
            Follow(data, pages, at, seen)
            == if at in seen then Rejected
               else if !row.overflow then Accepted([at])
               else if NextSlot(data, pages, row).Rejected? then Rejected
               else Prepend([at], Follow(data, pages, NextSlot(data, pages, row).value, seen + {at}))
  {
    hide SlotOf, NextSlot, Places;
  }

  lemma PrependTwice(done: seq<Locator>, at: Locator, rest: Result<seq<Locator>>)
    ensures Prepend(done, Prepend([at], rest)) == Prepend(done + [at], rest)
  {
    assert rest.Accepted? ==> done + ([at] + rest.value) == done + [at] + rest.value;
  }

  lemma LinkEnds(data: seq<byte>, pages: set<nat>, done: seq<Locator>, at: Locator, seen: set<Locator>)
    requires at.page in pages && Follow(data, pages, at, seen) == Accepted([at])
    ensures Endpoint(Prepend(done, Follow(data, pages, at, seen))) == Accepted(at)
  {
  }

  /** The inner loop of `rows`: from a live slot to the slot and bytes of its stored row. */
  method WalkLinks(data: seq<byte>, pages: set<nat>, origin: Locator, start: Row)
    returns (r: Result<(Locator, seq<byte>)>)
    requires origin.page in pages && SlotOf(data, origin) == Accepted(start)
    ensures r.Accepted? <==> Follow(data, pages, origin, {}).Accepted?
    ensures r.Accepted? ==>
              && Endpoint(Follow(data, pages, origin, {})) == Accepted(r.value.0)
              && SlotOf(data, r.value.0).Accepted? && SlotOf(data, r.value.0).value.data == r.value.1
  {
    hide SlotOf, NextSlot, Places, Follow;
    var current, row, seen := origin, start, {};
    ghost var done := [];
    PrependNothing(Follow(data, pages, origin, {}));
    while true
      invariant current.page in pages && SlotOf(data, current) == Accepted(row)
      invariant Follow(data, pages, origin, {}) == Prepend(done, Follow(data, pages, current, seen))
      decreases |Places(pages) - seen|
    {
      FollowUnfolds(data, pages, current, seen);
      if current in seen {
        return Rejected;
      }
      SlotInRange(data, current);
      FewerPlaces(pages, seen, current);
      if !row.overflow {
        LinkEnds(data, pages, done, current, seen);
        return Accepted((current, row.data));
      }
      var next := NextSlot(data, pages, row);
      if next.Rejected? {
        return Rejected;
      }
      PrependTwice(done, current, Follow(data, pages, next.value, seen + {current}));
      done := done + [current];
      seen := seen + {current};
      current := next.value;
      row := SlotOf(data, current).value;
    }
  }

  // ----- Long values -----

  const LONG_VALUE_OWNER: seq<byte> := [0x4c, 0x56, 0x41, 0x4c]
  const FOUR_ZEROS: seq<byte> := [0, 0, 0, 0]

  /** The page carries long values. */
  predicate IsLongPage(image: Image) {
    image[..2] == [1, 1] && image[4..8] == LONG_VALUE_OWNER
  }

  /** A live fragment on a long-value page of the column. */
  function Fragment(data: seq<byte>, owned: set<nat>, w: Locator): (r: Result<seq<byte>>)
    ensures r.Accepted? ==> w.page in owned && w.row < 1024
  {
    if w.page !in owned then Rejected
    else
      var image :- PageOf(data, w.page);
      if !IsLongPage(image) then Rejected
      else
        var row :- SlotOf(data, w);
        if row.hidden || row.overflow then Rejected else Accepted(row.data)
  }

  /** What one fragment contributes: all of a single-page value, everything after the link of a chained one. */
  function Piece(data: seq<byte>, owned: set<nat>, single: bool, w: Locator): (r: seq<byte>) {
    var fragment := Fragment(data, owned, w);
    if fragment.Rejected? then [] else if single then fragment.value else if |fragment.value| <= 4 then []
    else fragment.value[4..]
  }

  function Spelled(data: seq<byte>, owned: set<nat>, single: bool, chain: seq<Locator>): (r: seq<byte>) {
    if chain == [] then []
    else
      var n := |chain| - 1;
      Spelled(data, owned, single, chain[..n]) + Piece(data, owned, single, chain[n])
  }

  lemma {:induction false} SpelledPrefix(data: seq<byte>, owned: set<nat>, single: bool, done: seq<Locator>,
                                         rest: seq<Locator>)
    ensures |Spelled(data, owned, single, done)| <= |Spelled(data, owned, single, done + rest)|
  {
    hide Piece;
    if rest != [] {
      var n := |rest| - 1;
      SpelledPrefix(data, owned, single, done, rest[..n]);
      assert (done + rest)[..|done + rest| - 1] == done + rest[..n];
    } else {
      assert done + rest == done;
    }
  }

  /** The fragments of an external value, none of them reached before. */
  function Chain(data: seq<byte>, owned: set<nat>, single: bool, at: Locator, reached: set<Locator>)
    : (r: Result<seq<Locator>>)
    decreases |Places(owned) - reached|
  {
    if at.page == 0 then Accepted([])
    else if at in reached then Rejected
    else
      var fragment :- Fragment(data, owned, at);
      if single then Accepted([at])
      else if |fragment| <= 4 then Rejected
      else
        FewerPlaces(owned, reached, at);
        Prepend([at], Chain(data, owned, single, LocatorAt(fragment, 0), reached + {at}))
  }

  /** A finite list of fragments, each naming the next, that ends in page 0. */
  ghost predicate Linked(data: seq<byte>, owned: set<nat>, single: bool, at: Locator, chain: seq<Locator>)
    decreases |chain|
  {
    if at.page == 0 then chain == []
    else
      && chain != [] && chain[0] == at && Fragment(data, owned, at).Accepted?
      && var fragment := Fragment(data, owned, at).value;
         if single then |chain| == 1
         else |fragment| > 4 && Linked(data, owned, single, LocatorAt(fragment, 0), chain[1..])
  }

  lemma {:induction false} LinkedUnique(data: seq<byte>, owned: set<nat>, single: bool, at: Locator, c: seq<Locator>,
                                        d: seq<Locator>)
    requires Linked(data, owned, single, at, c) && Linked(data, owned, single, at, d)
    ensures c == d
    decreases |c|
  {
    hide Fragment, LocatorAt;
    if at.page != 0 {
      if !single {
        LinkedUnique(data, owned, single, LocatorAt(Fragment(data, owned, at).value, 0), c[1..], d[1..]);
      }
      assert c == [at] + c[1..] && d == [at] + d[1..];
    }
  }

  lemma {:induction false} LinkedSuffix(data: seq<byte>, owned: set<nat>, single: bool, at: Locator,
                                        chain: seq<Locator>, i: nat)
    requires Linked(data, owned, single, at, chain) && i < |chain|
    ensures Linked(data, owned, single, chain[i], chain[i..])
    decreases |chain|
  {
    hide Fragment, LocatorAt;
    if i > 0 {
      LinkedSuffix(data, owned, single, LocatorAt(Fragment(data, owned, at).value, 0), chain[1..], i - 1);
      assert chain[1..][i - 1..] == chain[i..];
    } else {
      assert chain[0..] == chain;
    }
  }

  lemma LinkedDistinct(data: seq<byte>, owned: set<nat>, single: bool, at: Locator, chain: seq<Locator>)
    requires Linked(data, owned, single, at, chain)
    ensures NoRepeats(chain)
  {
    hide Linked;
    forall i, j | 0 <= i < j < |chain| ensures chain[i] != chain[j] {
      LinkedSuffix(data, owned, single, at, chain, i);
      LinkedSuffix(data, owned, single, at, chain, j);
      if chain[i] == chain[j] {
        LinkedUnique(data, owned, single, chain[i], chain[i..], chain[j..]);
      }
    }
  }

  lemma {:induction false} ChainIsLinked(data: seq<byte>, owned: set<nat>, single: bool, at: Locator,
                                         reached: set<Locator>)
    requires Chain(data, owned, single, at, reached).Accepted?
    ensures var chain := Chain(data, owned, single, at, reached).value;
            Linked(data, owned, single, at, chain) && Apart(chain, reached)
    decreases |Places(owned) - reached|
  {
    hide Fragment, LocatorAt, Places;
    if at.page != 0 && !single {
      var next := LocatorAt(Fragment(data, owned, at).value, 0);
      FewerPlaces(owned, reached, at);
      ChainIsLinked(data, owned, single, next, reached + {at});
      var rest := Chain(data, owned, single, next, reached + {at}).value;
      assert ([at] + rest)[1..] == rest;
    }
  }

  lemma {:induction false} LinkedIsChain(data: seq<byte>, owned: set<nat>, single: bool, at: Locator,
                                         chain: seq<Locator>, reached: set<Locator>)
    requires Linked(data, owned, single, at, chain) && NoRepeats(chain) && Apart(chain, reached)
    ensures Chain(data, owned, single, at, reached) == Accepted(chain)
    decreases |chain|
  {
    hide Fragment, LocatorAt, Places;
    if at.page != 0 {
      if single {
        assert chain == [at];
      } else {
        LinkedIsChain(data, owned, single, LocatorAt(Fragment(data, owned, at).value, 0), chain[1..], reached + {at});
        assert chain == [at] + chain[1..];
      }
    }
  }

  /** The walk accepts exactly the finite chains that avoid what was reached before. */
  lemma ChainExact(data: seq<byte>, owned: set<nat>, single: bool, at: Locator, chain: seq<Locator>,
                   reached: set<Locator>)
    ensures Chain(data, owned, single, at, reached) == Accepted(chain)
            <==> Linked(data, owned, single, at, chain) && Apart(chain, reached)
  {
    hide Chain, Linked;
    if Chain(data, owned, single, at, reached) == Accepted(chain) {
      ChainIsLinked(data, owned, single, at, reached);
    } else if Linked(data, owned, single, at, chain) && Apart(chain, reached) {
      LinkedDistinct(data, owned, single, at, chain);
      LinkedIsChain(data, owned, single, at, chain, reached);
    }
  }

  function DeclaredLength(field: seq<byte>): (n: nat)
    requires |field| >= 12
  {
    U32(field, 0) % 0x100_0000
  }

  function Flags(field: seq<byte>): (n: nat)
    requires |field| >= 12
  {
    U32(field, 0) / 0x100_0000
  }

  /** `payload`: the value of a descriptor and the fragments that spell it. */
  function Payload(data: seq<byte>, field: seq<byte>, owned: set<nat>, reached: set<Locator>)
    : (r: Result<(seq<byte>, seq<Locator>)>)
  {
    if |field| < 12 || field[8..12] != FOUR_ZEROS then Rejected
    else if Flags(field) == 0x80 then
      if field[4..8] == FOUR_ZEROS && |field| == 12 + DeclaredLength(field) then Accepted((field[12..], []))
      else Rejected
    else if (Flags(field) != 0 && Flags(field) != 0x40) || |field| != 12 then Rejected
    else
      var single := Flags(field) == 0x40;
      ChainValue(data, owned, single, LocatorAt(field, 4), reached, DeclaredLength(field))
  }

  /** The value a chain spells, if it has the declared length. */
  function ChainValue(data: seq<byte>, owned: set<nat>, single: bool, at: Locator, reached: set<Locator>, length: nat):
    (r: Result<(seq<byte>, seq<Locator>)>)
  {
    var chain :- Chain(data, owned, single, at, reached);
    var value := Spelled(data, owned, single, chain);
    if |value| == length then Accepted((value, chain)) else Rejected
  }

  /** What a descriptor denotes, without any visiting order. */
  ghost predicate Describes(data: seq<byte>, field: seq<byte>, owned: set<nat>, value: seq<byte>, chain: seq<Locator>) {
    && |field| >= 12 && field[8..12] == FOUR_ZEROS && |value| == DeclaredLength(field)
    && (|| (Flags(field) == 0x80 && field[4..8] == FOUR_ZEROS && field[12..] == value && chain == [])
        || (|field| == 12 && (Flags(field) == 0 || Flags(field) == 0x40)
            && Linked(data, owned, Flags(field) == 0x40, LocatorAt(field, 4), chain)
            && value == Spelled(data, owned, Flags(field) == 0x40, chain)))
  }

  /** A payload is accepted exactly when its descriptor denotes a value whose fragments are all new. */
  lemma PayloadExact(data: seq<byte>, field: seq<byte>, owned: set<nat>, reached: set<Locator>, value: seq<byte>,
                     chain: seq<Locator>)
    ensures Payload(data, field, owned, reached) == Accepted((value, chain))
            <==> Describes(data, field, owned, value, chain) && Apart(chain, reached)
  {
    hide Chain, Linked, Spelled, LocatorAt;
    if |field| >= 12 {
      var single := Flags(field) == 0x40;
      ChainExact(data, owned, single, LocatorAt(field, 4), chain, reached);
    }
  }

  /** Earlier values only ever forbid fragments; they never change what a descriptor denotes. */
  lemma ReachedOnlyForbids(data: seq<byte>, field: seq<byte>, owned: set<nat>, reached: set<Locator>)
    ensures var free := Payload(data, field, owned, {});
            Payload(data, field, owned, reached)
            == if free.Accepted? && Apart(free.value.1, reached) then free else Rejected
  {
    hide Payload, Describes;
    var free, bound := Payload(data, field, owned, {}), Payload(data, field, owned, reached);
    if free.Accepted? {
      PayloadExact(data, field, owned, {}, free.value.0, free.value.1);
      PayloadExact(data, field, owned, reached, free.value.0, free.value.1);
    }
    if bound.Accepted? {
      PayloadExact(data, field, owned, reached, bound.value.0, bound.value.1);
      PayloadExact(data, field, owned, {}, bound.value.0, bound.value.1);
    }
  }

  /** `payload` as the source runs it. */
  method ReadPayload(data: seq<byte>, field: seq<byte>, owned: set<nat>, before: set<Locator>)
    returns (r: Result<(seq<byte>, seq<Locator>)>, reached: set<Locator>)
    ensures r == Payload(data, field, owned, before)
    ensures r.Accepted? ==> reached == before + Elements(r.value.1)
  {
    hide Fragment, LocatorAt, Chain, Spelled;
    reached := before;
    if |field| < 12 || field[8..12] != FOUR_ZEROS {
      return Rejected, reached;
    }
    var length, flags := DeclaredLength(field), Flags(field);
    if flags == 0x80 {
      if field[4..8] == FOUR_ZEROS && |field| == 12 + length {
        return Accepted((field[12..], [])), reached;
      }
      return Rejected, reached;
    }
    if (flags != 0 && flags != 0x40) || |field| != 12 {
      return Rejected, reached;
    }
    r, reached := ReadChain(data, owned, flags == 0x40, LocatorAt(field, 4), before, length);
  }

  /** The external part of a value; the early length bound changes no outcome. */
  method ReadChain(data: seq<byte>, owned: set<nat>, single: bool, start: Locator, before: set<Locator>, length: nat)
    returns (r: Result<(seq<byte>, seq<Locator>)>, reached: set<Locator>)
    ensures r == ChainValue(data, owned, single, start, before, length)
    ensures r.Accepted? ==> reached == before + Elements(r.value.1)
  {
    hide Fragment, LocatorAt, Places, Chain, Spelled;
    reached := before;
    var where, value, chain := start, [], [];
    ghost var all := Chain(data, owned, single, start, before);
    PrependNothing(all);
    SpelledNothing(data, owned, single);
    while where.page != 0
      invariant all == Prepend(chain, Chain(data, owned, single, where, reached))
      invariant value == Spelled(data, owned, single, chain)
      invariant reached == before + Elements(chain)
      decreases |Places(owned) - reached|
    {
      ChainStep(data, owned, single, where, reached, chain);
      var fragment := Fragment(data, owned, where);
      if where in reached || fragment.Rejected? {
        return Rejected, reached;
      }
      FewerPlaces(owned, reached, where);
      SpelledSnoc(data, owned, single, chain, where);
      chain, reached := chain + [where], reached + {where};
      if single {
        value := value + fragment.value;
        break;
      }
      if |fragment.value| <= 4 {
        return Rejected, reached;
      }
      value := value + fragment.value[4..];
      where := LocatorAt(fragment.value, 0);
      if |value| > length {
        if all.Accepted? {
          SpelledPrefix(data, owned, single, chain, Chain(data, owned, single, where, reached).value);
        }
        return Rejected, reached;
      }
    }
    assert all == Accepted(chain) by {
      ChainEnd(data, owned, single, where, reached);
      assert chain + [] == chain;
    }
    if |value| != length {
      return Rejected, reached;
    }
    return Accepted((value, chain)), reached;
  }

  lemma ChainEnd(data: seq<byte>, owned: set<nat>, single: bool, where: Locator, reached: set<Locator>)
    ensures where.page == 0 ==> Chain(data, owned, single, where, reached) == Accepted([])
  {
  }

  lemma ChainStep(data: seq<byte>, owned: set<nat>, single: bool, where: Locator, reached: set<Locator>,
                  done: seq<Locator>)
    requires where.page != 0
    ensures var fragment := Fragment(data, owned, where);
            Prepend(done, Chain(data, owned, single, where, reached))
            == if where in reached || fragment.Rejected? then Rejected
               else if single then Accepted(done + [where])
               else if |fragment.value| <= 4 then Rejected
               else Prepend(done + [where], Chain(data, owned, single, LocatorAt(fragment.value, 0), reached + {where}))
  {
    hide Fragment, LocatorAt, Places;
    var fragment := Fragment(data, owned, where);
    if where !in reached && fragment.Accepted? && !single && |fragment.value| > 4 {
      var rest := Chain(data, owned, single, LocatorAt(fragment.value, 0), reached + {where});
      assert rest.Accepted? ==> done + ([where] + rest.value) == done + [where] + rest.value;
    }
  }

  lemma SpelledNothing(data: seq<byte>, owned: set<nat>, single: bool)
    ensures Spelled(data, owned, single, []) == []
  {
  }

  lemma SpelledSnoc(data: seq<byte>, owned: set<nat>, single: bool, chain: seq<Locator>, w: Locator)
    ensures Spelled(data, owned, single, chain + [w])
            == Spelled(data, owned, single, chain) + Piece(data, owned, single, w)
  {
    assert (chain + [w])[..|chain|] == chain;
  }

  // ----- Slots read from their bytes -----

  /** A slot that exists, by the directory of its page. */
  lemma SlotByDirectory(data: seq<byte>, w: Locator)
    ensures SlotOf(data, w).Accepted? <==>
            && PageOf(data, w.page).Accepted? && Directory(PageOf(data, w.page).value).Accepted?
            && w.row < |Directory(PageOf(data, w.page).value).value|
    ensures SlotOf(data, w).Accepted? ==>
              var image := PageOf(data, w.page).value;
              var slot, row := Directory(image).value[w.row], SlotOf(data, w).value;
              && 12 + 2 * w.row <= PAGE && slot.start <= slot.end <= PAGE && row.data == image[slot.start..slot.end]
              && (row.hidden <==> image[11 + 2 * w.row] >= 128)
              && (row.overflow <==> image[11 + 2 * w.row] as int / 64 % 2 == 1)
  {
    hide RowAt, SlotAccepted, SlotAt;
    if SlotOf(data, w).Accepted? {
      RowBytes(PageOf(data, w.page).value, w.row);
      SlotFlags(PageOf(data, w.page).value, w.row);
    }
  }

  /** A fragment is a row with clear flags on an owned page that starts with 1, 1 and spells `LVAL` in bytes 4 to 7. */
  lemma FragmentByBytes(data: seq<byte>, owned: set<nat>, w: Locator, fragment: seq<byte>)
    ensures Fragment(data, owned, w) == Accepted(fragment) <==>
            && w.page in owned && SlotOf(data, w).Accepted? && SlotOf(data, w).value.data == fragment
            && var image := PageOf(data, w.page).value;
               && image[0] == 1 && image[1] == 1
               && image[4] == 0x4c && image[5] == 0x56 && image[6] == 0x41 && image[7] == 0x4c
               && 12 + 2 * w.row <= PAGE && image[11 + 2 * w.row] < 64
  {
    hide RowAt, DirectoryAccepted;
    SlotByDirectory(data, w);
    if PageOf(data, w.page).Accepted? {
      LongPageByBytes(PageOf(data, w.page).value);
    }
  }

  lemma LongPageByBytes(image: Image)
    ensures IsLongPage(image) <==>
            && image[0] == 1 && image[1] == 1
            && image[4] == 0x4c && image[5] == 0x56 && image[6] == 0x41 && image[7] == 0x4c
  {
    var two, owner := image[..2], image[4..8];
    assert two == [image[0], image[1]] && two[0] == image[0] && two[1] == image[1];
    assert owner == [image[4], image[5], image[6], image[7]];
    assert owner[0] == image[4] && owner[1] == image[5] && owner[2] == image[6] && owner[3] == image[7];
  }

  /** A link of any other length than four bytes is refused. */
  lemma LinksHaveFourBytes(data: seq<byte>, pages: set<nat>, at: Locator)
    requires at.page in pages && Follow(data, pages, at, {}).Accepted? && SlotOf(data, at).value.overflow
    ensures SlotOf(data, at).Accepted? && |SlotOf(data, at).value.data| == 4
  {
    hide SlotOf, Places, LocatorAt;
  }
}
