/**
 * Pairing relationship sides (`pair_relationship_sides` and `relationship_sides_match` in
 * crates/jet3-testkit/src/semantic_reader.rs): sides are taken from the end of a list, each must have
 * exactly one match among those that remain, and the pairs become relationships sorted by name.
 */
module Relationships {
  import opened Bytes
  import opened Sorting

  datatype Role = PrimaryTable | ForeignTable

  datatype Side = Side(
    name: seq<byte>, tableName: seq<byte>, tableRoot: nat, role: Role, relatedTable: nat,
    fields: seq<seq<byte>>, cascadeUpdates: bool, cascadeDeletes: bool)

  datatype Relationship = Relationship(
    attributes: nat, fields: seq<(seq<byte>, seq<byte>)>, foreignTable: seq<byte>, name: seq<byte>, table: seq<byte>)

  const UPDATE_CASCADE := 256
  const DELETE_CASCADE := 4096

  predicate Matches(left: Side, right: Side) {
    && left.role != right.role
    && left.relatedTable == right.tableRoot
    && right.relatedTable == left.tableRoot
    && |left.fields| == |right.fields|
    && left.cascadeUpdates == right.cascadeUpdates
    && left.cascadeDeletes == right.cascadeDeletes
  }

  /** The relationship of a primary and a foreign side. */
  function Build(pair: (Side, Side)): (r: Relationship) {
    var (primary, foreign) := pair;
    var n := if |primary.fields| < |foreign.fields| then |primary.fields| else |foreign.fields|;
    Relationship(
      (if foreign.cascadeUpdates then UPDATE_CASCADE else 0) + (if foreign.cascadeDeletes then DELETE_CASCADE else 0),
      seq(n, i requires 0 <= i < n => (primary.fields[i], foreign.fields[i])),
      foreign.tableName, foreign.name, primary.tableName)
  }

  /** Primary side first. */
  function Ordered(a: Side, b: Side): (r: (Side, Side)) {
    if a.role == PrimaryTable then (a, b) else (b, a)
  }

  // ----- Pairing -----

  /** Positions in `sides` that match `side`, in order. */
  function MatchingPositions(side: Side, sides: seq<Side>): (r: seq<nat>)
    ensures forall k :: 0 <= k < |r| ==> r[k] < |sides| && Matches(side, sides[r[k]])
  {
    if sides == [] then []
    else
      var earlier := MatchingPositions(side, sides[..|sides| - 1]);
      if Matches(side, sides[|sides| - 1]) then earlier + [|sides| - 1] else earlier
  }

  /** The pairs in the order they are formed, refused when a side has no match or several. */
  function PairUp(sides: seq<Side>): (r: Result<seq<(Side, Side)>>)
    decreases |sides|
  {
    if sides == [] then Accepted([])
    else
      var first, rest := sides[|sides| - 1], sides[..|sides| - 1];
      var matches := MatchingPositions(first, rest);
      if |matches| != 1 then Rejected
      else
        var pairs :- PairUp(RemoveAt(rest, matches[0]));
        Accepted([Ordered(first, rest[matches[0]])] + pairs)
  }

  function NameOf(r: Relationship): (n: seq<byte>) {
    r.name
  }

  function PairRelationships(sides: seq<Side>): (r: Result<seq<Relationship>>) {
    var pairs :- PairUp(sides);
    Accepted(SortBy(Map(pairs, Build), NameOf))
  }

  /** The loop of the source: pop, find, remove, push; then sort by name. */
  method PairRelationshipSides(input: seq<Side>) returns (r: Result<seq<Relationship>>)
    ensures r == PairRelationships(input)
  {
    hide MatchingPositions, SortBy, Build, Matches, Ordered;
    var sides, relationships := input, [];
    ghost var formed: seq<(Side, Side)> := [];
    AfterNothing(PairUp(sides));
    while sides != []
      invariant relationships == Map(formed, Build)
      invariant PairUp(input) == After(formed, PairUp(sides))
      decreases |sides|
    {
      var first := sides[|sides| - 1];
      sides := sides[..|sides| - 1];
      var matches := MatchingPositions(first, sides);
      if |matches| != 1 {
        return Rejected;
      }
      var second := sides[matches[0]];
      sides := RemoveAt(sides, matches[0]);
      var pair := Ordered(first, second);
      AfterOne(formed, pair, PairUp(sides));
      relationships := relationships + [Build(pair)];
      formed := formed + [pair];
    }
    assert formed + [] == formed;
    return Accepted(SortBy(relationships, NameOf));
  }

  /** Pairs already formed, followed by those still to come. */
  ghost function After(formed: seq<(Side, Side)>, left: Result<seq<(Side, Side)>>): (r: Result<seq<(Side, Side)>>) {
    if left.Rejected? then Rejected else Accepted(formed + left.value)
  }

  lemma AfterNothing(left: Result<seq<(Side, Side)>>)
    ensures After([], left) == left
  {
    assert left.Accepted? ==> [] + left.value == left.value;
  }

  lemma AfterOne(formed: seq<(Side, Side)>, pair: (Side, Side), left: Result<seq<(Side, Side)>>)
    ensures After(formed + [pair], left) == After(formed, After([pair], left))
  {
    assert left.Accepted? ==> formed + [pair] + left.value == formed + ([pair] + left.value);
  }

  // ----- Matching is a complete bipartite relation -----

  lemma MatchRectangle(a: Side, b: Side, c: Side, d: Side)
    requires Matches(a, b) && Matches(c, b) && Matches(c, d)
    ensures Matches(a, d)
  {
  }

  lemma MatchSymmetric(a: Side, b: Side)
    ensures Matches(a, b) == Matches(b, a)
  {
  }

  /** How many sides match. */
  function CountMatches(side: Side, sides: seq<Side>): (n: nat) {
    |MatchingPositions(side, sides)|
  }

  lemma {:induction false} CountConcat(side: Side, a: seq<Side>, b: seq<Side>)
    ensures CountMatches(side, a + b) == CountMatches(side, a) + CountMatches(side, b)
  {
    if b == [] {
      assert a + b == a;
    } else {
      CountConcat(side, a, b[..|b| - 1]);
      assert (a + b)[..|a + b| - 1] == a + b[..|b| - 1];
    }
  }

  lemma CountOne(side: Side, other: Side)
    ensures CountMatches(side, [other]) == if Matches(side, other) then 1 else 0
  {
    assert MatchingPositions(side, [other][..|[other]| - 1]) == [];
  }

  lemma CountRemove(side: Side, sides: seq<Side>, i: nat)
    requires i < |sides|
    ensures CountMatches(side, sides)
            == CountMatches(side, RemoveAt(sides, i)) + (if Matches(side, sides[i]) then 1 else 0)
  {
    hide Matches, MatchingPositions;
    var a, b := sides[..i], sides[i + 1..];
    CountConcat(side, a, b);
    CountConcat(side, a + [sides[i]], b);
    CountConcat(side, a, [sides[i]]);
    CountOne(side, sides[i]);
    assert sides == a + [sides[i]] + b;
  }

  lemma {:induction false} CountPositive(side: Side, sides: seq<Side>)
    ensures CountMatches(side, sides) > 0 <==> exists i :: 0 <= i < |sides| && Matches(side, sides[i])
  {
    hide Matches;
    if sides != [] {
      CountPositive(side, sides[..|sides| - 1]);
    }
  }

  /** Every side has exactly one matching side in the list. */
  ghost predicate PerfectlyMatched(sides: seq<Side>) {
    forall i :: 0 <= i < |sides| ==> CountMatches(sides[i], sides) == 1
  }

  /** One round of the loop: `first` is last, `m` its only match, `left` what remains. */
  ghost predicate Round(sides: seq<Side>, m: nat, left: seq<Side>) {
    && sides != [] && m < |sides| - 1
    && left == RemoveAt(sides[..|sides| - 1], m)
    && Matches(sides[|sides| - 1], sides[m])
    && CountMatches(sides[|sides| - 1], sides[..|sides| - 1]) == 1
  }

  lemma CountInRound(side: Side, sides: seq<Side>, m: nat, left: seq<Side>)
    requires Round(sides, m, left)
    ensures CountMatches(side, sides)
            == CountMatches(side, left) + (if Matches(side, sides[m]) then 1 else 0)
               + (if Matches(side, sides[|sides| - 1]) then 1 else 0)
  {
    hide Matches, CountMatches;
    var n := |sides| - 1;
    assert sides == sides[..n] + [sides[n]];
    CountConcat(side, sides[..n], [sides[n]]);
    CountOne(side, sides[n]);
    CountRemove(side, sides[..n], m);
  }

  /** Nothing that remains matches the side just taken. */
  lemma FirstIsDone(sides: seq<Side>, m: nat, left: seq<Side>, x: Side)
    requires Round(sides, m, left) && x in left
    ensures !Matches(sides[|sides| - 1], x) && !Matches(x, sides[|sides| - 1])
  {
    hide CountMatches;
    var first := sides[|sides| - 1];
    CountRemove(first, sides[..|sides| - 1], m);
    CountPositive(first, left);
    assert sides[..|sides| - 1][m] == sides[m];
    MatchSymmetric(first, x);
  }

  /** If the rest is perfectly matched, nothing in it matches the partner either. */
  lemma SecondIsDone(sides: seq<Side>, m: nat, left: seq<Side>, x: Side)
    requires Round(sides, m, left) && x in left && PerfectlyMatched(left)
    ensures !Matches(x, sides[m]) && !Matches(sides[m], x)
  {
    hide CountMatches;
    MatchSymmetric(x, sides[m]);
    if Matches(x, sides[m]) {
      CountPositive(x, left);
      var i :| 0 <= i < |left| && left[i] == x;
      assert CountMatches(left[i], left) == 1;
      var j :| 0 <= j < |left| && Matches(x, left[j]);
      MatchRectangle(sides[|sides| - 1], sides[m], x, left[j]);
      FirstIsDone(sides, m, left, left[j]);
    }
  }

  lemma InRound(sides: seq<Side>, m: nat, left: seq<Side>, x: Side)
    requires Round(sides, m, left)
    ensures x in sides <==> x in left || x == sides[m] || x == sides[|sides| - 1]
  {
    hide Matches, CountMatches;
    var n := |sides| - 1;
    assert sides == sides[..n] + [sides[n]];
    assert sides[..n] == sides[..n][..m] + [sides[m]] + sides[..n][m + 1..];
  }

  lemma RoundKeepsPerfection(sides: seq<Side>, m: nat, left: seq<Side>)
    requires Round(sides, m, left)
    ensures PerfectlyMatched(sides) <==> PerfectlyMatched(left)
  {
    hide CountMatches, Matches, Round;
    RoundFacts(sides, m, left);
    var first, second := sides[|sides| - 1], sides[m];
    if PerfectlyMatched(sides) {
      forall i | 0 <= i < |left| ensures CountMatches(left[i], left) == 1 {
        var x := left[i];
        InRound(sides, m, left, x);
        var k :| 0 <= k < |sides| && sides[k] == x;
        assert CountMatches(sides[k], sides) == 1;
        CountInRound(x, sides, m, left);
        FirstIsDone(sides, m, left, x);
        CountInRound(second, sides, m, left);
        assert CountMatches(sides[m], sides) == 1;
        CountPositive(second, left);
        MatchSymmetric(second, x);
      }
    }
    if PerfectlyMatched(left) {
      forall k | 0 <= k < |sides| ensures CountMatches(sides[k], sides) == 1 {
        var x := sides[k];
        InRound(sides, m, left, x);
        CountInRound(x, sides, m, left);
        PerfectElement(sides, m, left, x);
      }
    }
  }

  lemma RoundFacts(sides: seq<Side>, m: nat, left: seq<Side>)
    requires Round(sides, m, left)
    ensures sides != [] && m < |sides| - 1
    ensures Matches(sides[|sides| - 1], sides[m]) && Matches(sides[m], sides[|sides| - 1])
    ensures !Matches(sides[m], sides[m]) && !Matches(sides[|sides| - 1], sides[|sides| - 1])
  {
  }

  lemma PerfectElement(sides: seq<Side>, m: nat, left: seq<Side>, x: Side)
    requires Round(sides, m, left) && PerfectlyMatched(left) && x in sides
    ensures CountMatches(x, sides) == 1
  {
    hide CountMatches, Matches, Round;
    RoundFacts(sides, m, left);
    InRound(sides, m, left, x);
    CountInRound(x, sides, m, left);
    if x == sides[m] || x == sides[|sides| - 1] {
      CountPositive(x, left);
      if i :| 0 <= i < |left| && Matches(x, left[i]) {
        FirstIsDone(sides, m, left, left[i]);
        SecondIsDone(sides, m, left, left[i]);
      }
    } else {
      FirstIsDone(sides, m, left, x);
      SecondIsDone(sides, m, left, x);
      var i :| 0 <= i < |left| && left[i] == x;
      assert CountMatches(left[i], left) == 1;
    }
  }

  lemma RoundOf(sides: seq<Side>)
    requires sides != [] && CountMatches(sides[|sides| - 1], sides[..|sides| - 1]) == 1
    ensures var m := MatchingPositions(sides[|sides| - 1], sides[..|sides| - 1])[0];
            Round(sides, m, RemoveAt(sides[..|sides| - 1], m))
  {
  }

  /** Pairing succeeds exactly when every side has one match in the whole input, whatever the order. */
  lemma {:induction false} PairingSucceedsExactly(sides: seq<Side>)
    ensures PairUp(sides).Accepted? <==> PerfectlyMatched(sides)
    decreases |sides|
  {
    hide Matches, MatchingPositions, Round, RemoveAt;
    if sides != [] {
      var n := |sides| - 1;
      if CountMatches(sides[n], sides[..n]) == 1 {
        RoundOf(sides);
        var m := MatchingPositions(sides[n], sides[..n])[0];
        var left := RemoveAt(sides[..n], m);
        RoundKeepsPerfection(sides, m, left);
        PairingSucceedsExactly(left);
      } else {
        LastUnmatched(sides);
      }
    }
  }

  lemma LastUnmatched(sides: seq<Side>)
    requires sides != [] && CountMatches(sides[|sides| - 1], sides[..|sides| - 1]) != 1
    ensures !PerfectlyMatched(sides)
  {
    var n := |sides| - 1;
    assert sides == sides[..n] + [sides[n]];
    CountConcat(sides[n], sides[..n], [sides[n]]);
    CountOne(sides[n], sides[n]);
    assert CountMatches(sides[n], sides) != 1;
  }

  // ----- The pairs are determined by the sides, not by their order -----

  /** A primary side of the list with its matching foreign side of the list. */
  predicate IsPair(sides: seq<Side>, pair: (Side, Side)) {
    pair.0 in sides && pair.1 in sides && pair.0.role == PrimaryTable && Matches(pair.0, pair.1)
  }

  lemma {:induction false} PairsAreExactly(sides: seq<Side>, pair: (Side, Side))
    requires PairUp(sides).Accepted?
    ensures multiset(PairUp(sides).value)[pair] == if IsPair(sides, pair) then 1 else 0
    decreases |sides|
  {
    hide Matches, MatchingPositions, Round, RemoveAt, IsPair;
    if sides == [] {
      NoPair(pair);
    } else {
      var n := |sides| - 1;
      RoundOf(sides);
      var m := MatchingPositions(sides[n], sides[..n])[0];
      var left := RemoveAt(sides[..n], m);
      PairingSucceedsExactly(left);
      PairsAreExactly(left, pair);
      RoundFacts(sides, m, left);
      assert sides[..n][m] == sides[m];
      PairInRound(sides, m, left, pair);
    }
  }

  lemma NoPair(pair: (Side, Side))
    ensures !IsPair([], pair)
  {
  }

  lemma PairInRound(sides: seq<Side>, m: nat, left: seq<Side>, pair: (Side, Side))
    requires Round(sides, m, left) && PerfectlyMatched(left)
    ensures var formed := Ordered(sides[|sides| - 1], sides[m]);
            && (IsPair(sides, pair) <==> IsPair(left, pair) || pair == formed)
            && !IsPair(left, formed)
  {
    hide CountMatches, Round, PerfectlyMatched;
    RoundFacts(sides, m, left);
    var first, second := sides[|sides| - 1], sides[m];
    InRound(sides, m, left, pair.0);
    InRound(sides, m, left, pair.1);
    InRound(sides, m, left, first);
    InRound(sides, m, left, second);
    if pair.0 in left {
      FirstIsDone(sides, m, left, pair.0);
      SecondIsDone(sides, m, left, pair.0);
    }
    if pair.1 in left {
      FirstIsDone(sides, m, left, pair.1);
      SecondIsDone(sides, m, left, pair.1);
    }
    if first in left {
      SecondIsDone(sides, m, left, first);
    }
    if second in left {
      FirstIsDone(sides, m, left, second);
    }
  }

  /** The same sides in any order form the same pairs. */
  lemma PairsOrderIndependent(s: seq<Side>, t: seq<Side>)
    requires multiset(s) == multiset(t)
    ensures PairUp(s).Accepted? == PairUp(t).Accepted?
    ensures PairUp(s).Accepted? ==> multiset(PairUp(s).value) == multiset(PairUp(t).value)
  {
    hide PairUp, CountMatches;
    PairingSucceedsExactly(s);
    PairingSucceedsExactly(t);
    if PerfectlyMatched(s) {
      PerfectionRearranged(s, t);
    }
    if PerfectlyMatched(t) {
      PerfectionRearranged(t, s);
    }
    if PairUp(s).Accepted? {
      forall pair ensures multiset(PairUp(s).value)[pair] == multiset(PairUp(t).value)[pair] {
        PairsAreExactly(s, pair);
        PairsAreExactly(t, pair);
        assert pair.0 in s <==> pair.0 in multiset(t);
        assert pair.1 in s <==> pair.1 in multiset(t);
      }
    }
  }

  lemma PerfectionRearranged(s: seq<Side>, t: seq<Side>)
    requires multiset(s) == multiset(t) && PerfectlyMatched(s)
    ensures PerfectlyMatched(t)
  {
    hide CountMatches;
    forall i | 0 <= i < |t| ensures CountMatches(t[i], t) == 1 {
      assert t[i] in multiset(s);
      var j :| 0 <= j < |s| && s[j] == t[i];
      assert CountMatches(s[j], s) == 1;
      CountRearranged(t[i], s, t);
    }
  }

  lemma {:induction false} CountRearranged(side: Side, s: seq<Side>, t: seq<Side>)
    requires multiset(s) == multiset(t)
    ensures CountMatches(side, s) == CountMatches(side, t)
    decreases |s|
  {
    hide Matches, CountMatches, RemoveAt;
    assert |s| == |multiset(s)| == |multiset(t)| == |t|;
    if s == [] {
      assert s == t;
    } else {
      var n := |s| - 1;
      assert s[n] in multiset(t);
      var j: nat :| j < |t| && t[j] == s[n];
      RemoveKeeps(s, n);
      RemoveKeeps(t, j);
      CountRearranged(side, RemoveAt(s, n), RemoveAt(t, j));
      CountRemove(side, s, n);
      CountRemove(side, t, j);
    }
  }

  // ----- What the caller receives -----

  /** Both members of every pair, in one list. */
  function Members(pairs: seq<(Side, Side)>): (r: seq<Side>) {
    if pairs == [] then [] else [pairs[0].0, pairs[0].1] + Members(pairs[1..])
  }

  lemma MembersCons(a: Side, b: Side, pairs: seq<(Side, Side)>)
    ensures multiset(Members([Ordered(a, b)] + pairs)) == multiset(Members(pairs)) + multiset{b} + multiset{a}
  {
    var pair := Ordered(a, b);
    assert ([pair] + pairs)[1..] == pairs;
    assert multiset([pair.0, pair.1]) == multiset{b} + multiset{a};
  }

  lemma LastKept(sides: seq<Side>)
    requires sides != []
    ensures multiset(sides) == multiset(sides[..|sides| - 1]) + multiset{sides[|sides| - 1]}
  {
    assert sides == sides[..|sides| - 1] + [sides[|sides| - 1]];
  }

  /** Every side of the input is used in exactly one pair. */
  lemma {:induction false} EverySideUsedOnce(sides: seq<Side>)
    requires PairUp(sides).Accepted?
    ensures multiset(Members(PairUp(sides).value)) == multiset(sides)
    decreases |sides|
  {
    hide Matches, MatchingPositions, RemoveAt, PairUp, Members;
    if sides == [] {
      NothingToPair();
    } else {
      FormsFirstPair(sides);
      var n := |sides| - 1;
      var m := MatchingPositions(sides[n], sides[..n])[0];
      EverySideUsedOnce(RemoveAt(sides[..n], m));
    }
  }

  lemma NothingToPair()
    ensures PairUp([]) == Accepted([]) && Members([]) == []
  {
  }

  lemma FormsFirstPair(sides: seq<Side>)
    requires sides != [] && PairUp(sides).Accepted?
    ensures var n := |sides| - 1;
            && |MatchingPositions(sides[n], sides[..n])| == 1
            && var m := MatchingPositions(sides[n], sides[..n])[0];
               var left := RemoveAt(sides[..n], m);
               && PairUp(left).Accepted?
               && multiset(sides) == multiset(left) + multiset{sides[..n][m]} + multiset{sides[n]}
               && multiset(Members(PairUp(sides).value))
                  == multiset(Members(PairUp(left).value)) + multiset{sides[..n][m]} + multiset{sides[n]}
  {
    hide Matches, MatchingPositions, RemoveAt, Members, Ordered;
    var n := |sides| - 1;
    var m := MatchingPositions(sides[n], sides[..n])[0];
    LastKept(sides);
    RemoveKeeps(sides[..n], m);
    MembersCons(sides[n], sides[..n][m], PairUp(RemoveAt(sides[..n], m)).value);
  }

  /** No field is dropped: a relationship lists every field of both of its sides, in order. */
  lemma NoFieldDropped(sides: seq<Side>, pair: (Side, Side))
    requires PairUp(sides).Accepted? && pair in PairUp(sides).value
    ensures var r := Build(pair);
            && |r.fields| == |pair.0.fields| == |pair.1.fields|
            && forall i :: 0 <= i < |r.fields| ==> r.fields[i] == (pair.0.fields[i], pair.1.fields[i])
  {
    hide PairUp;
    PairsAreExactly(sides, pair);
    assert multiset(PairUp(sides).value)[pair] > 0;
  }

  /** Two sides name each other's tables, one as primary and one as foreign, with alike fields and cascades. */
  ghost predicate Facing(primary: Side, foreign: Side) {
    && primary.role == PrimaryTable && foreign.role == ForeignTable
    && primary.relatedTable == foreign.tableRoot && foreign.relatedTable == primary.tableRoot
    && |primary.fields| == |foreign.fields|
    && primary.cascadeUpdates == foreign.cascadeUpdates && primary.cascadeDeletes == foreign.cascadeDeletes
  }

  /** The relationship carries the names of the foreign side, both tables, both field lists and the cascades. */
  ghost predicate Relates(r: Relationship, primary: Side, foreign: Side) {
    && r.name == foreign.name && r.table == primary.tableName && r.foreignTable == foreign.tableName
    && |r.fields| == |primary.fields| == |foreign.fields|
    && (forall i :: 0 <= i < |r.fields| ==> r.fields[i].0 == primary.fields[i] && r.fields[i].1 == foreign.fields[i])
    && r.attributes in {0, 256, 4096, 4352}
    && (r.attributes in {256, 4352} <==> foreign.cascadeUpdates)
    && (r.attributes in {4096, 4352} <==> foreign.cascadeDeletes)
  }

  /** The relationship of two facing sides of the list. */
  ghost predicate Formed(sides: seq<Side>, r: Relationship, primary: Side, foreign: Side) {
    primary in sides && foreign in sides && Facing(primary, foreign) && Relates(r, primary, foreign)
  }

  lemma BuildRelates(r: Relationship, primary: Side, foreign: Side)
    requires Facing(primary, foreign)
    ensures r == Build((primary, foreign)) <==> Relates(r, primary, foreign)
  {
    var made := Build((primary, foreign));
    if Relates(r, primary, foreign) {
      forall i | 0 <= i < |r.fields| ensures r.fields[i] == made.fields[i] {
      }
      assert r.fields == made.fields;
    }
  }

  lemma FacingIsPair(sides: seq<Side>, primary: Side, foreign: Side)
    ensures IsPair(sides, (primary, foreign)) <==> primary in sides && foreign in sides && Facing(primary, foreign)
  {
  }

  /** The relationships are exactly those of two facing sides of the list. */
  lemma RelationshipsExactly(sides: seq<Side>, r: Relationship)
    requires PairRelationships(sides).Accepted?
    ensures r in PairRelationships(sides).value <==>
            exists primary, foreign :: Formed(sides, r, primary, foreign)
  {
    hide PairUp, SortBy, Build, Facing, Relates, IsPair;
    var pairs := PairUp(sides).value;
    var built := Map(pairs, Build);
    SortSorts(built, NameOf);
    assert r in multiset(SortBy(built, NameOf)) <==> r in SortBy(built, NameOf);
    assert r in multiset(built) <==> r in built;
    if r in built {
      var i: nat :| i < |built| && built[i] == r;
      var (primary, foreign) := pairs[i];
      assert pairs[i] in multiset(pairs);
      PairsAreExactly(sides, pairs[i]);
      FacingIsPair(sides, primary, foreign);
      BuildRelates(r, primary, foreign);
      assert Formed(sides, r, primary, foreign);
    }
    if primary, foreign :| Formed(sides, r, primary, foreign) {
      FacingIsPair(sides, primary, foreign);
      PairsAreExactly(sides, (primary, foreign));
      assert (primary, foreign) in multiset(pairs);
      var i: nat :| i < |pairs| && pairs[i] == (primary, foreign);
      BuildRelates(r, primary, foreign);
      assert built[i] == r;
    }
  }

  /** Relationships with one name stay in the order in which their pairs were formed. */
  lemma EqualNamesKeepOrder(sides: seq<Side>, name: seq<byte>)
    requires PairRelationships(sides).Accepted?
    ensures WithKey(PairRelationships(sides).value, NameOf, name)
            == WithKey(Map(PairUp(sides).value, Build), NameOf, name)
  {
    hide PairUp, SortBy, Build;
    SortStable(Map(PairUp(sides).value, Build), NameOf, name);
  }

  /**
   * The relationships are sorted by name, and the same sides in any order give the same relationships with
   * the same sequence of names.
   */
  lemma RelationshipsOrderIndependent(s: seq<Side>, t: seq<Side>)
    requires multiset(s) == multiset(t)
    ensures PairRelationships(s).Accepted? == PairRelationships(t).Accepted? == PerfectlyMatched(s)
    ensures PairRelationships(s).Accepted? ==>
              var a, b := PairRelationships(s).value, PairRelationships(t).value;
              SortedBy(a, NameOf) && multiset(a) == multiset(b) && Map(a, NameOf) == Map(b, NameOf)
  {
    hide PairUp, PerfectlyMatched, SortBy, Build;
    PairingSucceedsExactly(s);
    PairsOrderIndependent(s, t);
    if PairUp(s).Accepted? {
      var p, q := PairUp(s).value, PairUp(t).value;
      MapRearranged(p, q, Build);
      SortSorts(Map(p, Build), NameOf);
      SortSorts(Map(q, Build), NameOf);
      var a, b := PairRelationships(s).value, PairRelationships(t).value;
      MapRearranged(a, b, NameOf);
      SortedKeysAgree(a, b, NameOf);
    }
  }
}
