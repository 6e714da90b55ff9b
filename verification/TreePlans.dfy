/**
 * Planning of bulk-built index trees (`ScalarIndexPages::new` in crates/jet3/src/index/tree/builder.rs).
 *
 * Nodes are numbered leaves first and root last. Each node covers a contiguous range of records, a branch
 * covers a contiguous range of the level below, and a level is the range of its siblings. The planner packs
 * greedily and moves one child to the right when a single child would be left over; the main result is that
 * every plan is a tree: levels tile the records, every branch has at least two children and every node fits.
 */
module TreePlans {
  import opened Bytes
  import opened IndexNodes

  datatype Span = Span(start: nat, end: nat)

  datatype PlannedNode = PlannedNode(entries: Span, children: Span, siblings: Span)

  const CHILD_BYTES := 4
  const MAXIMUM_WIDTH := AREA_BYTES / 2 - CHILD_BYTES

  predicate WidthAllowed(record: seq<byte>) {
    5 <= |record| <= MAXIMUM_WIDTH
  }

  /** Bytes of the records from `a` up to `b`. */
  function LeafWidth(records: seq<seq<byte>>, a: nat, b: nat): (n: nat)
    requires a <= b <= |records|
  {
    if a == b then 0 else LeafWidth(records, a, b - 1) + |records[b - 1]|
  }

  /** The largest record below a node, which separates it from its right neighbour. */
  function Maximum(nodes: seq<PlannedNode>, records: seq<seq<byte>>, i: nat): (r: seq<byte>)
    requires i < |nodes| && 0 < nodes[i].entries.end <= |records|
  {
    records[nodes[i].entries.end - 1]
  }

  ghost predicate Bounded(nodes: seq<PlannedNode>, count: nat) {
    forall i :: 0 <= i < |nodes| ==> nodes[i].entries.start < nodes[i].entries.end <= count
  }

  /** Bytes of the separators and child pages of a branch over the children from `a` up to `b`. */
  ghost function BranchWidth(nodes: seq<PlannedNode>, records: seq<seq<byte>>, a: nat, b: nat): (n: nat)
    requires Bounded(nodes, |records|) && a < b <= |nodes|
  {
    if b == a + 1 then 0 else BranchWidth(nodes, records, a, b - 1) + |Maximum(nodes, records, b - 2)| + CHILD_BYTES
  }

  // ----- Plans that are trees -----

  /** The level below the one that starts at `start`. */
  function LevelBelow(nodes: seq<PlannedNode>, start: nat): (s: Span)
    requires start <= |nodes|
  {
    if start == 0 then Span(0, 0) else nodes[start - 1].siblings
  }

  /** A node within its level: where its entries begin and end, and where its neighbour goes on. */
  ghost predicate Placed(nodes: seq<PlannedNode>, count: nat, i: nat)
    requires i < |nodes|
  {
    var n, s := nodes[i], nodes[i].siblings;
    && s.start <= i < s.end <= |nodes|
    && (forall j :: s.start <= j < s.end ==> nodes[j].siblings == s)
    && n.entries.start <= n.entries.end <= count
    && (count > 0 ==> n.entries.start < n.entries.end)
    && (i == s.start ==> n.entries.start == 0)
    && (i + 1 < s.end ==> nodes[i + 1].entries.start == n.entries.end)
    && (i + 1 == s.end ==> n.entries.end == count)
  }

  /** A branch covers at least two consecutive nodes of the level below, and its level covers all of it. */
  ghost predicate Parent(nodes: seq<PlannedNode>, i: nat)
    requires i < |nodes|
  {
    var n, s := nodes[i], nodes[i].siblings;
    && 0 < s.start <= i < s.end <= |nodes|
    && var below := LevelBelow(nodes, s.start);
       && below.start <= n.children.start && n.children.start + 2 <= n.children.end <= below.end == s.start
       && (i == s.start ==> n.children.start == below.start)
       && (i + 1 < s.end ==> nodes[i + 1].children.start == n.children.end)
       && (i + 1 == s.end ==> n.children.end == below.end)
       && n.entries.start == nodes[n.children.start].entries.start
       && n.entries.end == nodes[n.children.end - 1].entries.end
  }

  ghost predicate NodeShaped(nodes: seq<PlannedNode>, count: nat, i: nat)
    requires i < |nodes|
  {
    && Placed(nodes, count, i)
    && if nodes[i].siblings.start == 0 then nodes[i].children == Span(0, 0) else Parent(nodes, i)
  }

  ghost predicate LevelsShaped(nodes: seq<PlannedNode>, count: nat) {
    && nodes != [] && nodes[|nodes| - 1].siblings.end == |nodes|
    && (forall i: nat :: i < |nodes| ==> NodeShaped(nodes, count, i))
    && (count == 0 ==> |nodes| == 1)
  }

  ghost predicate NodeFits(nodes: seq<PlannedNode>, records: seq<seq<byte>>, i: nat)
    requires i < |nodes|
  {
    var n := nodes[i];
    if n.children.start == n.children.end then
      n.entries.start <= n.entries.end <= |records| && LeafWidth(records, n.entries.start, n.entries.end) <= AREA_BYTES
    else
      && Bounded(nodes, |records|) && n.children.start < n.children.end <= |nodes|
      && BranchWidth(nodes, records, n.children.start, n.children.end) <= AREA_BYTES
  }

  /** A complete plan: shaped levels, one root, admissible records, and nodes that fit their pages. */
  ghost predicate Planned(nodes: seq<PlannedNode>, records: seq<seq<byte>>) {
    && LevelsShaped(nodes, |records|)
    && nodes[|nodes| - 1].siblings.start == |nodes| - 1
    && (forall i :: 0 <= i < |records| ==> WidthAllowed(records[i]))
    && (forall i: nat :: i < |nodes| ==> NodeFits(nodes, records, i))
  }

  // ----- Growing a plan -----

  lemma {:induction false} BranchWidthKept(nodes: seq<PlannedNode>, more: seq<PlannedNode>, records: seq<seq<byte>>,
                                           a: nat, b: nat)
    requires Bounded(nodes, |records|) && Bounded(more, |records|) && a < b <= |nodes| <= |more|
    requires forall i :: 0 <= i < |nodes| ==> more[i].entries == nodes[i].entries
    ensures BranchWidth(more, records, a, b) == BranchWidth(nodes, records, a, b)
  {
    if b > a + 1 {
      BranchWidthKept(nodes, more, records, a, b - 1);
    }
  }

  lemma ShapeKept(nodes: seq<PlannedNode>, more: seq<PlannedNode>, count: nat, i: nat)
    requires i < |nodes| <= |more| && NodeShaped(nodes, count, i)
    requires forall j :: 0 <= j < |nodes| ==> more[j] == nodes[j]
    ensures NodeShaped(more, count, i)
  {
    var s := nodes[i].siblings;
    assert forall j :: s.start <= j < s.end ==> more[j].siblings == nodes[j].siblings;
  }

  /** The nodes of a level in the making: consecutive entries, and the range each covers fits one leaf. */
  ghost predicate LeavesTile(nodes: seq<PlannedNode>, records: seq<seq<byte>>, first: nat) {
    && first <= |records|
    && (forall i: nat :: i < |nodes| ==> LeafTile(nodes, records, first, i))
    && first == (if nodes == [] then 0 else nodes[|nodes| - 1].entries.end)
  }

  ghost predicate LeafTile(nodes: seq<PlannedNode>, records: seq<seq<byte>>, first: nat, i: nat)
    requires i < |nodes| && first <= |records|
  {
    && nodes[i].children == Span(0, 0)
    && nodes[i].entries.start < nodes[i].entries.end <= first
    && LeafWidth(records, nodes[i].entries.start, nodes[i].entries.end) <= AREA_BYTES
    && nodes[i].entries.start == (if i == 0 then 0 else nodes[i - 1].entries.end)
  }

  /** Every leaf but the last is full: the next record would not fit. */
  ghost predicate Full(nodes: seq<PlannedNode>, records: seq<seq<byte>>, i: nat)
    requires i < |nodes|
  {
    var n := nodes[i];
    && n.entries.start <= n.entries.end < |records|
    && LeafWidth(records, n.entries.start, n.entries.end) + |records[n.entries.end]| > AREA_BYTES
  }

  function WithSiblings(nodes: seq<PlannedNode>, start: nat): (r: seq<PlannedNode>)
    requires start <= |nodes|
    ensures |r| == |nodes|
    ensures forall i :: 0 <= i < |r| ==>
              r[i] == if i < start then nodes[i] else nodes[i].(siblings := Span(start, |nodes|))
  {
    seq(|nodes|, i requires 0 <= i < |nodes| => if i < start then nodes[i]
        else nodes[i].(siblings := Span(start, |nodes|)))
  }

  /** A row of leaves is the first level. */
  lemma LeafLevel(nodes: seq<PlannedNode>, records: seq<seq<byte>>)
    requires LeavesTile(nodes, records, |records|) && nodes != []
    ensures var done := WithSiblings(nodes, 0);
            LevelsShaped(done, |records|) && forall i: nat :: i < |done| ==> NodeFits(done, records, i)
  {
    hide LeafWidth;
    var done := WithSiblings(nodes, 0);
    assert LeafTile(nodes, records, |records|, 0);
    forall i: nat | i < |done| ensures NodeShaped(done, |records|, i) && NodeFits(done, records, i) {
      assert LeafTile(nodes, records, |records|, i);
      if i + 1 < |nodes| {
        assert LeafTile(nodes, records, |records|, i + 1);
      }
    }
  }

  /** Parents made so far over the level `below`, up to its node `first`. */
  ghost predicate ParentsTile(nodes: seq<PlannedNode>, below: Span, first: nat) {
    && below.start < below.end <= |nodes| && below.start <= first <= below.end
    && (forall i: nat :: below.end <= i < |nodes| ==> ParentTile(nodes, below, first, i))
    && first == (if |nodes| == below.end then below.start else nodes[|nodes| - 1].children.end)
  }

  ghost predicate ParentTile(nodes: seq<PlannedNode>, below: Span, first: nat, i: nat)
    requires below.end <= i < |nodes| && first <= below.end
  {
    var c := nodes[i].children;
    && c.start + 2 <= c.end <= first
    && c.start == (if i == below.end then below.start else if i == 0 then 0 else nodes[i - 1].children.end)
    && nodes[i].entries == Span(nodes[c.start].entries.start, nodes[c.end - 1].entries.end)
  }

  lemma {:induction false} ChildrenOrdered(nodes: seq<PlannedNode>, below: Span, first: nat, i: nat)
    requires ParentsTile(nodes, below, first) && below.end <= i < |nodes|
    ensures below.start + 2 * (i - below.end) <= nodes[i].children.start
  {
    assert ParentTile(nodes, below, first, i);
    if i > below.end {
      ChildrenOrdered(nodes, below, first, i - 1);
      assert ParentTile(nodes, below, first, i - 1);
    }
  }

  lemma {:induction false} EntriesRun(nodes: seq<PlannedNode>, count: nat, a: nat, b: nat)
    requires forall i: nat :: i < |nodes| ==> NodeShaped(nodes, count, i)
    requires count > 0 && a <= b < |nodes| && nodes[a].siblings == nodes[b].siblings
    ensures nodes[a].entries.start <= nodes[b].entries.start && nodes[a].entries.end <= nodes[b].entries.end
    decreases b
  {
    hide Parent;
    assert NodeShaped(nodes, count, b);
    if a < b {
      assert NodeShaped(nodes, count, a);
      assert NodeShaped(nodes, count, b - 1);
      EntriesRun(nodes, count, a, b - 1);
    }
  }

  /** A finished row of parents is the next level. */
  lemma ParentLevel(nodes: seq<PlannedNode>, base: seq<PlannedNode>, count: nat, below: Span)
    requires LevelsShaped(base, count) && count > 0 && below == base[|base| - 1].siblings && base <= nodes
    requires ParentsTile(nodes, below, below.end) && |base| < |nodes|
    ensures LevelsShaped(WithSiblings(nodes, |base|), count)
  {
    hide NodeShaped;
    var done := WithSiblings(nodes, |base|);
    assert below.end == |base|;
    forall i: nat | i < |done| ensures NodeShaped(done, count, i) {
      if i < |base| {
        assert NodeShaped(base, count, i);
        ShapeKept(base, done, count, i);
      } else {
        ParentShaped(nodes, base, count, below, i);
      }
    }
  }

  lemma ParentShaped(nodes: seq<PlannedNode>, base: seq<PlannedNode>, count: nat, below: Span, i: nat)
    requires LevelsShaped(base, count) && count > 0 && below == base[|base| - 1].siblings && base <= nodes
    requires ParentsTile(nodes, below, below.end) && |base| <= i < |nodes|
    ensures NodeShaped(WithSiblings(nodes, |base|), count, i)
  {
    hide NodeShaped;
    var done := WithSiblings(nodes, |base|);
    var c := nodes[i].children;
    ChildrenOrdered(nodes, below, below.end, i);
    assert ParentTile(nodes, below, below.end, i);
    ChildPlaced(base, count, below, c.start);
    ChildPlaced(base, count, below, c.end - 1);
    EntriesRun(base, count, c.start, c.end - 1);
    assert done[i] == nodes[i].(siblings := Span(|base|, |nodes|));
    if i + 1 < |nodes| {
      NextParent(nodes, base, count, below, i);
    }
    assert Placed(done, count, i);
    assert Parent(done, i);
    JoinShape(done, count, i);
  }

  /** Neighbouring parents cover neighbouring children, so their entries meet. */
  lemma NextParent(nodes: seq<PlannedNode>, base: seq<PlannedNode>, count: nat, below: Span, i: nat)
    requires LevelsShaped(base, count) && count > 0 && below == base[|base| - 1].siblings && base <= nodes
    requires ParentsTile(nodes, below, below.end) && |base| <= i < |nodes| - 1
    ensures nodes[i + 1].children.start == nodes[i].children.end
    ensures nodes[i + 1].entries.start == nodes[i].entries.end
  {
    hide NodeShaped;
    assert ParentTile(nodes, below, below.end, i) && ParentTile(nodes, below, below.end, i + 1);
    ChildrenOrdered(nodes, below, below.end, i);
    ChildPlaced(base, count, below, nodes[i].children.end - 1);
  }

  lemma JoinShape(nodes: seq<PlannedNode>, count: nat, i: nat)
    requires i < |nodes| && Placed(nodes, count, i) && Parent(nodes, i)
    ensures NodeShaped(nodes, count, i)
  {
    hide Placed;
  }

  lemma ChildPlaced(base: seq<PlannedNode>, count: nat, below: Span, c: nat)
    requires LevelsShaped(base, count) && count > 0 && below == base[|base| - 1].siblings
    requires below.start <= c < below.end
    ensures c < |base| && Placed(base, count, c) && base[c].siblings == below && below.end == |base|
  {
    hide Parent;
    assert NodeShaped(base, count, |base| - 1);
    assert NodeShaped(base, count, c);
  }

  // ----- The planner -----

  lemma {:induction false} BranchWidthBound(nodes: seq<PlannedNode>, records: seq<seq<byte>>, a: nat, b: nat)
    requires Bounded(nodes, |records|) && a < b <= |nodes|
    requires forall i :: 0 <= i < |records| ==> WidthAllowed(records[i])
    ensures BranchWidth(nodes, records, a, b) <= AREA_BYTES / 2 * (b - a - 1)
  {
    if b > a + 1 {
      BranchWidthBound(nodes, records, a, b - 1);
      assert WidthAllowed(Maximum(nodes, records, b - 2));
    }
  }

  /**
   * The end of the next group of children: as many as fit, less one if a single child would remain.
   * Records fit a half page, so a group that stops early has room for at least two separators and can
   * always give one child away.
   */
  method GroupEnd(nodes: seq<PlannedNode>, records: seq<seq<byte>>, first: nat, limit: nat) returns (end: nat)
    requires Bounded(nodes, |records|) && first + 2 <= limit <= |nodes|
    requires forall i :: 0 <= i < |records| ==> WidthAllowed(records[i])
    ensures first + 2 <= end <= limit && limit - end != 1
    ensures BranchWidth(nodes, records, first, end) <= AREA_BYTES
    ensures end < limit ==>
              || BranchWidth(nodes, records, first, end + 1) > AREA_BYTES
              || (end + 2 == limit && BranchWidth(nodes, records, first, limit) > AREA_BYTES)
  {
    end := first + 1;
    var used := 0;
    while end < limit
      invariant first < end <= limit && used == BranchWidth(nodes, records, first, end) <= AREA_BYTES
    {
      var width := |Maximum(nodes, records, end - 1)| + CHILD_BYTES;
      if used + width > AREA_BYTES {
        break;
      }
      used := used + width;
      end := end + 1;
    }
    if end < limit {
      BranchWidthBound(nodes, records, first, end + 1);
      assert first + 3 <= end;
    }
    if limit - end == 1 {
      end := end - 1;
    }
  }

  lemma ShapedIsBounded(nodes: seq<PlannedNode>, count: nat)
    requires LevelsShaped(nodes, count) && count > 0
    ensures Bounded(nodes, count)
  {
    hide Parent;
    forall i | 0 <= i < |nodes| ensures nodes[i].entries.start < nodes[i].entries.end <= count {
      assert NodeShaped(nodes, count, i);
    }
  }

  /** One more parent over the children from `first` up to `end`. */
  lemma ParentPushed(nodes: seq<PlannedNode>, base: seq<PlannedNode>, count: nat, below: Span, first: nat, end: nat)
    requires LevelsShaped(base, count) && count > 0 && below == base[|base| - 1].siblings && base <= nodes
    requires ParentsTile(nodes, below, first) && Bounded(nodes, count) && first + 2 <= end <= below.end
    ensures var more := nodes
            + [PlannedNode(Span(nodes[first].entries.start, nodes[end - 1].entries.end), Span(first, end), Span(0, 0))];
            ParentsTile(more, below, end) && Bounded(more, count)
  {
    hide NodeShaped;
    var more := nodes
        + [PlannedNode(Span(nodes[first].entries.start, nodes[end - 1].entries.end), Span(first, end), Span(0, 0))];
    ChildPlaced(base, count, below, first);
    ChildPlaced(base, count, below, end - 1);
    EntriesRun(base, count, first, end - 1);
    forall i: nat | below.end <= i < |more| ensures ParentTile(more, below, end, i) {
      if i < |nodes| {
        assert ParentTile(nodes, below, first, i);
      }
    }
  }

  lemma FitKept(nodes: seq<PlannedNode>, more: seq<PlannedNode>, records: seq<seq<byte>>, i: nat)
    requires i < |nodes| <= |more| && NodeFits(nodes, records, i) && Bounded(more, |records|)
    requires forall j :: 0 <= j < |nodes| ==>
               more[j].entries == nodes[j].entries && more[j].children == nodes[j].children
    ensures NodeFits(more, records, i)
  {
    hide LeafWidth;
    var c := nodes[i].children;
    if c.start != c.end {
      BranchWidthKept(nodes, more, records, c.start, c.end);
    }
  }

  lemma AllFitKept(nodes: seq<PlannedNode>, more: seq<PlannedNode>, records: seq<seq<byte>>)
    requires |nodes| <= |more| && Bounded(more, |records|)
    requires forall i: nat :: i < |nodes| ==> NodeFits(nodes, records, i)
    requires forall j :: 0 <= j < |nodes| ==>
               more[j].entries == nodes[j].entries && more[j].children == nodes[j].children
    ensures forall i: nat :: i < |nodes| ==> NodeFits(more, records, i)
  {
    hide NodeFits;
    forall i: nat | i < |nodes| ensures NodeFits(more, records, i) {
      FitKept(nodes, more, records, i);
    }
  }

  /** The parent of a group fits its page. */
  lemma GroupFits(nodes: seq<PlannedNode>, more: seq<PlannedNode>, records: seq<seq<byte>>)
    requires |more| == |nodes| + 1 && nodes == more[..|nodes|] && Bounded(nodes, |records|) && Bounded(more, |records|)
    requires var c := more[|nodes|].children;
             c.start < c.end <= |nodes| && BranchWidth(nodes, records, c.start, c.end) <= AREA_BYTES
    ensures NodeFits(more, records, |nodes|)
  {
    hide LeafWidth;
    var c := more[|nodes|].children;
    BranchWidthKept(nodes, more, records, c.start, c.end);
  }

  lemma NoParents(nodes: seq<PlannedNode>, below: Span)
    requires below.start < below.end == |nodes|
    ensures ParentsTile(nodes, below, below.start)
  {
  }

  lemma SameBounds(nodes: seq<PlannedNode>, more: seq<PlannedNode>, count: nat)
    requires Bounded(nodes, count) && |more| == |nodes|
    requires forall i :: 0 <= i < |nodes| ==> more[i].entries == nodes[i].entries
    ensures Bounded(more, count)
  {
  }

  /** One branch has room for a whole level. */
  ghost predicate SpanFits(nodes: seq<PlannedNode>, records: seq<seq<byte>>, level: Span) {
    && Bounded(nodes, |records|) && level.start < level.end <= |nodes|
    && BranchWidth(nodes, records, level.start, level.end) <= AREA_BYTES
  }

  lemma {:induction false} BranchWidthGrows(nodes: seq<PlannedNode>, records: seq<seq<byte>>, a: nat, b: nat, c: nat)
    requires Bounded(nodes, |records|) && a < b <= c <= |nodes|
    ensures BranchWidth(nodes, records, a, b) <= BranchWidth(nodes, records, a, c)
  {
    if b < c {
      BranchWidthGrows(nodes, records, a, b, c - 1);
    }
  }

  /** A group is the whole level when the whole level fits. */
  lemma WholeGroup(base: seq<PlannedNode>, nodes: seq<PlannedNode>, records: seq<seq<byte>>, level: Span, first: nat,
                   end: nat)
    requires base <= nodes && Bounded(nodes, |records|) && level.end <= |base| && first < end <= level.end
    requires end < level.end ==>
               || BranchWidth(nodes, records, first, end + 1) > AREA_BYTES
               || BranchWidth(nodes, records, first, level.end) > AREA_BYTES
    ensures SpanFits(base, records, level) && first == level.start ==> end == level.end
  {
    if SpanFits(base, records, level) && first == level.start && end < level.end {
      BranchWidthKept(base, nodes, records, first, level.end);
      BranchWidthGrows(nodes, records, first, end + 1, level.end);
    }
  }

  /**
   * Greedy packing: every leaf but the last is full, and a row of leaves that fits under one branch has
   * that branch as its root.
   */
  ghost predicate GreedyPlan(nodes: seq<PlannedNode>, records: seq<seq<byte>>) {
    && nodes != []
    && var leaves := nodes[0].siblings;
       && leaves.start == 0 < leaves.end <= |nodes|
       && (forall i: nat :: i < leaves.end - 1 ==> Full(nodes, records, i))
       && (leaves.end > 1 && SpanFits(nodes, records, leaves) ==> |nodes| == leaves.end + 1)
  }

  lemma GreedyKept(nodes: seq<PlannedNode>, more: seq<PlannedNode>, records: seq<seq<byte>>, leaves: nat)
    requires 0 < leaves <= |nodes| < |more| && nodes <= more && nodes[0].siblings == Span(0, leaves)
    requires forall i: nat :: i < leaves - 1 ==> Full(nodes, records, i)
    requires Bounded(nodes, |records|) && Bounded(more, |records|)
    ensures more[0].siblings == Span(0, leaves) && forall i: nat :: i < leaves - 1 ==> Full(more, records, i)
    ensures leaves <= |nodes| ==> SpanFits(more, records, Span(0, leaves)) == SpanFits(nodes, records, Span(0, leaves))
  {
    hide LeafWidth, BranchWidth;
    forall i: nat | i < leaves - 1 ensures Full(more, records, i) {
      assert Full(nodes, records, i);
    }
    BranchWidthKept(nodes, more, records, 0, leaves);
  }

  // ----- How many nodes -----

  /** As many nodes as any plan over `count` records needs. */
  function NodeBound(count: nat): (n: nat) {
    if count == 0 then 1 else count
  }

  /** A leaf that is closed because the next record does not fit holds at least two records. */
  lemma FullHasTwo(records: seq<seq<byte>>, first: nat, end: nat)
    requires first < end < |records| && WidthAllowed(records[end - 1]) && WidthAllowed(records[end])
    requires LeafWidth(records, first, end) + |records[end]| > AREA_BYTES
    ensures first + 2 <= end
  {
    OneRecordWidth(records, first);
  }

  lemma OneRecordWidth(records: seq<seq<byte>>, a: nat)
    requires a < |records|
    ensures LeafWidth(records, a, a + 1) == |records[a]|
  {
    assert LeafWidth(records, a, a) == 0;
  }

  /** Each parent made so far took at least two children. */
  lemma ParentsSoFar(nodes: seq<PlannedNode>, below: Span, first: nat)
    requires ParentsTile(nodes, below, first)
    ensures 2 * (|nodes| - below.end) <= first - below.start
  {
    if |nodes| > below.end {
      ChildrenOrdered(nodes, below, first, |nodes| - 1);
      assert ParentTile(nodes, below, first, |nodes| - 1);
    }
  }

  class IndexPages {
    var nodes: seq<PlannedNode>

    constructor ()
      ensures nodes == []
    {
      nodes := [];
    }

    method Push(entries: Span, children: Span, maximum: nat) returns (ok: bool)
      modifies this
      ensures ok <==> |old(nodes)| != maximum
      ensures nodes == if ok then old(nodes) + [PlannedNode(entries, children, Span(0, 0))] else old(nodes)
    {
      if |nodes| == maximum {
        return false;
      }
      nodes := nodes + [PlannedNode(entries, children, Span(0, 0))];
      return true;
    }

    /** The leaves: records are packed until the next one would not fit. */
    method PlanLeaves(records: seq<seq<byte>>, maximum: nat) returns (ok: bool)
      requires nodes == []
      modifies this
      ensures |nodes| <= maximum
      ensures !ok ==>
                || (|nodes| == maximum && maximum < NodeBound(|records|))
                || exists i :: 0 <= i < |records| && !WidthAllowed(records[i])
      ensures ok ==>
                && 2 * |nodes| <= NodeBound(|records|) + 1
                && (forall i :: 0 <= i < |records| ==> WidthAllowed(records[i]))
                && LevelsShaped(nodes, |records|)
                && nodes[|nodes| - 1].siblings == Span(0, |nodes|)
                && (forall i: nat :: i < |nodes| ==> NodeFits(nodes, records, i))
                && (forall i: nat :: i < |nodes| - 1 ==> Full(nodes, records, i))
    {
      var first, used := 0, 0;
      for ordinal := 0 to |records|
        invariant first <= ordinal && (ordinal > 0 ==> first < ordinal)
        invariant used == LeafWidth(records, first, ordinal) <= AREA_BYTES
        invariant LeavesTile(nodes, records, first) && 2 * |nodes| <= first && |nodes| <= maximum
        invariant forall i: nat :: i < |nodes| ==> Full(nodes, records, i)
        invariant forall i :: 0 <= i < ordinal ==> WidthAllowed(records[i])
      {
        var width := |records[ordinal]|;
        if !(5 <= width <= MAXIMUM_WIDTH) {
          assert !WidthAllowed(records[ordinal]);
          return false;
        }
        if used + width > AREA_BYTES {
          ghost var before := nodes;
          FullHasTwo(records, first, ordinal);
          ok := Push(Span(first, ordinal), Span(0, 0), maximum);
          if !ok {
            return;
          }
          LeafPushed(before, records, first, ordinal);
          forall i: nat | i < |nodes| ensures Full(nodes, records, i) {
            assert i < |before| ==> Full(before, records, i);
          }
          first, used := ordinal, 0;
        }
        used := used + width;
      }
      ghost var before := nodes;
      ok := Push(Span(first, |records|), Span(0, 0), maximum);
      if !ok {
        return;
      }
      ghost var row := nodes;
      forall i: nat | i < |before| ensures Full(row, records, i) {
        assert Full(before, records, i);
      }
      if |records| > 0 {
        LeafPushed(before, records, first, |records|);
        LeafLevel(row, records);
      } else {
        EmptyLevel(before, records);
      }
      nodes := WithSiblings(nodes, 0);
      forall i: nat | i < |nodes| - 1 ensures Full(nodes, records, i) {
        assert Full(row, records, i);
      }
    }

    /** One level of parents over the level `previous`. */
    method PlanParents(records: seq<seq<byte>>, previous: Span, maximum: nat) returns (ok: bool)
      requires |records| > 0 && LevelsShaped(nodes, |records|) && previous == nodes[|nodes| - 1].siblings
      requires previous.start + 2 <= previous.end && forall i :: 0 <= i < |records| ==> WidthAllowed(records[i])
      requires forall i: nat :: i < |nodes| ==> NodeFits(nodes, records, i)
      modifies this
      ensures |old(nodes)| <= maximum ==> |nodes| <= maximum
      ensures !ok ==> |nodes| == maximum && 2 * (|nodes| - |old(nodes)|) + 2 <= previous.end - previous.start
      ensures ok ==>
                && LevelsShaped(nodes, |records|) && old(nodes) <= nodes
                && nodes[|nodes| - 1].siblings == Span(|old(nodes)|, |nodes|)
                && 0 < |nodes| - |old(nodes)| && 2 * (|nodes| - |old(nodes)|) <= previous.end - previous.start
                && (forall i: nat :: i < |nodes| ==> NodeFits(nodes, records, i))
                && (SpanFits(old(nodes), records, previous) ==> |nodes| == |old(nodes)| + 1)
    {
      hide NodeShaped, NodeFits, LeafWidth, LevelsShaped, BranchWidth, Maximum, ParentsTile, Bounded, SpanFits,
           WithSiblings;
      ghost var base := nodes;
      ShapedIsBounded(base, |records|);
      LastLevel(base, |records|);
      NoParents(base, previous);
      var first := previous.start;
      while first < previous.end
        invariant base <= nodes && Bounded(nodes, |records|) && ParentsTile(nodes, previous, first)
        invariant |base| <= maximum ==> |nodes| <= maximum
        invariant first == previous.end || first + 2 <= previous.end
        invariant first > previous.start ==> |nodes| > |base|
        invariant SpanFits(base, records, previous) ==>
                    (first == previous.start && |nodes| == |base|) || (first == previous.end && |nodes| == |base| + 1)
        invariant forall i: nat :: i < |nodes| ==> NodeFits(nodes, records, i)
        decreases previous.end - first
      {
        var end := GroupEnd(nodes, records, first, previous.end);
        WholeGroup(base, nodes, records, previous, first, end);
        var range := Span(nodes[first].entries.start, nodes[end - 1].entries.end);
        ghost var before := nodes;
        ParentPushed(before, base, |records|, previous, first, end);
        ParentsSoFar(before, previous, first);
        ok := Push(range, Span(first, end), maximum);
        if !ok {
          return;
        }
        AllFitKept(before, nodes, records);
        GroupFits(before, nodes, records);
        first := end;
      }
      ghost var row := nodes;
      ParentsSoFar(row, previous, previous.end);
      ParentLevel(row, base, |records|, previous);
      nodes := WithSiblings(nodes, previous.end);
      SameBounds(row, nodes, |records|);
      AllFitKept(row, nodes, records);
      ok := true;
    }

    /**
     * `new`: leaves first, then level after level until one root remains. A limit of one node per record is
     * always enough, so a smaller limit or a record width is the only cause of failure.
     */
    method Plan(records: seq<seq<byte>>, maximum: nat) returns (ok: bool)
      requires nodes == []
      modifies this
      ensures ok ==> Planned(nodes, records) && GreedyPlan(nodes, records)
      ensures |nodes| <= maximum && (ok ==> |nodes| <= NodeBound(|records|))
      ensures !ok ==>
                || (|nodes| == maximum && maximum < NodeBound(|records|))
                || exists i :: 0 <= i < |records| && !WidthAllowed(records[i])
    {
      hide NodeShaped, NodeFits, LevelsShaped, Full, SpanFits;
      ok := PlanLeaves(records, maximum);
      if !ok {
        return;
      }
      LastLevel(nodes, |records|);
      FirstLevel(nodes, |records|);
      ghost var leaves := |nodes|;
      var previous := Span(0, |nodes|);
      while previous.end - previous.start > 1
        invariant LevelsShaped(nodes, |records|) && nodes != [] && previous == nodes[|nodes| - 1].siblings
        invariant previous.start < previous.end == |nodes| <= maximum
        invariant |nodes| + (previous.end - previous.start) <= NodeBound(|records|) + 1
        invariant |nodes| > 1 ==> |records| > 0
        invariant forall i: nat :: i < |nodes| ==> NodeFits(nodes, records, i)
        invariant 0 < leaves <= |nodes| && nodes[0].siblings == Span(0, leaves)
        invariant forall i: nat :: i < leaves - 1 ==> Full(nodes, records, i)
        invariant if |nodes| == leaves then previous == Span(0, leaves) else previous.start >= leaves
        invariant |nodes| > leaves && SpanFits(nodes, records, Span(0, leaves)) ==> |nodes| == leaves + 1
        decreases previous.end - previous.start
      {
        var start := |nodes|;
        ghost var before := nodes;
        ShapedIsBounded(before, |records|);
        ok := PlanParents(records, previous, maximum);
        if !ok {
          return;
        }
        ShapedIsBounded(nodes, |records|);
        GreedyKept(before, nodes, records, leaves);
        previous := Span(start, |nodes|);
      }
      ok := true;
    }
  }

  lemma FirstLevel(nodes: seq<PlannedNode>, count: nat)
    requires LevelsShaped(nodes, count) && nodes[|nodes| - 1].siblings == Span(0, |nodes|)
    ensures nodes[0].siblings == Span(0, |nodes|)
  {
    hide Parent;
    assert NodeShaped(nodes, count, |nodes| - 1);
  }

  /** Without records the plan is one empty leaf. */
  lemma EmptyLevel(before: seq<PlannedNode>, records: seq<seq<byte>>)
    requires records == [] && LeavesTile(before, records, 0)
    ensures before == []
    ensures LevelsShaped(WithSiblings([PlannedNode(Span(0, 0), Span(0, 0), Span(0, 0))], 0), 0)
  {
    assert before != [] ==> LeafTile(before, records, 0, 0);
    var only := WithSiblings([PlannedNode(Span(0, 0), Span(0, 0), Span(0, 0))], 0);
    assert NodeShaped(only, 0, 0);
  }

  lemma LastLevel(nodes: seq<PlannedNode>, count: nat)
    requires LevelsShaped(nodes, count)
    ensures nodes != [] && nodes[|nodes| - 1].siblings.start < nodes[|nodes| - 1].siblings.end == |nodes|
    ensures |nodes| > 1 ==> count > 0
  {
    hide Parent;
    assert NodeShaped(nodes, count, |nodes| - 1);
  }

  lemma LeafPushed(nodes: seq<PlannedNode>, records: seq<seq<byte>>, first: nat, end: nat)
    requires LeavesTile(nodes, records, first) && first < end <= |records|
    requires LeafWidth(records, first, end) <= AREA_BYTES
    ensures LeavesTile(nodes + [PlannedNode(Span(first, end), Span(0, 0), Span(0, 0))], records, end)
  {
    hide LeafWidth;
    var more := nodes + [PlannedNode(Span(first, end), Span(0, 0), Span(0, 0))];
    forall i: nat | i < |more| ensures LeafTile(more, records, end, i) {
      if i < |nodes| {
        assert LeafTile(nodes, records, first, i);
      }
    }
  }

  // ----- Records of nine bytes -----

  lemma {:induction false} NineByteWidth(records: seq<seq<byte>>, a: nat, b: nat)
    requires a <= b <= |records| && forall i :: 0 <= i < |records| ==> |records[i]| == 9
    ensures LeafWidth(records, a, b) == 9 * (b - a)
  {
    if a < b {
      NineByteWidth(records, a, b - 1);
    }
  }

  lemma {:induction false} NineByteBranch(nodes: seq<PlannedNode>, records: seq<seq<byte>>, a: nat, b: nat)
    requires Bounded(nodes, |records|) && a < b <= |nodes| && forall i :: 0 <= i < |records| ==> |records[i]| == 9
    ensures BranchWidth(nodes, records, a, b) == 13 * (b - a - 1)
  {
    if b > a + 1 {
      NineByteBranch(nodes, records, a, b - 1);
    }
  }

  /** Full leaves of nine-byte records hold exactly 200 of them. */
  lemma {:induction false} LeavesOf200(nodes: seq<PlannedNode>, records: seq<seq<byte>>, i: nat)
    requires Planned(nodes, records) && GreedyPlan(nodes, records)
    requires forall j :: 0 <= j < |records| ==> |records[j]| == 9
    requires i < nodes[0].siblings.end
    ensures nodes[i].entries.start == 200 * i
    ensures i + 1 < nodes[0].siblings.end ==> nodes[i].entries.end == 200 * (i + 1) < |records|
    ensures i + 1 == nodes[0].siblings.end ==> nodes[i].entries.end == |records| <= 200 * (i + 1)
  {
    hide Parent, LeafWidth, BranchWidth, SpanFits;
    assert NodeShaped(nodes, |records|, 0);
    assert NodeShaped(nodes, |records|, i);
    if i > 0 {
      assert NodeShaped(nodes, |records|, i - 1);
      LeavesOf200(nodes, records, i - 1);
    }
    var n := nodes[i].entries;
    assert NodeFits(nodes, records, i);
    NineByteWidth(records, n.start, n.end);
    if i + 1 < nodes[0].siblings.end {
      assert Full(nodes, records, i);
    }
  }

  /**
   * The declared depth boundaries: up to 200 nine-byte records plan one leaf, up to 27800 plan leaves under
   * one root, and more plan at least a third level.
   */
  lemma DeclaredDepths(nodes: seq<PlannedNode>, records: seq<seq<byte>>)
    requires Planned(nodes, records) && GreedyPlan(nodes, records)
    requires forall j :: 0 <= j < |records| ==> |records[j]| == 9
    ensures |nodes| == 1 <==> |records| <= 200
    ensures (|nodes| > 1 && LevelBelow(nodes, |nodes| - 1).start == 0) <==> 200 < |records| <= 27800
  {
    hide LeafWidth, BranchWidth, Full;
    var leaves := nodes[0].siblings.end;
    LeavesOf200(nodes, records, leaves - 1);
    assert NodeShaped(nodes, |records|, 0);
    var root := |nodes| - 1;
    assert NodeShaped(nodes, |records|, root);
    if |nodes| > 1 {
      assert NodeShaped(nodes, |records|, root - 1);
      assert NodeShaped(nodes, |records|, 1);
      LeavesOf200(nodes, records, 0);
      ShapedIsBounded(nodes, |records|);
      NineByteBranch(nodes, records, 0, leaves);
      var below := LevelBelow(nodes, root);
      if below.start == 0 {
        assert below == Span(0, leaves);
        assert NodeFits(nodes, records, root);
      } else {
        assert leaves <= below.start;
      }
    }
  }
}
