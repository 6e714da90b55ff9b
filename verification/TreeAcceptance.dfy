/**
 * Which files hold an index tree (`tree` in oracle/windows-dao/structure.py), said about the entries themselves: a
 * separator may be any value from the largest entry before it up to, but not including, the smallest one after it.
 *
 * So a separator stays valid when its entry is deleted, and the decoder counts it as stale without refusing it.
 */
module TreeAcceptance {
  import opened Bytes
  import opened DataPages
  import opened KeyEncoding
  import opened IndexNodes
  import opened IndexTrees

  // ----- Trees as they lie in a file -----

  /** The page of child `i`: the last four bytes of its entry, or the tail. */
  function NamedPage(node: Node, i: nat): (n: nat)
    requires i <= |node.entries|
  {
    if i < |node.entries| then ChildPage(node.entries[i]) else node.tail
  }

  ghost predicate AllAtMost(t: Tree, s: seq<byte>) {
    forall e :: e in LeafEntries(t) ==> AtMost(e, s)
  }

  ghost predicate AllAbove(t: Tree, s: seq<byte>) {
    forall e :: e in LeafEntries(t) ==> Less(s, e)
  }

  /** Every entry below child `k` is at most separator `k`, and every entry below the next child is larger. */
  ghost predicate Separated(t: Tree)
    requires |t.children| == |t.node.entries| + 1
  {
    forall k: nat :: k < |t.node.entries| ==>
      AllAtMost(t.children[k], Separator(t.node.entries[k]))
      && AllAbove(t.children[k + 1], Separator(t.node.entries[k]))
  }

  /** The pages from `t.page` on spell the tree `t`, whose leaves lie `h` levels below. */
  ghost predicate Spells(index: Index, t: Tree, depth: nat, h: nat)
    decreases t
  {
    && depth <= 32 && PageOf(index.data, t.page).Accepted?
    && DecodeNode(PageOf(index.data, t.page).value, depth, index.owner, index.fields) == Accepted(t.node)
    && if t.node.branch then
         && h > 0 && |t.children| == |t.node.entries| + 1
         && (forall i :: 0 <= i < |t.children| ==>
               && t.children[i].page == NamedPage(t.node, i) && LeafEntries(t.children[i]) != []
               && Spells(index, t.children[i], depth + 1, h - 1))
         && Separated(t)
       else h == 0 && t.children == []
  }

  // ----- Separators and ends of subtrees -----

  /** In a sorted subtree the ends bound every entry. */
  lemma EndsBound(t: Tree, fields: seq<Field>, e: seq<byte>)
    requires Sound(t, fields) && e in LeafEntries(t)
    ensures AtMost(Low(t), e) && AtMost(e, High(t))
  {
    hide Sound, LeafEntries, Low, High, Sorted;
    TraversalSorted(t, fields);
    var s := LeafEntries(t);
    var i: nat :| i < |s| && s[i] == e;
    SortedBounds(s, 0, i);
    SortedBounds(s, i, |s| - 1);
  }

  lemma EndsInside(t: Tree, fields: seq<Field>)
    requires Sound(t, fields) && LeafEntries(t) != []
    ensures Low(t) in LeafEntries(t) && High(t) in LeafEntries(t)
  {
    hide Sound, LeafEntries, Low, High, Sorted;
    TraversalSorted(t, fields);
  }

  lemma EmptyHasNone(t: Tree, fields: seq<Field>)
    requires Sound(t, fields)
    ensures IsEmpty(t) <==> LeafEntries(t) == []
  {
    hide Sound, LeafEntries, Low, High, Sorted;
    TraversalSorted(t, fields);
  }

  /** The check of the decoder on ends of subtrees is the statement about all entries. */
  lemma SeparatedExactly(t: Tree, fields: seq<Field>)
    requires |t.children| == |t.node.entries| + 1
    requires forall i :: 0 <= i < |t.children| ==> Sound(t.children[i], fields)
    ensures ChildrenAccepted(t) <==>
            && (forall i :: 0 <= i < |t.children| ==> LeafEntries(t.children[i]) != [])
            && (forall i :: 0 <= i < |t.children| ==> Height(t.children[i]) == Height(t.children[0]))
            && Separated(t)
  {
    hide Sound, LeafEntries, Low, High, Height, Separator, IsEmpty, AtMost, Less, AllAtMost, AllAbove;
    forall i | 0 <= i < |t.children| ensures IsEmpty(t.children[i]) <==> LeafEntries(t.children[i]) == [] {
      EmptyHasNone(t.children[i], fields);
    }
    if forall i :: 0 <= i < |t.children| ==> LeafEntries(t.children[i]) != [] {
      forall k: nat | k < |t.node.entries|
        ensures AtMost(High(t.children[k]), Separator(t.node.entries[k]))
                <==> AllAtMost(t.children[k], Separator(t.node.entries[k]))
        ensures Less(Separator(t.node.entries[k]), Low(t.children[k + 1]))
                <==> AllAbove(t.children[k + 1], Separator(t.node.entries[k]))
      {
        AboveAll(t.children[k], fields, Separator(t.node.entries[k]));
        BelowAll(t.children[k + 1], fields, Separator(t.node.entries[k]));
      }
    }
  }

  lemma AboveAll(t: Tree, fields: seq<Field>, s: seq<byte>)
    requires Sound(t, fields) && LeafEntries(t) != []
    ensures AtMost(High(t), s) <==> AllAtMost(t, s)
  {
    hide Sound, LeafEntries, Low, High, AtMost;
    EndsInside(t, fields);
    if AtMost(High(t), s) {
      forall e | e in LeafEntries(t) ensures AtMost(e, s) {
        EndsBound(t, fields, e);
        AtMostTransitive(e, High(t), s);
      }
    }
  }

  lemma BelowAll(t: Tree, fields: seq<Field>, s: seq<byte>)
    requires Sound(t, fields) && LeafEntries(t) != []
    ensures Less(s, Low(t)) <==> AllAbove(t, s)
  {
    hide Sound, LeafEntries, Low, High, Less;
    EndsInside(t, fields);
    if Less(s, Low(t)) {
      forall e | e in LeafEntries(t) ensures Less(s, e) {
        EndsBound(t, fields, e);
        assert AtMost(s, Low(t));
        AtMostTransitive(s, Low(t), e);
      }
    }
  }

  // ----- Visiting a spelled tree -----

  lemma SpelledNode(index: Index, t: Tree, depth: nat, h: nat)
    requires Spells(index, t, depth, h)
    ensures depth <= 32 && PageOf(index.data, t.page).Accepted?
    ensures DecodeNode(PageOf(index.data, t.page).value, depth, index.owner, index.fields) == Accepted(t.node)
    ensures if t.node.branch then h > 0 && |t.children| == |t.node.entries| + 1 && Separated(t)
            else h == 0 && t.children == []
  {
    hide PageOf, DecodeNode, LeafEntries, Separated;
  }

  lemma SpelledChild(index: Index, t: Tree, depth: nat, h: nat, i: nat)
    requires Spells(index, t, depth, h) && i < |t.children|
    ensures t.node.branch && h > 0 && |t.children| == |t.node.entries| + 1
    ensures Spells(index, t.children[i], depth + 1, h - 1) && t.children[i].page == ChildPages(t.node)[i]
    ensures LeafEntries(t.children[i]) != []
  {
    hide PageOf, DecodeNode, LeafEntries, Separated;
  }

  lemma {:induction false} SpelledHeight(index: Index, t: Tree, depth: nat, h: nat)
    requires Spells(index, t, depth, h)
    ensures Height(t) == h
    decreases t
  {
    hide Spells, DecodeNode, PageOf, Separated, LeafEntries;
    SpelledNode(index, t, depth, h);
    if t.node.branch {
      SpelledChild(index, t, depth, h, 0);
      SpelledHeight(index, t.children[0], depth + 1, h - 1);
    }
  }

  /** A spelled tree is found by the visit from any set of other pages. */
  lemma {:induction false} SpelledIsVisited(index: Index, t: Tree, depth: nat, h: nat, seen: set<nat>)
    requires Spells(index, t, depth, h) && NoRepeats(Pages(t)) && forall p :: p in Pages(t) ==> p !in seen
    ensures Visit(index, t.page, depth, seen) == Accepted((t, seen + Elements(Pages(t))))
    decreases t, 1
  {
    hide DecodeNode, PageOf, ChildrenAccepted, Spells, VisitAll, Separated, LeafEntries;
    SpelledNode(index, t, depth, h);
    var below := PagesAll(t.children);
    assert Pages(t)[0] == t.page;
    if t.node.branch {
      assert t.children[..|t.children|] == t.children && ChildPages(t.node)[..|t.children|] == ChildPages(t.node);
      ConcatRepeats([t.page], below);
      SpelledAreVisited(index, t, depth, h, |t.children|, seen + {t.page});
      forall i | 0 <= i < |t.children|
        ensures Sound(t.children[i], index.fields) && LeafEntries(t.children[i]) != []
        ensures Height(t.children[i]) == Height(t.children[0])
      {
        SpelledChild(index, t, depth, h, i);
        SpelledChild(index, t, depth, h, 0);
        SpelledHeight(index, t.children[i], depth + 1, h - 1);
        SpelledHeight(index, t.children[0], depth + 1, h - 1);
        VisitAllSound(index, ChildPages(t.node), depth + 1, seen + {t.page});
      }
      SeparatedExactly(t, index.fields);
      assert seen + {t.page} + Elements(below) == seen + Elements(Pages(t));
      assert t == Tree(t.page, t.node, t.children);
    } else {
      assert Elements(Pages(t)) == {t.page};
    }
  }

  lemma ConcatRepeats(a: seq<nat>, b: seq<nat>)
    requires NoRepeats(a + b)
    ensures NoRepeats(a) && NoRepeats(b) && forall p :: p in b ==> p !in a
  {
    var s := a + b;
    assert forall i :: 0 <= i < |a| ==> s[i] == a[i];
    assert forall i :: 0 <= i < |b| ==> s[|a| + i] == b[i];
    forall i, j | 0 <= i < j < |b| ensures b[i] != b[j] {
      assert s[|a| + i] != s[|a| + j];
    }
    forall i, j | 0 <= i < |b| && 0 <= j < |a| ensures b[i] != a[j] {
      assert s[|a| + i] != s[j];
    }
  }

  lemma {:induction false} SpelledAreVisited(index: Index, t: Tree, depth: nat, h: nat, k: nat, seen: set<nat>)
    requires Spells(index, t, depth, h) && k <= |t.children| && |t.children| == |t.node.entries| + 1
    requires NoRepeats(PagesAll(t.children[..k])) && forall p :: p in PagesAll(t.children[..k]) ==> p !in seen
    ensures VisitAll(index, ChildPages(t.node)[..k], depth + 1, seen)
            == Accepted((t.children[..k], seen + Elements(PagesAll(t.children[..k]))))
    decreases t, 0, k
  {
    hide Visit, VisitAll, Spells, Pages, PagesAll, LeafEntries, Separated;
    var numbers, some := ChildPages(t.node)[..k], t.children[..k];
    if k == 0 {
      NothingVisited(index, depth + 1, seen);
      NothingFresh(seen);
      assert numbers == [] && some == [] && Elements(PagesAll(some)) == {};
      assert seen + {} == seen;
    } else {
      assert numbers == ChildPages(t.node)[..k - 1] + [ChildPages(t.node)[k - 1]];
      FirstChildren(t.children, k);
      var earlier, last := PagesAll(t.children[..k - 1]), t.children[k - 1];
      ConcatRepeats(earlier, Pages(last));
      SpelledAreVisited(index, t, depth, h, k - 1, seen);
      SpelledChild(index, t, depth, h, k - 1);
      SpelledIsVisited(index, last, depth + 1, h - 1, seen + Elements(earlier));
      OneMoreVisited(index, ChildPages(t.node)[..k - 1], ChildPages(t.node)[k - 1], depth + 1, seen);
      assert seen + Elements(earlier) + Elements(Pages(last)) == seen + Elements(PagesAll(some));
      assert t.children[..k - 1] + [last] == some;
    }
  }

  /** A visited tree is spelled by its pages. */
  lemma {:induction false} VisitedIsSpelled(index: Index, number: nat, depth: nat, seen: set<nat>)
    requires Visit(index, number, depth, seen).Accepted?
    ensures var t := Visit(index, number, depth, seen).value.0;
            t.page == number && Spells(index, t, depth, Height(t))
    decreases if depth > 32 then 0 else 33 - depth, 0
  {
    hide DecodeNode, PageOf, ChildrenAccepted, Visit, VisitAll, Separated, LeafEntries, Spells, Height;
    VisitUnfolds(index, number, depth, seen);
    var t := Visit(index, number, depth, seen).value.0;
    if t.node.branch {
      VisitedAreSpelled(index, ChildPages(t.node), depth + 1, seen + {number});
      VisitAllSound(index, ChildPages(t.node), depth + 1, seen + {number});
      SeparatedExactly(t, index.fields);
      BranchHeight(t);
      SpellsBranch(index, t, depth, Height(t));
    } else {
      SpellsLeaf(index, t, depth);
    }
  }

  lemma VisitUnfolds(index: Index, number: nat, depth: nat, seen: set<nat>)
    requires Visit(index, number, depth, seen).Accepted?
    ensures var t := Visit(index, number, depth, seen).value.0;
            && t.page == number && depth <= 32 && PageOf(index.data, number).Accepted?
            && DecodeNode(PageOf(index.data, number).value, depth, index.owner, index.fields) == Accepted(t.node)
            && (!t.node.branch ==> t.children == [])
            && (t.node.branch ==>
                  && VisitAll(index, ChildPages(t.node), depth + 1, seen + {number}).Accepted?
                  && t.children == VisitAll(index, ChildPages(t.node), depth + 1, seen + {number}).value.0
                  && |t.children| == |t.node.entries| + 1 && ChildrenAccepted(t))
  {
    hide DecodeNode, PageOf, ChildrenAccepted, VisitAll;
  }

  lemma BranchHeight(t: Tree)
    requires t.children != []
    ensures Height(t) == Height(t.children[0]) + 1
  {
  }

  lemma SpellsLeaf(index: Index, t: Tree, depth: nat)
    requires depth <= 32 && PageOf(index.data, t.page).Accepted? && !t.node.branch && t.children == []
    requires DecodeNode(PageOf(index.data, t.page).value, depth, index.owner, index.fields) == Accepted(t.node)
    ensures Spells(index, t, depth, Height(t))
  {
    hide DecodeNode, PageOf;
  }

  lemma SpellsBranch(index: Index, t: Tree, depth: nat, h: nat)
    requires depth <= 32 && PageOf(index.data, t.page).Accepted? && t.node.branch && h > 0
    requires DecodeNode(PageOf(index.data, t.page).value, depth, index.owner, index.fields) == Accepted(t.node)
    requires |t.children| == |t.node.entries| + 1 && Separated(t)
    requires forall i :: 0 <= i < |t.children| ==>
               && t.children[i].page == ChildPages(t.node)[i] && LeafEntries(t.children[i]) != []
               && Spells(index, t.children[i], depth + 1, h - 1)
    ensures Spells(index, t, depth, h)
  {
    hide DecodeNode, PageOf, LeafEntries, Separated;
  }

  lemma {:induction false} VisitedAreSpelled(index: Index, numbers: seq<nat>, depth: nat, seen: set<nat>)
    requires VisitAll(index, numbers, depth, seen).Accepted?
    ensures var ts := VisitAll(index, numbers, depth, seen).value.0;
            forall i :: 0 <= i < |ts| ==> ts[i].page == numbers[i] && Spells(index, ts[i], depth, Height(ts[i]))
    decreases if depth > 32 then 0 else 33 - depth, 1 + |numbers|
  {
    hide Visit, Spells, Height;
    if numbers != [] {
      var n := |numbers| - 1;
      VisitedAreSpelled(index, numbers[..n], depth, seen);
      VisitedIsSpelled(index, numbers[n], depth, VisitAll(index, numbers[..n], depth, seen).value.1);
    }
  }

  // ----- Sibling links -----

  /** Where the nodes of one depth stand in the visiting order. */
  function Positions(nodes: seq<Visited>, depth: nat): (r: seq<nat>) {
    if nodes == [] then []
    else
      var n := |nodes| - 1;
      Positions(nodes[..n], depth) + (if nodes[n].depth == depth then [n] else [])
  }

  lemma {:induction false} PositionsOfDepth(nodes: seq<Visited>, depth: nat)
    ensures var p, level := Positions(nodes, depth), AtDepth(nodes, depth);
            && |p| == |level| && (forall k :: 0 <= k < |p| ==> p[k] < |nodes| && level[k] == nodes[p[k]])
            && (forall k, l :: 0 <= k < l < |p| ==> p[k] < p[l])
            && (forall k :: 0 <= k < |p| ==> nodes[p[k]].depth == depth)
            && (forall i :: 0 <= i < |nodes| && nodes[i].depth == depth ==> i in p)
  {
    if nodes != [] {
      PositionsOfDepth(nodes[..|nodes| - 1], depth);
    }
  }

  /** Nodes `i` and `j` are neighbours at their depth. */
  ghost predicate Neighbours(nodes: seq<Visited>, i: nat, j: nat) {
    && i < j < |nodes| && nodes[i].depth == nodes[j].depth
    && forall k :: i < k < j ==> nodes[k].depth != nodes[i].depth
  }

  ghost predicate FirstOfDepth(nodes: seq<Visited>, i: nat) {
    i < |nodes| && forall k :: 0 <= k < i ==> nodes[k].depth != nodes[i].depth
  }

  ghost predicate LastOfDepth(nodes: seq<Visited>, i: nat) {
    i < |nodes| && forall k :: i < k < |nodes| ==> nodes[k].depth != nodes[i].depth
  }

  /** Neighbours at one depth name each other; the first and the last name page 0 on their outer side. */
  ghost predicate LinkedAcross(nodes: seq<Visited>) {
    && (forall i: nat, j: nat :: Neighbours(nodes, i, j) ==>
          nodes[i].node.next == nodes[j].page && nodes[j].node.previous == nodes[i].page)
    && (forall i: nat :: FirstOfDepth(nodes, i) ==> nodes[i].node.previous == 0)
    && (forall i: nat :: LastOfDepth(nodes, i) ==> nodes[i].node.next == 0)
  }

  ghost predicate WithinLimit(nodes: seq<Visited>) {
    forall i :: 0 <= i < |nodes| ==> nodes[i].depth <= 32
  }

  /** The level-by-level check of the decoder is the one on neighbours. */
  lemma SiblingsExactly(nodes: seq<Visited>)
    requires WithinLimit(nodes)
    ensures AllSiblingsAccepted(nodes) <==> LinkedAcross(nodes)
  {
    hide AtDepth, Positions;
    if AllSiblingsAccepted(nodes) {
      forall i: nat, j: nat | Neighbours(nodes, i, j)
        ensures nodes[i].node.next == nodes[j].page && nodes[j].node.previous == nodes[i].page
      {
        NeighboursInLevel(nodes, i, j);
      }
      forall i: nat | FirstOfDepth(nodes, i) ensures nodes[i].node.previous == 0 {
        EndsOfLevel(nodes, i);
      }
      forall i: nat | LastOfDepth(nodes, i) ensures nodes[i].node.next == 0 {
        EndsOfLevel(nodes, i);
      }
    }
    if LinkedAcross(nodes) {
      forall depth: nat, k: nat | depth <= 32 && k < |AtDepth(nodes, depth)|
        ensures LinkedAt(AtDepth(nodes, depth), k)
      {
        LevelLinked(nodes, depth, k);
      }
    }
  }

  lemma AreNeighbours(nodes: seq<Visited>, i: nat, j: nat)
    requires Neighbours(nodes, i, j)
    ensures i < j < |nodes| && nodes[i].depth == nodes[j].depth
  {
  }

  lemma NotBetween(nodes: seq<Visited>, i: nat, j: nat, q: nat)
    requires Neighbours(nodes, i, j) && i < q < j
    ensures nodes[q].depth != nodes[i].depth
  {
  }

  lemma NotBefore(nodes: seq<Visited>, i: nat, q: nat)
    requires FirstOfDepth(nodes, i) && q < i
    ensures nodes[q].depth != nodes[i].depth
  {
  }

  lemma NotAfter(nodes: seq<Visited>, i: nat, q: nat)
    requires LastOfDepth(nodes, i) && i < q < |nodes|
    ensures nodes[q].depth != nodes[i].depth
  {
  }

  lemma NeighboursInLevel(nodes: seq<Visited>, i: nat, j: nat)
    requires WithinLimit(nodes) && AllSiblingsAccepted(nodes) && Neighbours(nodes, i, j)
    ensures i < j < |nodes| && nodes[i].node.next == nodes[j].page && nodes[j].node.previous == nodes[i].page
  {
    hide AtDepth, Positions, Neighbours;
    AreNeighbours(nodes, i, j);
    var depth := nodes[i].depth;
    PositionsOfDepth(nodes, depth);
    var p, level := Positions(nodes, depth), AtDepth(nodes, depth);
    var k: nat :| k < |p| && p[k] == i;
    var l: nat :| l < |p| && p[l] == j;
    if k + 1 < l {
      NotBetween(nodes, i, j, p[k + 1]);
    }
    assert SiblingsAccepted(level) && LinkedAt(level, k) && LinkedAt(level, l);
  }

  lemma EndsOfLevel(nodes: seq<Visited>, i: nat)
    requires WithinLimit(nodes) && AllSiblingsAccepted(nodes) && i < |nodes|
    ensures FirstOfDepth(nodes, i) ==> nodes[i].node.previous == 0
    ensures LastOfDepth(nodes, i) ==> nodes[i].node.next == 0
  {
    hide AtDepth, Positions, FirstOfDepth, LastOfDepth;
    var depth := nodes[i].depth;
    PositionsOfDepth(nodes, depth);
    var p, level := Positions(nodes, depth), AtDepth(nodes, depth);
    var k: nat :| k < |p| && p[k] == i;
    assert SiblingsAccepted(level) && LinkedAt(level, k);
    if FirstOfDepth(nodes, i) && k > 0 {
      NotBefore(nodes, i, p[k - 1]);
    }
    if LastOfDepth(nodes, i) && k + 1 < |p| {
      NotAfter(nodes, i, p[k + 1]);
    }
  }

  lemma LevelLinked(nodes: seq<Visited>, depth: nat, k: nat)
    requires LinkedAcross(nodes) && k < |AtDepth(nodes, depth)|
    ensures LinkedAt(AtDepth(nodes, depth), k)
  {
    hide AtDepth, Positions, Neighbours, FirstOfDepth, LastOfDepth;
    PositionsOfDepth(nodes, depth);
    if k > 0 {
      NextInLevel(nodes, depth, k - 1);
    }
    if k + 1 < |AtDepth(nodes, depth)| {
      NextInLevel(nodes, depth, k);
    }
    EndsOfPositions(nodes, depth, k);
  }

  lemma EndsOfPositions(nodes: seq<Visited>, depth: nat, k: nat)
    requires k < |Positions(nodes, depth)|
    ensures k == 0 ==> FirstOfDepth(nodes, Positions(nodes, depth)[k])
    ensures k + 1 == |Positions(nodes, depth)| ==> LastOfDepth(nodes, Positions(nodes, depth)[k])
  {
    hide AtDepth, Positions;
    PositionsOfDepth(nodes, depth);
    var p := Positions(nodes, depth);
    forall m: nat | m < |nodes| && nodes[m].depth == depth
      ensures (k == 0 ==> p[k] <= m) && (k + 1 == |p| ==> m <= p[k])
    {
      var l: nat :| l < |p| && p[l] == m;
    }
  }

  lemma NextInLevel(nodes: seq<Visited>, depth: nat, k: nat)
    requires k + 1 < |Positions(nodes, depth)|
    ensures Neighbours(nodes, Positions(nodes, depth)[k], Positions(nodes, depth)[k + 1])
  {
    hide AtDepth, Positions;
    PositionsOfDepth(nodes, depth);
    var p := Positions(nodes, depth);
    forall m | p[k] < m < p[k + 1] ensures nodes[m].depth != depth {
      if nodes[m].depth == depth {
        var l: nat :| l < |p| && p[l] == m;
      }
    }
  }

  // ----- Exactly the accepted files -----

  /** The file holds the tree `t` at `root`: spelled, without a repeated page, linked at every depth. */
  ghost predicate Holds(index: Index, root: nat, t: Tree) {
    && t.page == root && NoRepeats(Pages(t)) && Spells(index, t, 1, Height(t))
    && LinkedAcross(Preorder(t, 1))
  }

  /** A tree that lies in the file is accepted, whatever its separators, and its entries are returned in order. */
  lemma HeldTreeReads(index: Index, root: nat, t: Tree)
    requires Holds(index, root, t)
    ensures ReadTree(index, root) == Accepted((Preorder(t, 1), LeafEntries(t)))
  {
    hide Visit, Spells, Preorder, LeafEntries, AllSiblingsAccepted, Height, Pages, OneLeafDepth, Sorted, LinkedAcross,
         Sound;
    SpelledIsVisited(index, t, 1, Height(t), {});
    VisitSound(index, root, 1, {});
    DepthsWithin(t, index.fields);
    SiblingsExactly(Preorder(t, 1));
    FinalChecksRedundant(index, root);
  }

  /** No node lies deeper than the leaves. */
  lemma DepthsWithin(t: Tree, fields: seq<Field>)
    requires Sound(t, fields) && 1 + Height(t) <= 32
    ensures WithinLimit(Preorder(t, 1))
  {
    hide Preorder, Sound, Height;
    forall i | 0 <= i < |Preorder(t, 1)| ensures Preorder(t, 1)[i].depth <= 32 {
      LeavesAtHeight(t, fields, 1, i);
    }
  }

  ghost predicate HoldsTree(index: Index, root: nat) {
    exists t :: Holds(index, root, t)
  }

  /** The decoder accepts exactly the files that hold a tree. */
  lemma ReadsExactly(index: Index, root: nat)
    ensures ReadTree(index, root).Accepted? <==> HoldsTree(index, root)
  {
    hide Visit, Spells, Preorder, LeafEntries, AllSiblingsAccepted, Height, Pages, OneLeafDepth, Sorted;
    if ReadTree(index, root).Accepted? {
      var found := Visit(index, root, 1, {}).value.0;
      FinalChecksRedundant(index, root);
      VisitedIsSpelled(index, root, 1, {});
      VisitSound(index, root, 1, {});
      DepthsWithin(found, index.fields);
      SiblingsExactly(Preorder(found, 1));
      assert Holds(index, root, found);
    }
    if HoldsTree(index, root) {
      var held :| Holds(index, root, held);
      HeldTreeReads(index, root, held);
    }
  }

  // ----- Deleting an entry leaves its separator behind -----

  /** The leaf `p` of the tree has lost its last entry `e`, which was not its only one. */
  ghost predicate Trimmed(t: Tree, u: Tree, p: nat, e: seq<byte>)
    decreases t
  {
    var n := |t.node.entries|;
    if t.children == [] then
      && t.page == p && n > 1 && t.node.entries[n - 1] == e
      && u == t.(node := t.node.(entries := t.node.entries[..n - 1]))
    else
      && u.page == t.page && u.node == t.node && |u.children| == |t.children|
      && exists i :: TrimmedChild(t, u, i, p, e)
  }

  /** Child `i` has lost the entry and the others are as before. */
  ghost predicate TrimmedChild(t: Tree, u: Tree, i: int, p: nat, e: seq<byte>)
    requires |u.children| == |t.children|
    decreases t, 0
  {
    && 0 <= i < |t.children| && Trimmed(t.children[i], u.children[i], p, e)
    && forall j :: 0 <= j < |t.children| && j != i ==> u.children[j] == t.children[j]
  }

  lemma {:induction false} TrimmedEntries(t: Tree, u: Tree, p: nat, e: seq<byte>)
    requires Trimmed(t, u, p, e)
    ensures LeafEntries(u) != [] && multiset(LeafEntries(u)) == multiset(LeafEntries(t)) - multiset{e}
    ensures forall x :: x in LeafEntries(u) ==> x in LeafEntries(t)
    ensures e in LeafEntries(t)
    decreases t, 1
  {
    if t.children == [] {
      var n := |t.node.entries|;
      assert t.node.entries == t.node.entries[..n - 1] + [e];
    } else {
      var i: nat :| TrimmedChild(t, u, i, p, e);
      TrimmedEntriesAll(t, u, i, p, e, |t.children|);
      assert t.children[..|t.children|] == t.children && u.children[..|t.children|] == u.children;
    }
    SameElements(LeafEntries(u), LeafEntries(t), e);
  }

  lemma SameElements(a: seq<seq<byte>>, b: seq<seq<byte>>, e: seq<byte>)
    requires multiset(a) == multiset(b) - multiset{e} && multiset(b)[e] > 0
    ensures e in b && forall x :: x in a ==> x in b
  {
    assert e in multiset(b);
    forall x | x in a ensures x in b {
      assert x in multiset(a);
      assert x in multiset(b);
    }
  }

  lemma LessByOne(a: seq<seq<byte>>, b: seq<seq<byte>>, c: seq<seq<byte>>, e: seq<byte>)
    requires multiset(a) == multiset(b) - multiset{e} && multiset(b)[e] > 0
    ensures multiset(a + c) == multiset(b + c) - multiset{e} && multiset(b + c)[e] > 0
    ensures multiset(c + a) == multiset(c + b) - multiset{e} && multiset(c + b)[e] > 0
  {
    var less, more, rest := multiset(a), multiset(b), multiset(c);
    assert multiset(a + c) == less + rest && multiset(b + c) == more + rest;
    assert multiset(c + a) == rest + less && multiset(c + b) == rest + more;
    MinusOne(less, more, rest, e);
  }

  lemma MinusOne(less: multiset<seq<byte>>, more: multiset<seq<byte>>, rest: multiset<seq<byte>>, e: seq<byte>)
    requires less == more - multiset{e} && more[e] > 0
    ensures less + rest == more + rest - multiset{e} && rest + less == rest + more - multiset{e}
    ensures (more + rest)[e] > 0 && (rest + more)[e] > 0
  {
  }

  lemma {:induction false} TrimmedEntriesAll(t: Tree, u: Tree, i: nat, p: nat, e: seq<byte>, k: nat)
    requires |u.children| == |t.children| && TrimmedChild(t, u, i, p, e) && k <= |t.children|
    ensures k <= i ==> LeafEntriesAll(u.children[..k]) == LeafEntriesAll(t.children[..k])
    ensures k > i ==>
              && LeafEntriesAll(u.children[..k]) != [] && multiset(LeafEntriesAll(t.children[..k]))[e] > 0
              && multiset(LeafEntriesAll(u.children[..k])) == multiset(LeafEntriesAll(t.children[..k])) - multiset{e}
    decreases t, 0, k
  {
    hide LeafEntries, LeafEntriesAll, Trimmed;
    if k == 0 {
      assert u.children[..0] == t.children[..0];
    } else {
      TrimmedEntriesAll(t, u, i, p, e, k - 1);
      FirstChildren(t.children, k);
      FirstChildren(u.children, k);
      var a, b := LeafEntriesAll(u.children[..k - 1]), LeafEntriesAll(t.children[..k - 1]);
      if k - 1 == i {
        TrimmedEntries(t.children[i], u.children[i], p, e);
        assert e in multiset(LeafEntries(t.children[i]));
        LessByOne(LeafEntries(u.children[i]), LeafEntries(t.children[i]), a, e);
      } else if k - 1 > i {
        LessByOne(a, b, LeafEntries(t.children[k - 1]), e);
      }
    }
  }

  lemma FirstChildren(ts: seq<Tree>, k: nat)
    requires 0 < k <= |ts|
    ensures LeafEntriesAll(ts[..k]) == LeafEntriesAll(ts[..k - 1]) + LeafEntries(ts[k - 1])
    ensures PagesAll(ts[..k]) == PagesAll(ts[..k - 1]) + Pages(ts[k - 1])
  {
    hide LeafEntries, Pages;
    assert ts[..k][..k - 1] == ts[..k - 1];
  }

  /** The file after the deletion: only page `p` changed, and it decodes to its node without the last entry. */
  ghost predicate LeafTrimmed(before: Index, after: Index, p: nat, e: seq<byte>) {
    && after.owner == before.owner && after.fields == before.fields
    && (forall q: nat :: q != p ==> PageOf(after.data, q) == PageOf(before.data, q))
    && PageOf(before.data, p).Accepted? && PageOf(after.data, p).Accepted?
    && forall depth: nat :: DecodesTrimmed(before, PageOf(before.data, p).value, PageOf(after.data, p).value, depth, e)
  }

  ghost predicate DecodesTrimmed(index: Index, was: Image, now: Image, depth: nat, e: seq<byte>) {
    var earlier, later := DecodeNode(was, depth, index.owner, index.fields),
        DecodeNode(now, depth, index.owner, index.fields);
    earlier.Accepted? && !earlier.value.branch ==>
      var n := |earlier.value.entries|;
      && n > 1 && earlier.value.entries[n - 1] == e
      && later == Accepted(earlier.value.(entries := earlier.value.entries[..n - 1]))
  }

  lemma {:induction false} PagesOfChild(ts: seq<Tree>, i: nat, q: nat)
    requires i < |ts| && q in Pages(ts[i])
    ensures q in PagesAll(ts)
    decreases |ts|
  {
    hide Pages;
    var n := |ts| - 1;
    if i < n {
      PagesOfChild(ts[..n], i, q);
    }
  }

  lemma {:induction false} ChildrenApart(ts: seq<Tree>, i: nat, j: nat, q: nat)
    requires i < |ts| && j < |ts| && i != j && NoRepeats(PagesAll(ts)) && q in Pages(ts[i])
    ensures q !in Pages(ts[j])
    decreases |ts|
  {
    hide Pages;
    var n := |ts| - 1;
    ConcatRepeats(PagesAll(ts[..n]), Pages(ts[n]));
    if i < n && j < n {
      ChildrenApart(ts[..n], i, j, q);
    } else if i < n {
      PagesOfChild(ts[..n], i, q);
    } else if q in Pages(ts[j]) {
      PagesOfChild(ts[..n], j, q);
    }
  }

  lemma {:induction false} ChildRepeats(ts: seq<Tree>, i: nat)
    requires i < |ts| && NoRepeats(PagesAll(ts))
    ensures NoRepeats(Pages(ts[i]))
    decreases |ts|
  {
    hide Pages;
    var n := |ts| - 1;
    ConcatRepeats(PagesAll(ts[..n]), Pages(ts[n]));
    if i < n {
      ChildRepeats(ts[..n], i);
    }
  }

  lemma {:induction false} TrimmedPage(t: Tree, u: Tree, p: nat, e: seq<byte>)
    requires Trimmed(t, u, p, e)
    ensures p in Pages(t)
    decreases t
  {
    if t.children != [] {
      var i: nat :| TrimmedChild(t, u, i, p, e);
      TrimmedPage(t.children[i], u.children[i], p, e);
      PagesOfChild(t.children, i, p);
    }
  }

  /** Subtrees without the page are spelled as before. */
  lemma {:induction false} SpelledElsewhere(before: Index, after: Index, t: Tree, p: nat, e: seq<byte>, depth: nat,
                                            h: nat)
    requires LeafTrimmed(before, after, p, e) && Spells(before, t, depth, h) && p !in Pages(t)
    ensures Spells(after, t, depth, h)
    decreases t
  {
    hide PageOf, DecodeNode, LeafEntries, Separated, DecodesTrimmed;
    assert Pages(t)[0] == t.page;
    forall i | 0 <= i < |t.children| ensures Spells(after, t.children[i], depth + 1, h - 1) {
      if p in Pages(t.children[i]) {
        PagesOfChild(t.children, i, p);
      }
      SpelledElsewhere(before, after, t.children[i], p, e, depth + 1, h - 1);
    }
  }

  lemma TrimmedBranch(t: Tree, u: Tree, p: nat, e: seq<byte>)
    requires Trimmed(t, u, p, e) && t.children != []
    ensures u.page == t.page && u.node == t.node && |u.children| == |t.children|
    ensures exists i: nat :: TrimmedChild(t, u, i, p, e)
    ensures Pages(t) == [t.page] + PagesAll(t.children)
  {
    var i :| TrimmedChild(t, u, i, p, e);
    var found: nat := i;
    assert TrimmedChild(t, u, found, p, e);
  }

  /** The trimmed tree is spelled by the new file, with every separator where it was. */
  lemma {:induction false} TrimmedIsSpelled(before: Index, after: Index, t: Tree, u: Tree, p: nat, e: seq<byte>,
                                            depth: nat, h: nat)
    requires LeafTrimmed(before, after, p, e) && Spells(before, t, depth, h)
    requires Trimmed(t, u, p, e) && NoRepeats(Pages(t))
    ensures Spells(after, u, depth, h)
    decreases t
  {
    hide PageOf, DecodeNode, LeafEntries, Separated, Spells, LeafTrimmed, Trimmed, Pages, PagesAll;
    SpelledNode(before, t, depth, h);
    if t.children == [] {
      TrimmedLeaf(before, after, t, u, p, e, depth, h);
    } else {
      TrimmedBranch(t, u, p, e);
      var i: nat :| TrimmedChild(t, u, i, p, e);
      ConcatRepeats([t.page], PagesAll(t.children));
      ChildRepeats(t.children, i);
      TrimmedPage(t.children[i], u.children[i], p, e);
      PagesOfChild(t.children, i, p);
      forall j | 0 <= j < |t.children|
        ensures Spells(after, u.children[j], depth + 1, h - 1) && u.children[j].page == t.children[j].page
        ensures LeafEntries(u.children[j]) != [] && t.children[j].page == ChildPages(t.node)[j]
        ensures forall x :: x in LeafEntries(u.children[j]) ==> x in LeafEntries(t.children[j])
      {
        SpelledChild(before, t, depth, h, j);
        if j == i {
          TrimmedIsSpelled(before, after, t.children[i], u.children[i], p, e, depth + 1, h - 1);
          TrimmedEntries(t.children[i], u.children[i], p, e);
          TrimmedRoot(t.children[i], u.children[i], p, e);
        } else {
          ChildrenApart(t.children, i, j, p);
          SpelledElsewhere(before, after, t.children[j], p, e, depth + 1, h - 1);
        }
      }
      StillSeparated(t, u);
      NodeKept(before, after, t, p, e, depth, h);
      SpellsBranch(after, u, depth, h);
    }
  }

  lemma StillSeparated(t: Tree, u: Tree)
    requires |t.children| == |u.children| == |t.node.entries| + 1 && u.node == t.node && Separated(t)
    requires forall j, x :: 0 <= j < |t.children| && x in LeafEntries(u.children[j]) ==> x in LeafEntries(t.children[j])
    ensures Separated(u)
  {
    hide LeafEntries, Separator, AtMost, Less;
    forall k: nat | k < |u.node.entries|
      ensures AllAtMost(u.children[k], Separator(u.node.entries[k]))
      ensures AllAbove(u.children[k + 1], Separator(u.node.entries[k]))
    {
      assert AllAtMost(t.children[k], Separator(t.node.entries[k]));
    }
  }

  lemma TrimmedLeaf(before: Index, after: Index, t: Tree, u: Tree, p: nat, e: seq<byte>, depth: nat, h: nat)
    requires LeafTrimmed(before, after, p, e) && Spells(before, t, depth, h)
    requires t.children == [] && Trimmed(t, u, p, e)
    ensures Spells(after, u, depth, h)
  {
    hide PageOf, DecodeNode, LeafEntries, Separated;
    assert DecodesTrimmed(before, PageOf(before.data, p).value, PageOf(after.data, p).value, depth, e);
  }

  lemma NodeKept(before: Index, after: Index, t: Tree, p: nat, e: seq<byte>, depth: nat, h: nat)
    requires LeafTrimmed(before, after, p, e) && Spells(before, t, depth, h) && t.page != p
    ensures depth <= 32 && PageOf(after.data, t.page).Accepted?
    ensures DecodeNode(PageOf(after.data, t.page).value, depth, after.owner, after.fields) == Accepted(t.node)
  {
    hide PageOf, DecodeNode, LeafEntries, Separated, DecodesTrimmed;
  }

  // ----- Pages and links of the trimmed tree -----

  /** The visited nodes with the same pages, depths and links. */
  ghost predicate SameLinks(a: seq<Visited>, b: seq<Visited>) {
    |a| == |b| && forall i :: 0 <= i < |a| ==>
      && a[i].page == b[i].page && a[i].depth == b[i].depth
      && a[i].node.previous == b[i].node.previous && a[i].node.next == b[i].node.next
  }

  lemma {:induction false} TrimmedLinks(t: Tree, u: Tree, p: nat, e: seq<byte>, depth: nat)
    requires Trimmed(t, u, p, e)
    ensures Pages(u) == Pages(t) && SameLinks(Preorder(t, depth), Preorder(u, depth)) && Height(u) == Height(t)
    decreases t, 1
  {
    if t.children != [] {
      var i: nat :| TrimmedChild(t, u, i, p, e);
      TrimmedLinksAll(t, u, i, p, e, depth, |t.children|);
      assert t.children[..|t.children|] == t.children && u.children[..|t.children|] == u.children;
      if i == 0 {
        TrimmedLinks(t.children[0], u.children[0], p, e, depth + 1);
      }
    }
  }

  lemma {:induction false} TrimmedLinksAll(t: Tree, u: Tree, i: nat, p: nat, e: seq<byte>, depth: nat, k: nat)
    requires |u.children| == |t.children| && TrimmedChild(t, u, i, p, e) && k <= |t.children|
    ensures PagesAll(u.children[..k]) == PagesAll(t.children[..k])
    ensures SameLinks(PreorderAll(t.children[..k], depth + 1), PreorderAll(u.children[..k], depth + 1))
    decreases t, 0, k
  {
    hide Pages, Preorder, Trimmed;
    if k > 0 {
      TrimmedLinksAll(t, u, i, p, e, depth, k - 1);
      assert u.children[..k][..k - 1] == u.children[..k - 1] && t.children[..k][..k - 1] == t.children[..k - 1];
      if k - 1 == i {
        TrimmedLinks(t.children[i], u.children[i], p, e, depth + 1);
      }
    }
  }

  lemma SameNeighbours(a: seq<Visited>, b: seq<Visited>)
    requires SameLinks(a, b) && LinkedAcross(a)
    ensures LinkedAcross(b)
  {
    forall i: nat, j: nat | Neighbours(b, i, j) ensures b[i].node.next == b[j].page && b[j].node.previous == b[i].page {
      assert Neighbours(a, i, j);
    }
    forall i: nat | FirstOfDepth(b, i) ensures b[i].node.previous == 0 {
      assert FirstOfDepth(a, i);
    }
    forall i: nat | LastOfDepth(b, i) ensures b[i].node.next == 0 {
      assert LastOfDepth(a, i);
    }
  }

  /**
   * Deleting the last entry of a leaf that keeps another one leaves an accepted tree accepted, although the separator
   * above it now exceeds everything below; the entries returned are the old ones without the deleted one.
   */
  lemma DeletionKeepsTree(before: Index, after: Index, root: nat, t: Tree, u: Tree, p: nat, e: seq<byte>)
    requires Holds(before, root, t) && Trimmed(t, u, p, e) && LeafTrimmed(before, after, p, e)
    ensures ReadTree(before, root) == Accepted((Preorder(t, 1), LeafEntries(t)))
    ensures ReadTree(after, root) == Accepted((Preorder(u, 1), LeafEntries(u)))
    ensures multiset(LeafEntries(u)) == multiset(LeafEntries(t)) - multiset{e} && e in LeafEntries(t)
  {
    hide Spells, Preorder, LeafEntries, AllSiblingsAccepted, Height, Pages, ReadTree, LeafTrimmed, Trimmed;
    HeldTreeReads(before, root, t);
    TrimmedIsSpelled(before, after, t, u, p, e, 1, Height(t));
    TrimmedEntries(t, u, p, e);
    TrimmedLinks(t, u, p, e, 1);
    TrimmedRoot(t, u, p, e);
    SameNeighbours(Preorder(t, 1), Preorder(u, 1));
    HeldTreeReads(after, root, u);
  }

  lemma TrimmedRoot(t: Tree, u: Tree, p: nat, e: seq<byte>)
    requires Trimmed(t, u, p, e)
    ensures u.page == t.page
  {
  }
}
