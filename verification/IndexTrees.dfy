/**
 * Complete index trees (`tree` in oracle/windows-dao/structure.py): the recursive visit with its local
 * checks, the sibling-chain check over each level and the final depth and order checks.
 *
 * The visit is stated as a function that returns the visited nodes as a tree; `TreeWalk` is the source's
 * form, a recursion that grows three lists. The results say what acceptance means: the traversal is
 * sorted, all leaves have one depth, descending by separators finds every entry and nothing else, and the
 * sibling links of the leaves spell the traversal.
 */
module IndexTrees {
  import opened Bytes
  import opened DataPages
  import opened KeyEncoding
  import opened KeyParsing
  import opened IndexNodes

  datatype Tree = Tree(page: nat, node: Node, children: seq<Tree>)

  // ----- One branch -----

  function Separator(entry: seq<byte>): (r: seq<byte>) {
    if |entry| >= 4 then entry[..|entry| - 4] else []
  }

  function ChildPage(entry: seq<byte>): (n: nat) {
    FromBigEndian(if |entry| >= 4 then entry[|entry| - 4..] else entry)
  }

  function ChildPages(node: Node): (r: seq<nat>)
    ensures |r| == |node.entries| + 1
  {
    seq(|node.entries|, i requires 0 <= i < |node.entries| => ChildPage(node.entries[i])) + [node.tail]
  }

  predicate IsEmpty(t: Tree) {
    t.children == [] && t.node.entries == []
  }

  /** The smallest entry of a nonempty subtree. */
  function Low(t: Tree): (r: seq<byte>) {
    if t.children != [] then Low(t.children[0]) else if t.node.entries == [] then [] else t.node.entries[0]
  }

  /** The largest entry of a nonempty subtree. */
  function High(t: Tree): (r: seq<byte>) {
    if t.children != [] then High(t.children[|t.children| - 1])
    else if t.node.entries == [] then [] else t.node.entries[|t.node.entries| - 1]
  }

  function Height(t: Tree): (n: nat) {
    if t.children == [] then 0 else Height(t.children[0]) + 1
  }

  /** No empty child, one height, and every separator between the entries on its two sides. */
  predicate ChildrenAccepted(t: Tree)
    requires |t.children| == |t.node.entries| + 1
  {
    && (forall i :: 0 <= i < |t.children| ==> !IsEmpty(t.children[i]))
    && (forall i :: 0 <= i < |t.children| ==> Height(t.children[i]) == Height(t.children[0]))
    && (forall i :: 0 <= i < |t.node.entries| ==>
          && AtMost(High(t.children[i]), Separator(t.node.entries[i]))
          && Less(Separator(t.node.entries[i]), Low(t.children[i + 1])))
  }

  // ----- The visit -----

  datatype Index = Index(data: seq<byte>, owner: nat, fields: seq<Field>)

  /** Visits the subtree at `number`; the second result is the set of pages seen so far. */
  function Visit(index: Index, number: nat, depth: nat, seen: set<nat>): (r: Result<(Tree, set<nat>)>)
    decreases if depth > 32 then 0 else 33 - depth, 0
  {
    if depth > 32 || number in seen then Rejected
    else
      var image :- PageOf(index.data, number);
      var node :- DecodeNode(image, depth, index.owner, index.fields);
      if !node.branch then Accepted((Tree(number, node, []), seen + {number}))
      else
        var below :- VisitAll(index, ChildPages(node), depth + 1, seen + {number});
        var t := Tree(number, node, below.0);
        if ChildrenAccepted(t) then Accepted((t, below.1)) else Rejected
  }

  /** Visits the given pages in order, threading the set of seen pages. */
  function VisitAll(index: Index, numbers: seq<nat>, depth: nat, seen: set<nat>): (r: Result<(seq<Tree>, set<nat>)>)
    ensures r.Accepted? ==> |r.value.0| == |numbers|
    decreases if depth > 32 then 0 else 33 - depth, 1 + |numbers|
  {
    if numbers == [] then Accepted(([], seen))
    else
      var earlier :- VisitAll(index, numbers[..|numbers| - 1], depth, seen);
      var last :- Visit(index, numbers[|numbers| - 1], depth, earlier.1);
      Accepted((earlier.0 + [last.0], last.1))
  }

  // ----- What was visited -----

  /** The record kept for one node. */
  datatype Visited = Visited(page: nat, depth: nat, node: Node, children: seq<nat>)

  function Record(t: Tree, depth: nat): (v: Visited) {
    Visited(t.page, depth, t.node, if t.children == [] then [] else ChildPages(t.node))
  }

  function Preorder(t: Tree, depth: nat): (r: seq<Visited>)
    decreases t, 1
  {
    [Record(t, depth)] + PreorderAll(t.children, depth + 1)
  }

  function PreorderAll(ts: seq<Tree>, depth: nat): (r: seq<Visited>)
    decreases ts, 0
  {
    if ts == [] then [] else PreorderAll(ts[..|ts| - 1], depth) + Preorder(ts[|ts| - 1], depth)
  }

  /** Leaf entries in traversal order. */
  function LeafEntries(t: Tree): (r: seq<seq<byte>>)
    decreases t, 1
  {
    if t.children == [] then t.node.entries else LeafEntriesAll(t.children)
  }

  function LeafEntriesAll(ts: seq<Tree>): (r: seq<seq<byte>>)
    decreases ts, 0
  {
    if ts == [] then [] else LeafEntriesAll(ts[..|ts| - 1]) + LeafEntries(ts[|ts| - 1])
  }

  // ----- Sound trees -----

  /** The local checks of every node of the tree. */
  ghost predicate Sound(t: Tree, fields: seq<Field>) {
    && Sorted(t.node.entries)
    && (t.node.branch <==> t.children != [])
    && (forall i :: 0 <= i < |t.node.entries| ==> WidthAccepted(t.node.entries[i], fields, t.node.branch))
    && (t.node.prefix == 0 ==> |Concat(t.node.entries)| <= AREA_BYTES)
    && (t.children != [] ==>
          && |t.children| == |t.node.entries| + 1
          && ChildrenAccepted(t)
          && forall i :: 0 <= i < |t.children| ==> Sound(t.children[i], fields))
  }

  /** Without common bytes the entries of a node lie end to end in its area. */
  lemma {:induction false} UncompressedLength(area: seq<byte>, start: nat, ends: seq<nat>)
    requires StrictlyIncreasing(ends) && forall i :: 0 <= i < |ends| ==> start <= ends[i] <= |area|
    ensures |ConcatHead(EntriesFrom(area, 0, start, ends))| == if ends == [] then 0 else ends[|ends| - 1] - start
    decreases |ends|
  {
    if ends != [] {
      UncompressedLength(area, ends[0], ends[1..]);
    }
  }

  function ConcatHead(parts: seq<seq<byte>>): (r: seq<byte>) {
    if parts == [] then [] else parts[0] + ConcatHead(parts[1..])
  }

  lemma {:induction false} ConcatHeadIsConcat(parts: seq<seq<byte>>)
    ensures ConcatHead(parts) == Concat(parts)
  {
    if |parts| > 1 {
      var n := |parts| - 1;
      ConcatHeadIsConcat(parts[1..]);
      ConcatHeadIsConcat(parts[..n]);
      ConcatHeadIsConcat(parts[1..][..n - 1]);
      assert parts[1..][..n - 1] == parts[..n][1..];
    } else if |parts| == 1 {
      assert parts[..0] == [] && parts[1..] == [];
    }
  }

  lemma DecodedNodeFits(image: Image, depth: nat, owner: nat, fields: seq<Field>)
    requires DecodeNode(image, depth, owner, fields).Accepted?
    ensures var node := DecodeNode(image, depth, owner, fields).value;
            && Sorted(node.entries)
            && (forall i :: 0 <= i < |node.entries| ==> WidthAccepted(node.entries[i], fields, node.branch))
            && (node.prefix == 0 ==> |Concat(node.entries)| <= AREA_BYTES)
  {
    hide Sorted, WidthAccepted, EndsFrom, EntriesFrom, Concat, U32;
    EndsFromIncrease(image, 0);
    var ends := Ends(image);
    if image[20] == 0 {
      UncompressedLength(image[AREA..], 0, ends);
      ConcatHeadIsConcat(EntriesFrom(image[AREA..], 0, 0, ends));
    }
  }

  /** The pages of a subtree. */
  function Pages(t: Tree): (r: seq<nat>)
    decreases t, 1
  {
    [t.page] + PagesAll(t.children)
  }

  function PagesAll(ts: seq<Tree>): (r: seq<nat>)
    decreases ts, 0
  {
    if ts == [] then [] else PagesAll(ts[..|ts| - 1]) + Pages(ts[|ts| - 1])
  }

  /** Pages visited while `seen` grew to `after`: each once and none of them seen before. */
  ghost predicate Fresh(pages: seq<nat>, seen: set<nat>, after: set<nat>) {
    NoRepeats(pages) && (forall i :: 0 <= i < |pages| ==> pages[i] !in seen) && after == seen + set p | p in pages
  }

  lemma FreshConcat(a: seq<nat>, b: seq<nat>, seen: set<nat>, middle: set<nat>, after: set<nat>)
    requires Fresh(a, seen, middle) && Fresh(b, middle, after)
    ensures Fresh(a + b, seen, after)
  {
    forall i, j | 0 <= i < j < |a + b| ensures (a + b)[i] != (a + b)[j] {
      if i < |a| <= j {
        assert a[i] in middle && b[j - |a|] !in middle;
      }
    }
  }

  lemma {:induction false} VisitSound(index: Index, number: nat, depth: nat, seen: set<nat>)
    requires Visit(index, number, depth, seen).Accepted?
    ensures var (t, after) := Visit(index, number, depth, seen).value;
            && Sound(t, index.fields) && t.page == number && Fresh(Pages(t), seen, after) && depth + Height(t) <= 32
    decreases if depth > 32 then 0 else 33 - depth, 0
  {
    hide DecodeNode, PageOf, ChildrenAccepted, Sorted, WidthAccepted, Concat;
    var image := PageOf(index.data, number).value;
    var node := DecodeNode(image, depth, index.owner, index.fields).value;
    DecodedNodeFits(image, depth, index.owner, index.fields);
    var t := Visit(index, number, depth, seen).value.0;
    assert Fresh([number], seen, seen + {number});
    if node.branch {
      VisitAllSound(index, ChildPages(node), depth + 1, seen + {number});
      FreshConcat([number], PagesAll(t.children), seen, seen + {number}, Visit(index, number, depth, seen).value.1);
    } else {
      assert Pages(t) == [number];
    }
  }

  lemma NothingFresh(seen: set<nat>)
    ensures PagesAll([]) == [] && Fresh([], seen, seen)
  {
  }

  lemma {:induction false} VisitAllSound(index: Index, numbers: seq<nat>, depth: nat, seen: set<nat>)
    requires VisitAll(index, numbers, depth, seen).Accepted?
    ensures var (ts, after) := VisitAll(index, numbers, depth, seen).value;
            && (forall i :: 0 <= i < |ts| ==>
                  Sound(ts[i], index.fields) && ts[i].page == numbers[i] && depth + Height(ts[i]) <= 32)
            && Fresh(PagesAll(ts), seen, after)
    decreases if depth > 32 then 0 else 33 - depth, 1 + |numbers|
  {
    hide Visit, Sound, Height, Fresh, Pages;
    if numbers == [] {
      NothingFresh(seen);
    } else {
      var n := |numbers| - 1;
      VisitAllSound(index, numbers[..n], depth, seen);
      var (earlier, middle) := VisitAll(index, numbers[..n], depth, seen).value;
      VisitSound(index, numbers[n], depth, middle);
      var (last, after) := Visit(index, numbers[n], depth, middle).value;
      var ts := earlier + [last];
      assert ts[..n] == earlier;
      FreshConcat(PagesAll(earlier), Pages(last), seen, middle, after);
    }
  }

  // ----- Sorted traversal -----

  /** Sorted, nonempty, and running from `low` to `high`. */
  ghost predicate SortedRange(s: seq<seq<byte>>, low: seq<byte>, high: seq<byte>) {
    Sorted(s) && s != [] && s[0] == low && s[|s| - 1] == high
  }

  lemma SortedRangeConcat(a: seq<seq<byte>>, b: seq<seq<byte>>, low: seq<byte>, middle: seq<byte>, next: seq<byte>,
                          high: seq<byte>)
    requires SortedRange(a, low, middle) && SortedRange(b, next, high) && AtMost(middle, next)
    ensures SortedRange(a + b, low, high)
  {
    var s := a + b;
    forall i | 0 <= i < |s| - 1 ensures AtMost(s[i], s[i + 1]) {
      if i + 1 < |a| {
        assert AtMost(a[i], a[i + 1]);
      } else if i >= |a| {
        assert AtMost(b[i - |a|], b[i - |a| + 1]);
      }
    }
  }

  lemma {:induction false} SortedBounds(s: seq<seq<byte>>, i: nat, j: nat)
    requires Sorted(s) && i <= j < |s|
    ensures AtMost(s[i], s[j])
  {
    if i < j {
      SortedBounds(s, i, j - 1);
      AtMostTransitive(s[i], s[j - 1], s[j]);
    }
  }

  /** The whole traversal of a sound subtree is sorted and runs from its lowest to its highest entry. */
  lemma {:induction false} TraversalSorted(t: Tree, fields: seq<Field>)
    requires Sound(t, fields)
    ensures if IsEmpty(t) then LeafEntries(t) == [] else SortedRange(LeafEntries(t), Low(t), High(t))
    decreases t, 1
  {
    if t.children != [] {
      TraversalSortedAll(t, fields, |t.children|);
      assert t.children[..|t.children|] == t.children;
    }
  }

  /** What the checks of a branch say about one child and the separator after it. */
  lemma ChildSound(t: Tree, fields: seq<Field>, j: nat)
    requires Sound(t, fields) && j < |t.children|
    ensures Sound(t.children[j], fields) && !IsEmpty(t.children[j]) && |t.children| == |t.node.entries| + 1
    ensures j < |t.node.entries| ==>
              && AtMost(High(t.children[j]), Separator(t.node.entries[j]))
              && Less(Separator(t.node.entries[j]), Low(t.children[j + 1]))
  {
    hide Low, High, Sorted, Less, Separator, IsEmpty, Height;
  }

  lemma {:induction false} TraversalSortedAll(t: Tree, fields: seq<Field>, k: nat)
    requires Sound(t, fields) && 0 < k <= |t.children|
    ensures SortedRange(LeafEntriesAll(t.children[..k]), Low(t.children[0]), High(t.children[k - 1]))
    decreases t, 0, k
  {
    hide Low, High, Sorted, LeafEntries, SortedRange, Sound, Less, Separator, IsEmpty;
    var prefix := t.children[..k];
    assert prefix[..k - 1] == t.children[..k - 1];
    ChildSound(t, fields, k - 1);
    TraversalSorted(t.children[k - 1], fields);
    if k == 1 {
      assert LeafEntriesAll(prefix[..0]) == [];
      assert LeafEntriesAll(prefix) == LeafEntries(t.children[0]);
    } else {
      TraversalSortedAll(t, fields, k - 1);
      ChildSound(t, fields, k - 2);
      var separator := Separator(t.node.entries[k - 2]);
      AtMostTransitive(High(t.children[k - 2]), separator, Low(t.children[k - 1]));
      SortedRangeConcat(LeafEntriesAll(t.children[..k - 1]), LeafEntries(t.children[k - 1]),
                        Low(t.children[0]), High(t.children[k - 2]), Low(t.children[k - 1]), High(t.children[k - 1]));
    }
  }

  // ----- One leaf depth -----

  lemma ChildHeight(t: Tree, fields: seq<Field>, j: nat)
    requires Sound(t, fields) && j < |t.children|
    ensures Height(t) == Height(t.children[j]) + 1
  {
    hide Sorted, WidthAccepted, Low, High, Less, Separator, IsEmpty;
  }

  /** Leaves are exactly the visited nodes at the deepest level. */
  lemma {:induction false} LeavesAtHeight(t: Tree, fields: seq<Field>, depth: nat, i: nat)
    requires Sound(t, fields) && i < |Preorder(t, depth)|
    ensures var v := Preorder(t, depth)[i];
            if v.children == [] then v.depth == depth + Height(t) else v.depth < depth + Height(t)
    decreases t, 1
  {
    hide ChildPages, Sorted, WidthAccepted, Low, High;
    if i > 0 {
      assert t.children[..|t.children|] == t.children;
      LeavesAtHeightAll(t, fields, depth, |t.children|, i - 1);
    }
  }

  lemma {:induction false} LeavesAtHeightAll(t: Tree, fields: seq<Field>, depth: nat, k: nat, i: nat)
    requires Sound(t, fields) && k <= |t.children| && i < |PreorderAll(t.children[..k], depth + 1)|
    ensures var v := PreorderAll(t.children[..k], depth + 1)[i];
            if v.children == [] then v.depth == depth + Height(t) else v.depth < depth + Height(t)
    decreases t, 0, k
  {
    hide Sound, Height, Preorder, Sorted, Low, High, Separator, IsEmpty, Less;
    var prefix := t.children[..k];
    assert prefix[..k - 1] == t.children[..k - 1];
    ChildSound(t, fields, k - 1);
    ChildHeight(t, fields, k - 1);
    var earlier := PreorderAll(t.children[..k - 1], depth + 1);
    if i < |earlier| {
      LeavesAtHeightAll(t, fields, depth, k - 1, i);
    } else {
      LeavesAtHeight(t.children[k - 1], fields, depth + 1, i - |earlier|);
    }
  }

  // ----- Searching by separators -----

  /** The child to descend into: the first whose separator is not below `entry`, else the tail. */
  function Route(entries: seq<seq<byte>>, entry: seq<byte>): (r: nat)
    ensures r <= |entries|
    ensures r < |entries| ==> AtMost(entry, Separator(entries[r]))
    ensures forall i :: 0 <= i < r ==> !AtMost(entry, Separator(entries[i]))
  {
    if entries == [] || AtMost(entry, Separator(entries[0])) then 0 else 1 + Route(entries[1..], entry)
  }

  /** The leaf reached from `t` for `entry`. */
  function Descend(t: Tree, entry: seq<byte>): (leaf: Tree) {
    if |t.children| != |t.node.entries| + 1 then t else Descend(t.children[Route(t.node.entries, entry)], entry)
  }

  lemma {:induction false} MemberOfAll(ts: seq<Tree>, entry: seq<byte>)
    ensures entry in LeafEntriesAll(ts) <==> exists i :: 0 <= i < |ts| && entry in LeafEntries(ts[i])
  {
    hide LeafEntries;
    if ts != [] {
      MemberOfAll(ts[..|ts| - 1], entry);
    }
  }

  lemma MemberBounds(t: Tree, fields: seq<Field>, entry: seq<byte>)
    requires Sound(t, fields) && entry in LeafEntries(t)
    ensures AtMost(Low(t), entry) && AtMost(entry, High(t))
  {
    hide Low, High, LeafEntries, Sound;
    TraversalSorted(t, fields);
    var s := LeafEntries(t);
    var i :| 0 <= i < |s| && s[i] == entry;
    SortedBounds(s, 0, i);
    SortedBounds(s, i, |s| - 1);
  }

  lemma SeparatorsBracket(t: Tree, fields: seq<Field>, j: nat)
    requires Sound(t, fields) && t.children != [] && j < |t.node.entries|
    ensures |t.children| == |t.node.entries| + 1 && Sound(t.children[j], fields)
    ensures AtMost(Low(t.children[j]), High(t.children[j]))
    ensures AtMost(High(t.children[j]), Separator(t.node.entries[j]))
    ensures Less(Separator(t.node.entries[j]), Low(t.children[j + 1]))
  {
    hide Low, High, Less, Separator, Height, IsEmpty;
    TraversalSorted(t.children[j], fields);
    var s := LeafEntries(t.children[j]);
    SortedBounds(s, 0, |s| - 1);
  }

  /** Separators and children alternate strictly, so a later separator bounds every earlier subtree. */
  lemma {:induction false} ChildrenBelowSeparator(t: Tree, fields: seq<Field>, i: nat, j: nat)
    requires Sound(t, fields) && t.children != [] && i <= j < |t.node.entries|
    ensures AtMost(High(t.children[i]), Separator(t.node.entries[j]))
    ensures Less(Separator(t.node.entries[i]), Low(t.children[j + 1]))
    decreases j - i
  {
    hide Low, High, Sound, Less, Separator, ChildrenAccepted, IsEmpty, Height;
    SeparatorsBracket(t, fields, j);
    if i < j {
      ChildrenBelowSeparator(t, fields, i, j - 1);
      SeparatorsBracket(t, fields, j - 1);
      var before, after := Separator(t.node.entries[j - 1]), Separator(t.node.entries[j]);
      AtMostTransitive(Low(t.children[j]), High(t.children[j]), after);
      AtMostTransitive(before, Low(t.children[j]), after);
      AtMostTransitive(High(t.children[i]), before, after);
      AtMostTransitive(Separator(t.node.entries[i]), Low(t.children[j]), after);
      AtMostTransitive(Separator(t.node.entries[i]), after, Low(t.children[j + 1]));
    }
  }

  /** An entry lies in the child whose separators bracket it and in no other. */
  lemma BracketedChild(t: Tree, fields: seq<Field>, entry: seq<byte>, i: nat)
    requires Sound(t, fields) && t.children != [] && i < |t.children| && entry in LeafEntries(t.children[i])
    ensures i == Route(t.node.entries, entry)
  {
    hide Low, High, LeafEntries, Separator, Less, ChildrenAccepted, IsEmpty, Height, WidthAccepted, Concat;
    var j := Route(t.node.entries, entry);
    MemberBounds(t.children[i], fields, entry);
    LessIrreflexive(entry);
    if i < j {
      ChildrenBelowSeparator(t, fields, i, j - 1);
      AtMostTransitive(entry, High(t.children[i]), Separator(t.node.entries[j - 1]));
    } else if j < i {
      ChildrenBelowSeparator(t, fields, j, i - 1);
      AtMostTransitive(entry, Separator(t.node.entries[j]), Low(t.children[i]));
      AtMostTransitive(entry, Low(t.children[i]), entry);
    }
  }

  /** Searching an accepted tree finds an entry exactly when the traversal contains it. */
  lemma {:induction false} SearchCorrect(t: Tree, fields: seq<Field>, entry: seq<byte>)
    requires Sound(t, fields)
    ensures var leaf := Descend(t, entry);
            leaf.children == [] && (entry in LeafEntries(t) <==> entry in leaf.node.entries)
  {
    hide Low, High, Route;
    if t.children != [] {
      var j := Route(t.node.entries, entry);
      SearchCorrect(t.children[j], fields, entry);
      MemberOfAll(t.children, entry);
      if entry in LeafEntriesAll(t.children) {
        var i :| 0 <= i < |t.children| && entry in LeafEntries(t.children[i]);
        BracketedChild(t, fields, entry, i);
      }
    }
  }

  // ----- The complete reading -----

  function AtDepth(nodes: seq<Visited>, depth: nat): (r: seq<Visited>) {
    if nodes == [] then []
    else
      var last := nodes[|nodes| - 1];
      AtDepth(nodes[..|nodes| - 1], depth) + (if last.depth == depth then [last] else [])
  }

  /** A node of a level names its two neighbours, or page 0 where there is none. */
  predicate LinkedAt(level: seq<Visited>, i: nat)
    requires i < |level|
  {
    && level[i].node.previous == (if i > 0 then level[i - 1].page else 0)
    && level[i].node.next == (if i + 1 < |level| then level[i + 1].page else 0)
  }

  predicate SiblingsAccepted(level: seq<Visited>) {
    forall i: nat :: i < |level| ==> LinkedAt(level, i)
  }

  predicate AllSiblingsAccepted(nodes: seq<Visited>) {
    forall depth: nat :: depth <= 32 ==> SiblingsAccepted(AtDepth(nodes, depth))
  }

  predicate OneLeafDepth(nodes: seq<Visited>) {
    && (exists i :: 0 <= i < |nodes| && nodes[i].children == [])
    && forall i, j :: 0 <= i < |nodes| && 0 <= j < |nodes| && nodes[i].children == [] && nodes[j].children == [] ==>
         nodes[i].depth == nodes[j].depth
  }

  /** `tree`: the visited nodes and the leaf entries, after every check. */
  function ReadTree(index: Index, root: nat): (r: Result<(seq<Visited>, seq<seq<byte>>)>) {
    var visited :- Visit(index, root, 1, {});
    var nodes, entries := Preorder(visited.0, 1), LeafEntries(visited.0);
    if AllSiblingsAccepted(nodes) && OneLeafDepth(nodes) && Sorted(entries) then Accepted((nodes, entries))
    else Rejected
  }

  lemma {:induction false} PreorderEndsInLeaf(t: Tree, fields: seq<Field>, depth: nat)
    requires Sound(t, fields)
    ensures |Preorder(t, depth)| > 0 && Preorder(t, depth)[|Preorder(t, depth)| - 1].children == []
    decreases t
  {
    hide Sorted, WidthAccepted, Low, High;
    if t.children != [] {
      PreorderEndsInLeaf(t.children[|t.children| - 1], fields, depth + 1);
    }
  }

  /**
   * The depth and order checks at the end of the decoder can never fail: every tree that survives the
   * visit has one leaf depth and a sorted traversal, so only the sibling links remain to be checked.
   */
  lemma FinalChecksRedundant(index: Index, root: nat)
    ensures ReadTree(index, root).Accepted? <==>
              && Visit(index, root, 1, {}).Accepted?
              && AllSiblingsAccepted(Preorder(Visit(index, root, 1, {}).value.0, 1))
  {
    hide Visit, Preorder, LeafEntries, Sound, AllSiblingsAccepted, Height;
    if Visit(index, root, 1, {}).Accepted? {
      var t := Visit(index, root, 1, {}).value.0;
      VisitSound(index, root, 1, {});
      TraversalSorted(t, index.fields);
      PreorderEndsInLeaf(t, index.fields, 1);
      var nodes := Preorder(t, 1);
      forall i | 0 <= i < |nodes| && nodes[i].children == [] ensures nodes[i].depth == 1 + Height(t) {
        LeavesAtHeight(t, index.fields, 1, i);
      }
    }
  }

  // ----- Leaves and their chain -----

  function LeafRecords(t: Tree, depth: nat): (r: seq<Visited>)
    decreases t, 1
  {
    if t.children == [] then [Record(t, depth)] else LeafRecordsAll(t.children, depth)
  }

  function LeafRecordsAll(ts: seq<Tree>, depth: nat): (r: seq<Visited>)
    decreases ts, 0
  {
    if ts == [] then [] else LeafRecordsAll(ts[..|ts| - 1], depth) + LeafRecords(ts[|ts| - 1], depth)
  }

  function EntriesOf(level: seq<Visited>): (r: seq<seq<byte>>) {
    if level == [] then [] else EntriesOf(level[..|level| - 1]) + level[|level| - 1].node.entries
  }

  lemma {:induction false} EntriesOfConcat(a: seq<Visited>, b: seq<Visited>)
    ensures EntriesOf(a + b) == EntriesOf(a) + EntriesOf(b)
  {
    hide EntriesOf;
    EntriesOfNone();
    if b == [] {
      assert a + b == a;
    } else {
      var n := |b| - 1;
      var rest, last := b[..n], b[n];
      EntriesOfConcat(a, rest);
      EntriesOfSnoc(a + rest, last);
      EntriesOfSnoc(rest, last);
      assert a + b == a + rest + [last] && b == rest + [last];
    }
  }

  lemma EntriesOfNone()
    ensures EntriesOf([]) == []
  {
  }

  lemma EntriesOfSnoc(level: seq<Visited>, last: Visited)
    ensures EntriesOf(level + [last]) == EntriesOf(level) + last.node.entries
  {
    assert (level + [last])[..|level|] == level;
  }

  lemma {:induction false} LeafRecordsSpell(t: Tree, depth: nat)
    ensures EntriesOf(LeafRecords(t, depth)) == LeafEntries(t)
    decreases t, 1
  {
    if t.children == [] {
      assert [Record(t, depth)][..0] == [];
    } else {
      LeafRecordsSpellAll(t.children, depth);
    }
  }

  lemma {:induction false} LeafRecordsSpellAll(ts: seq<Tree>, depth: nat)
    ensures EntriesOf(LeafRecordsAll(ts, depth)) == LeafEntriesAll(ts)
    decreases ts, 0
  {
    hide LeafRecords, LeafEntries;
    if ts != [] {
      LeafRecordsSpellAll(ts[..|ts| - 1], depth);
      LeafRecordsSpell(ts[|ts| - 1], depth);
      EntriesOfConcat(LeafRecordsAll(ts[..|ts| - 1], depth), LeafRecords(ts[|ts| - 1], depth));
    }
  }

  lemma {:induction false} AtDepthConcat(a: seq<Visited>, b: seq<Visited>, depth: nat)
    ensures AtDepth(a + b, depth) == AtDepth(a, depth) + AtDepth(b, depth)
  {
    hide AtDepth;
    NothingAtDepth(depth);
    if b == [] {
      assert a + b == a;
    } else {
      var n := |b| - 1;
      var rest, last := b[..n], b[n];
      AtDepthConcat(a, rest, depth);
      AtDepthSnoc(a + rest, last, depth);
      AtDepthSnoc(rest, last, depth);
      assert a + b == a + rest + [last] && b == rest + [last];
    }
  }

  lemma AtDepthSnoc(nodes: seq<Visited>, last: Visited, depth: nat)
    ensures AtDepth(nodes + [last], depth) == AtDepth(nodes, depth) + (if last.depth == depth then [last] else [])
  {
    assert (nodes + [last])[..|nodes|] == nodes;
  }

  /** The deepest level of a sound tree is its leaves in traversal order. */
  lemma {:induction false} DeepestLevel(t: Tree, fields: seq<Field>, depth: nat)
    requires Sound(t, fields)
    ensures AtDepth(Preorder(t, depth), depth + Height(t)) == LeafRecords(t, depth + Height(t))
    decreases t, 1
  {
    hide Sorted, WidthAccepted, Low, High, ChildPages, AtDepth;
    var d := depth + Height(t);
    var head := [Record(t, depth)];
    SingleAtDepth(Record(t, depth), d);
    if t.children == [] {
      assert Preorder(t, depth) == head;
    } else {
      AtDepthConcat(head, PreorderAll(t.children, depth + 1), d);
      DeepestLevelAll(t, fields, depth, |t.children|);
      assert t.children[..|t.children|] == t.children;
    }
  }

  lemma {:induction false} DeepestLevelAll(t: Tree, fields: seq<Field>, depth: nat, k: nat)
    requires Sound(t, fields) && k <= |t.children|
    ensures AtDepth(PreorderAll(t.children[..k], depth + 1), depth + Height(t))
            == LeafRecordsAll(t.children[..k], depth + Height(t))
    decreases t, 0, k
  {
    hide Sound, Height, Sorted, Low, High, Preorder, LeafRecords, AtDepth, Separator, IsEmpty, Less;
    if k > 0 {
      var prefix := t.children[..k];
      assert prefix[..k - 1] == t.children[..k - 1];
      ChildSound(t, fields, k - 1);
      ChildHeight(t, fields, k - 1);
      DeepestLevelAll(t, fields, depth, k - 1);
      DeepestLevel(t.children[k - 1], fields, depth + 1);
      AtDepthConcat(PreorderAll(prefix[..k - 1], depth + 1), Preorder(prefix[k - 1], depth + 1), depth + Height(t));
    } else {
      assert AtDepth([], depth + Height(t)) == [] by {
        NothingAtDepth(depth + Height(t));
      }
    }
  }

  lemma SingleAtDepth(v: Visited, depth: nat)
    ensures AtDepth([v], depth) == if v.depth == depth then [v] else []
  {
    assert [v][..0] == [];
  }

  lemma NothingAtDepth(depth: nat)
    ensures AtDepth([], depth) == []
  {
  }

  lemma {:induction false} PreorderPages(t: Tree, depth: nat)
    ensures |Preorder(t, depth)| == |Pages(t)|
    ensures forall i :: 0 <= i < |Pages(t)| ==> Preorder(t, depth)[i].page == Pages(t)[i]
    decreases t, 1
  {
    PreorderPagesAll(t.children, depth + 1);
  }

  lemma {:induction false} PreorderPagesAll(ts: seq<Tree>, depth: nat)
    ensures |PreorderAll(ts, depth)| == |PagesAll(ts)|
    ensures forall i :: 0 <= i < |PagesAll(ts)| ==> PreorderAll(ts, depth)[i].page == PagesAll(ts)[i]
    decreases ts, 0
  {
    hide Preorder, Pages;
    if ts != [] {
      PreorderPagesAll(ts[..|ts| - 1], depth);
      PreorderPages(ts[|ts| - 1], depth);
    }
  }

  ghost predicate DistinctPages(nodes: seq<Visited>) {
    forall i, j :: 0 <= i < j < |nodes| ==> nodes[i].page != nodes[j].page
  }

  lemma {:induction false} AtDepthDistinct(nodes: seq<Visited>, depth: nat)
    requires DistinctPages(nodes)
    ensures DistinctPages(AtDepth(nodes, depth))
    ensures forall i :: 0 <= i < |AtDepth(nodes, depth)| ==> AtDepth(nodes, depth)[i] in nodes
  {
    if nodes != [] {
      AtDepthDistinct(nodes[..|nodes| - 1], depth);
    }
  }

  /** The visited node with the given page. */
  function Lookup(nodes: seq<Visited>, page: nat): (r: Result<Node>) {
    if nodes == [] then Rejected
    else if nodes[|nodes| - 1].page == page then Accepted(nodes[|nodes| - 1].node)
    else Lookup(nodes[..|nodes| - 1], page)
  }

  lemma {:induction false} LookupFinds(nodes: seq<Visited>, v: Visited)
    requires DistinctPages(nodes) && v in nodes
    ensures Lookup(nodes, v.page) == Accepted(v.node)
  {
    var n := |nodes| - 1;
    if nodes[n] != v {
      LookupFinds(nodes[..n], v);
    }
  }

  /** Entries found by following `next` from `page` until it is 0; `unread` stops a cyclic chain. */
  function Chain(nodes: seq<Visited>, page: nat, unread: set<nat>): (r: seq<seq<byte>>)
    decreases unread
  {
    var found := Lookup(nodes, page);
    if page !in unread || found.Rejected? then []
    else found.value.entries + (if found.value.next == 0 then [] else Chain(nodes, found.value.next, unread - {page}))
  }

  ghost predicate LinkedLevel(nodes: seq<Visited>, level: seq<Visited>) {
    && SiblingsAccepted(level) && DistinctPages(level) && DistinctPages(nodes)
    && forall i :: 0 <= i < |level| ==> level[i] in nodes
  }

  /** A chain runs from `i` to the first leaf after it that is page 0, or to the end. */
  lemma {:induction false} ChainSpells(nodes: seq<Visited>, level: seq<Visited>, i: nat, stop: nat, unread: set<nat>)
    requires LinkedLevel(nodes, level) && i < stop <= |level|
    requires forall k :: i < k < stop ==> level[k].page != 0
    requires stop < |level| ==> level[stop].page == 0
    requires forall k :: i <= k < |level| ==> level[k].page in unread
    ensures Chain(nodes, level[i].page, unread) == EntriesOf(level[i..stop])
    decreases stop - i
  {
    hide Lookup, EntriesOf, SiblingsAccepted;
    NextLinked(level, i);
    LookupFinds(nodes, level[i]);
    SingleEntries(level[i]);
    if i + 1 < stop {
      ChainSpells(nodes, level, i + 1, stop, unread - {level[i].page});
      EntriesOfConcat([level[i]], level[i + 1..stop]);
    }
    FirstOf(level, i, stop);
  }

  lemma NextLinked(level: seq<Visited>, i: nat)
    requires SiblingsAccepted(level) && i < |level|
    ensures level[i].node.next == if i + 1 < |level| then level[i + 1].page else 0
  {
    assert LinkedAt(level, i);
  }

  lemma FirstOf(level: seq<Visited>, i: nat, stop: nat)
    requires i < stop <= |level|
    ensures level[i..stop] == [level[i]] + level[i + 1..stop]
    ensures stop == i + 1 ==> level[i..stop] == [level[i]]
  {
  }

  lemma SingleEntries(v: Visited)
    ensures EntriesOf([v]) == v.node.entries
  {
    assert [v][..0] == [];
  }

  lemma {:induction false} LeavesNonempty(t: Tree, fields: seq<Field>, depth: nat, i: nat)
    requires Sound(t, fields) && !IsEmpty(t) && i < |LeafRecords(t, depth)|
    ensures LeafRecords(t, depth)[i].node.entries != []
    decreases t, 1
  {
    hide Sorted, WidthAccepted, Low, High;
    if t.children != [] {
      assert t.children[..|t.children|] == t.children;
      LeavesNonemptyAll(t, fields, depth, |t.children|, i);
    }
  }

  lemma {:induction false} LeavesNonemptyAll(t: Tree, fields: seq<Field>, depth: nat, k: nat, i: nat)
    requires Sound(t, fields) && k <= |t.children| && i < |LeafRecordsAll(t.children[..k], depth)|
    ensures LeafRecordsAll(t.children[..k], depth)[i].node.entries != []
    decreases t, 0, k
  {
    hide Sorted, WidthAccepted, Low, High;
    var prefix := t.children[..k];
    assert prefix[..k - 1] == t.children[..k - 1];
    var earlier := LeafRecordsAll(t.children[..k - 1], depth);
    if i < |earlier| {
      LeavesNonemptyAll(t, fields, depth, k - 1, i);
    } else {
      LeavesNonempty(t.children[k - 1], fields, depth, i - |earlier|);
    }
  }

  lemma LeafLevelLinked(index: Index, root: nat)
    requires ReadTree(index, root).Accepted?
    ensures var t := Visit(index, root, 1, {}).value.0;
            LinkedLevel(Preorder(t, 1), LeafRecords(t, 1 + Height(t))) && Sound(t, index.fields)
  {
    hide Visit, Preorder, LeafRecords, LeafEntries, Sound, SiblingsAccepted, AtDepth, Height, Pages;
    var t := Visit(index, root, 1, {}).value.0;
    VisitSound(index, root, 1, {});
    PreorderPages(t, 1);
    AtDepthDistinct(Preorder(t, 1), 1 + Height(t));
    DeepestLevel(t, index.fields, 1);
    assert SiblingsAccepted(AtDepth(Preorder(t, 1), 1 + Height(t)));
  }

  /** The leaves of a tree rooted at depth 1, left to right. */
  function Leaves(t: Tree): (r: seq<Visited>) {
    LeafRecords(t, 1 + Height(t))
  }

  /** Following `next` from the first leaf yields the recursive traversal. */
  predicate ChainIsTraversal(nodes: seq<Visited>, leaves: seq<Visited>, entries: seq<seq<byte>>) {
    leaves != [] && Chain(nodes, leaves[0].page, set v | v in leaves :: v.page) == entries
  }

  predicate LaterLeafIsPageZero(leaves: seq<Visited>) {
    exists i :: 0 < i < |leaves| && leaves[i].page == 0
  }

  lemma {:induction false} SomeLeaf(t: Tree, fields: seq<Field>, depth: nat)
    requires Sound(t, fields)
    ensures LeafRecords(t, depth) != []
    ensures IsEmpty(t) ==> |LeafRecords(t, depth)| == 1
    decreases t
  {
    hide Sorted, WidthAccepted, Low, High;
    if t.children != [] {
      SomeLeaf(t.children[|t.children| - 1], fields, depth);
    }
  }

  lemma ChainComplete(nodes: seq<Visited>, leaves: seq<Visited>)
    requires leaves != [] && LinkedLevel(nodes, leaves) && !LaterLeafIsPageZero(leaves)
    ensures ChainIsTraversal(nodes, leaves, EntriesOf(leaves))
  {
    hide Chain, EntriesOf, LinkedLevel;
    var unread := set v | v in leaves :: v.page;
    ChainSpells(nodes, leaves, 0, |leaves|, unread);
    assert leaves[0..|leaves|] == leaves;
  }

  lemma ChainCutShort(nodes: seq<Visited>, leaves: seq<Visited>, stop: nat)
    requires LinkedLevel(nodes, leaves) && 0 < stop < |leaves| && leaves[stop].page == 0
    requires leaves[stop].node.entries != []
    ensures !ChainIsTraversal(nodes, leaves, EntriesOf(leaves))
  {
    hide Chain, EntriesOf, SiblingsAccepted;
    forall k | 0 < k < stop ensures leaves[k].page != 0 {
      assert leaves[k].page != leaves[stop].page;
    }
    ChainSpells(nodes, leaves, 0, stop, set v | v in leaves :: v.page);
    PartOfEntries(leaves, stop);
  }

  lemma PartOfEntries(leaves: seq<Visited>, stop: nat)
    requires stop < |leaves| && leaves[stop].node.entries != []
    ensures |EntriesOf(leaves[0..stop])| < |EntriesOf(leaves)|
  {
    hide EntriesOf;
    EntriesOfConcat(leaves[0..stop], leaves[stop..]);
    assert leaves == leaves[0..stop] + leaves[stop..];
    EntriesOfConcat([leaves[stop]], leaves[stop + 1..]);
    assert leaves[stop..] == [leaves[stop]] + leaves[stop + 1..];
    SingleEntries(leaves[stop]);
  }

  /**
   * Following `next` from the first leaf of an accepted tree yields the recursive traversal exactly when
   * page 0 is not one of the later leaves (page 0 would end the chain early).
   */
  lemma LeafChainSpellsTraversal(index: Index, root: nat)
    requires ReadTree(index, root).Accepted?
    ensures var t := Visit(index, root, 1, {}).value.0;
            && ReadTree(index, root).value == (Preorder(t, 1), LeafEntries(t))
            && (ChainIsTraversal(Preorder(t, 1), Leaves(t), LeafEntries(t)) <==> !LaterLeafIsPageZero(Leaves(t)))
  {
    hide Visit, Preorder, LeafRecords, LeafEntries, Sound, Height, LinkedLevel, ChainIsTraversal, EntriesOf, Sorted;
    var t := Visit(index, root, 1, {}).value.0;
    var nodes, leaves := Preorder(t, 1), Leaves(t);
    LeafLevelLinked(index, root);
    LeafRecordsSpell(t, 1 + Height(t));
    SomeLeaf(t, index.fields, 1 + Height(t));
    if LaterLeafIsPageZero(leaves) {
      var stop: nat :| 0 < stop < |leaves| && leaves[stop].page == 0;
      LeavesNonempty(t, index.fields, 1 + Height(t), stop);
      ChainCutShort(nodes, leaves, stop);
    } else {
      ChainComplete(nodes, leaves);
    }
  }

  /** Every leaf of a visited tree was read from a page whose tag is 4. */
  lemma {:induction false} LeavesTagged(index: Index, number: nat, depth: nat, seen: set<nat>, d: nat, i: nat)
    requires Visit(index, number, depth, seen).Accepted?
    requires i < |LeafRecords(Visit(index, number, depth, seen).value.0, d)|
    ensures var image := PageOf(index.data, LeafRecords(Visit(index, number, depth, seen).value.0, d)[i].page);
            image.Accepted? && image.value[0] == 4
    decreases if depth > 32 then 0 else 33 - depth, 0
  {
    hide DecodeNode, PageOf, ChildrenAccepted, LeafRecordsAll;
    var image := PageOf(index.data, number).value;
    var node := DecodeNode(image, depth, index.owner, index.fields).value;
    DecodedTag(image, depth, index.owner, index.fields);
    if node.branch {
      AllLeavesTagged(index, ChildPages(node), depth + 1, seen + {number}, d, i);
    }
  }

  lemma DecodedTag(image: Image, depth: nat, owner: nat, fields: seq<Field>)
    requires DecodeNode(image, depth, owner, fields).Accepted?
    ensures image[0] == if DecodeNode(image, depth, owner, fields).value.branch then 3 else 4
  {
  }

  lemma {:induction false} AllLeavesTagged(index: Index, numbers: seq<nat>, depth: nat, seen: set<nat>, d: nat, i: nat)
    requires VisitAll(index, numbers, depth, seen).Accepted?
    requires i < |LeafRecordsAll(VisitAll(index, numbers, depth, seen).value.0, d)|
    ensures var image := PageOf(index.data, LeafRecordsAll(VisitAll(index, numbers, depth, seen).value.0, d)[i].page);
            image.Accepted? && image.value[0] == 4
    decreases if depth > 32 then 0 else 33 - depth, 1 + |numbers|
  {
    hide Visit, PageOf, LeafRecords;
    var n := |numbers| - 1;
    var ts := VisitAll(index, numbers, depth, seen).value.0;
    var (earlier, middle) := VisitAll(index, numbers[..n], depth, seen).value;
    assert ts[..n] == earlier;
    var before := LeafRecordsAll(earlier, d);
    if i < |before| {
      AllLeavesTagged(index, numbers[..n], depth, seen, d, i);
    } else {
      LeavesTagged(index, numbers[n], depth, middle, d, i - |before|);
    }
  }

  /** In a file whose first page is no leaf, as every database header is none, the chain is the traversal. */
  lemma HeaderKeepsChain(index: Index, root: nat)
    requires ReadTree(index, root).Accepted?
    requires PageOf(index.data, 0).Accepted? ==> PageOf(index.data, 0).value[0] != 4
    ensures var t := Visit(index, root, 1, {}).value.0; ChainIsTraversal(Preorder(t, 1), Leaves(t), LeafEntries(t))
  {
    hide Visit, PageOf, Preorder, LeafRecords, LeafEntries, ChainIsTraversal, Height;
    LeafChainSpellsTraversal(index, root);
    var t := Visit(index, root, 1, {}).value.0;
    forall i | 0 < i < |Leaves(t)| ensures Leaves(t)[i].page != 0 {
      LeavesTagged(index, root, 1, {}, 1 + Height(t), i);
    }
  }

  // ----- Capacity of single-Long trees -----

  function Pow139(k: nat): (p: nat) {
    if k == 0 then 1 else 139 * Pow139(k - 1)
  }

  /** No node of the tree shares a prefix, and every leaf entry is a nine-byte Long record. */
  ghost predicate PlainLongTree(t: Tree) {
    && t.node.prefix == 0
    && (t.children == [] ==> forall i :: 0 <= i < |t.node.entries| ==> |t.node.entries[i]| == 9)
    && forall i :: 0 <= i < |t.children| ==> PlainLongTree(t.children[i])
  }

  lemma {:induction false} ConcatAtLeast(parts: seq<seq<byte>>, width: nat)
    requires forall i :: 0 <= i < |parts| ==> |parts[i]| == width
    ensures |Concat(parts)| == width * |parts|
  {
    if parts != [] {
      ConcatAtLeast(parts[..|parts| - 1], width);
      assert width * |parts| == width * (|parts| - 1) + width;
    }
  }

  /** A single-Long record starts with the directed marker 127 or, for null, the directed marker 0. */
  lemma LongRecordShape(entry: seq<byte>, descending: bool, branch: bool)
    requires WidthAccepted(entry, [Field(Long, descending)], branch)
    ensures entry != []
    ensures var width := |entry| - (if branch then 4 else 0);
            || (width == 9 && entry[0] == if descending then 128 else 127)
            || (width == 5 && entry[0] == if descending then 255 else 0)
  {
    var fields := [Field(Long, descending)];
    assert fields[1..] == [];
    assert KeyEnd(entry, 0, fields).Accepted?;
    var next := ComponentEnd(entry, 0, fields[0]).value;
    assert KeyEnd(entry, next, []) == Accepted(next);
  }

  lemma {:induction false} LowHighAreLong(t: Tree, descending: bool)
    requires Sound(t, [Field(Long, descending)]) && PlainLongTree(t) && !IsEmpty(t)
    ensures |Low(t)| == 9 && Low(t)[0] == (if descending then 128 else 127)
    ensures |High(t)| == 9 && High(t)[0] == (if descending then 128 else 127)
    decreases t
  {
    hide Sorted, WidthAccepted;
    if t.children == [] {
      LongRecordShape(t.node.entries[0], descending, false);
      LongRecordShape(t.node.entries[|t.node.entries| - 1], descending, false);
    } else {
      LowHighAreLong(t.children[0], descending);
      LowHighAreLong(t.children[|t.children| - 1], descending);
    }
  }

  /** Separators lie between Long records, so they are never null and always thirteen bytes with the child. */
  lemma SeparatorIsLong(t: Tree, descending: bool, i: nat)
    requires Sound(t, [Field(Long, descending)]) && PlainLongTree(t) && t.children != [] && i < |t.node.entries|
    ensures |t.node.entries[i]| == 13
  {
    hide Sorted, WidthAccepted, Low, High;
    var entry := t.node.entries[i];
    LowHighAreLong(t.children[i], descending);
    LowHighAreLong(t.children[i + 1], descending);
    LongRecordShape(entry, descending, true);
    assert AtMost(High(t.children[i]), Separator(entry)) && Less(Separator(entry), Low(t.children[i + 1]));
  }

  lemma MulSucc(k: nat, unit: nat)
    requires k > 0
    ensures (k - 1) * unit + unit == k * unit
  {
  }

  lemma MulMonotone(k: nat, l: nat, unit: nat)
    requires k <= l
    ensures k * unit <= l * unit
  {
  }

  lemma BranchFanout(t: Tree, descending: bool)
    requires Sound(t, [Field(Long, descending)]) && PlainLongTree(t) && t.children != []
    ensures |t.children| <= 139
  {
    hide Sorted, WidthAccepted, Low, High, Separator, ChildrenAccepted;
    forall i | 0 <= i < |t.node.entries| ensures |t.node.entries[i]| == 13 {
      SeparatorIsLong(t, descending, i);
    }
    ConcatAtLeast(t.node.entries, 13);
  }

  /** A tree of height h holds at most 200 * 139^h entries. */
  lemma {:induction false} TreeCapacity(t: Tree, descending: bool)
    requires Sound(t, [Field(Long, descending)]) && PlainLongTree(t)
    ensures |LeafEntries(t)| <= 200 * Pow139(Height(t))
    decreases t, 1
  {
    hide Sorted, WidthAccepted, ChildrenAccepted, Concat, LeafEntriesAll;
    if t.children == [] {
      ConcatAtLeast(t.node.entries, 9);
    } else {
      var unit := 200 * Pow139(Height(t.children[0]));
      BranchFanout(t, descending);
      TreeCapacityAll(t, descending, |t.children|, unit);
      assert t.children[..|t.children|] == t.children;
      MulMonotone(|t.children|, 139, unit);
    }
  }

  lemma {:induction false} TreeCapacityAll(t: Tree, descending: bool, k: nat, unit: nat)
    requires Sound(t, [Field(Long, descending)]) && PlainLongTree(t) && t.children != [] && k <= |t.children|
    requires unit == 200 * Pow139(Height(t.children[0]))
    ensures |LeafEntriesAll(t.children[..k])| <= k * unit
    decreases t, 0, k
  {
    hide Sorted, WidthAccepted, Low, High, Pow139, Concat, LeafEntries;
    if k > 0 {
      var prefix := t.children[..k];
      assert prefix[..k - 1] == t.children[..k - 1];
      TreeCapacityAll(t, descending, k - 1, unit);
      TreeCapacity(t.children[k - 1], descending);
      MulSucc(k, unit);
      assert Height(t.children[k - 1]) == Height(t.children[0]);
    }
  }

  /** More than 200 entries force a second level and more than 27800 a third. */
  lemma DepthThresholds(t: Tree, descending: bool)
    requires Sound(t, [Field(Long, descending)]) && PlainLongTree(t)
    ensures |LeafEntries(t)| > 200 ==> Height(t) >= 1
    ensures |LeafEntries(t)| > 27800 ==> Height(t) >= 2
  {
    hide Sound, PlainLongTree, LeafEntries, Height;
    TreeCapacity(t, descending);
    assert Pow139(0) == 1 && Pow139(1) == 139 * Pow139(0);
  }

  // ----- The decoder's own form: a recursion that grows three lists -----

  /** What the source's `visit` returns: the entry range of a nonempty subtree, and its height. */
  datatype Summary = Summary(range: Result<(seq<byte>, seq<byte>)>, height: nat)

  function SummaryOf(t: Tree): (s: Summary) {
    Summary(if IsEmpty(t) then Rejected else Accepted((Low(t), High(t))), Height(t))
  }

  /** The checks on a branch's children, from their summaries. */
  predicate SummariesAccepted(entries: seq<seq<byte>>, below: seq<Summary>)
    requires |below| == |entries| + 1
  {
    && (forall i :: 0 <= i < |below| ==> below[i].range.Accepted?)
    && (forall i :: 0 <= i < |below| ==> below[i].height == below[0].height)
    && (forall i :: 0 <= i < |entries| ==>
          && AtMost(below[i].range.value.1, Separator(entries[i]))
          && Less(Separator(entries[i]), below[i + 1].range.value.0))
  }

  lemma SummariesDecide(t: Tree, below: seq<Summary>)
    requires |t.children| == |below| == |t.node.entries| + 1
    requires forall i :: 0 <= i < |below| ==> below[i] == SummaryOf(t.children[i])
    ensures SummariesAccepted(t.node.entries, below) <==> ChildrenAccepted(t)
  {
    hide Low, High, Height, Separator, IsEmpty;
    if SummariesAccepted(t.node.entries, below) {
      forall i | 0 <= i < |t.children| ensures !IsEmpty(t.children[i]) {
        assert below[i] == SummaryOf(t.children[i]);
      }
      forall i | 0 <= i < |t.children| ensures Height(t.children[i]) == Height(t.children[0]) {
        assert below[i] == SummaryOf(t.children[i]) && below[0] == SummaryOf(t.children[0]);
      }
      forall i | 0 <= i < |t.node.entries|
        ensures AtMost(High(t.children[i]), Separator(t.node.entries[i]))
        ensures Less(Separator(t.node.entries[i]), Low(t.children[i + 1]))
      {
        assert below[i] == SummaryOf(t.children[i]) && below[i + 1] == SummaryOf(t.children[i + 1]);
      }
    }
  }

  lemma {:induction false} VisitAllRejects(index: Index, numbers: seq<nat>, depth: nat, seen: set<nat>, k: nat)
    requires k <= |numbers| && VisitAll(index, numbers[..k], depth, seen).Rejected?
    ensures VisitAll(index, numbers, depth, seen).Rejected?
    decreases |numbers|
  {
    hide Visit;
    if k == |numbers| {
      assert numbers[..k] == numbers;
    } else {
      assert numbers[..|numbers| - 1][..k] == numbers[..k];
      VisitAllRejects(index, numbers[..|numbers| - 1], depth, seen, k);
    }
  }

  lemma VisitUnfolds(index: Index, number: nat, depth: nat, seen: set<nat>)
    ensures var image := PageOf(index.data, number);
            Visit(index, number, depth, seen)
            == if depth > 32 || number in seen || image.Rejected? then Rejected
               else
                 var decoded := DecodeNode(image.value, depth, index.owner, index.fields);
                 if decoded.Rejected? then Rejected
                 else if !decoded.value.branch then Accepted((Tree(number, decoded.value, []), seen + {number}))
                 else
                   var below := VisitAll(index, ChildPages(decoded.value), depth + 1, seen + {number});
                   if below.Accepted? && ChildrenAccepted(Tree(number, decoded.value, below.value.0))
                   then Accepted((Tree(number, decoded.value, below.value.0), below.value.1)) else Rejected
  {
    hide DecodeNode, PageOf, VisitAll, ChildrenAccepted;
  }

  lemma LeafReports(t: Tree, depth: nat)
    requires t.children == []
    ensures Preorder(t, depth) == [Visited(t.page, depth, t.node, [])] && LeafEntries(t) == t.node.entries
    ensures var entries := t.node.entries;
            SummaryOf(t)
            == Summary(if entries == [] then Rejected else Accepted((entries[0], entries[|entries| - 1])), 0)
  {
    assert PreorderAll(t.children, depth + 1) == [];
  }

  lemma BranchReports(t: Tree, below: seq<Summary>, depth: nat)
    requires |t.children| == |below| == |t.node.entries| + 1 && SummariesAccepted(t.node.entries, below)
    requires forall i :: 0 <= i < |below| ==> below[i] == SummaryOf(t.children[i])
    ensures Preorder(t, depth)
            == [Visited(t.page, depth, t.node, ChildPages(t.node))] + PreorderAll(t.children, depth + 1)
    ensures LeafEntries(t) == LeafEntriesAll(t.children)
    ensures below[0].range.Accepted? && below[|below| - 1].range.Accepted?
    ensures SummaryOf(t)
            == Summary(Accepted((below[0].range.value.0, below[|below| - 1].range.value.1)), below[0].height + 1)
  {
    hide PreorderAll, LeafEntriesAll, Separator;
    assert below[0] == SummaryOf(t.children[0]) && below[|below| - 1] == SummaryOf(t.children[|t.children| - 1]);
  }

  lemma NothingVisited(index: Index, depth: nat, seen: set<nat>)
    ensures VisitAll(index, [], depth, seen) == Accepted(([], seen)) && PreorderAll([], depth) == []
    ensures LeafEntriesAll([]) == []
  {
  }

  lemma OneMoreVisited(index: Index, numbers: seq<nat>, last: nat, depth: nat, seen: set<nat>)
    requires VisitAll(index, numbers, depth, seen).Accepted?
    ensures var (ts, after) := VisitAll(index, numbers, depth, seen).value;
            var visit := Visit(index, last, depth, after);
            VisitAll(index, numbers + [last], depth, seen)
            == if visit.Accepted? then Accepted((ts + [visit.value.0], visit.value.1)) else Rejected
  {
    hide Visit;
    assert (numbers + [last])[..|numbers|] == numbers;
  }

  lemma OneMoreListed(ts: seq<Tree>, t: Tree, depth: nat)
    ensures PreorderAll(ts + [t], depth) == PreorderAll(ts, depth) + Preorder(t, depth)
    ensures LeafEntriesAll(ts + [t]) == LeafEntriesAll(ts) + LeafEntries(t)
  {
    hide Preorder, LeafEntries;
    assert (ts + [t])[..|ts|] == ts;
  }

  class TreeWalk {
    const index: Index
    var nodes: seq<Visited>
    var seen: set<nat>
    var leafEntries: seq<seq<byte>>

    constructor (index: Index)
      ensures this.index == index && nodes == [] && seen == {} && leafEntries == []
    {
      this.index := index;
      nodes, seen, leafEntries := [], {}, [];
    }

    method VisitNode(number: nat, depth: nat) returns (r: Result<Summary>)
      modifies this
      ensures var visit := Visit(index, number, depth, old(seen));
              && (r.Accepted? <==> visit.Accepted?)
              && (r.Accepted? ==>
                    && seen == visit.value.1
                    && nodes == old(nodes) + Preorder(visit.value.0, depth)
                    && leafEntries == old(leafEntries) + LeafEntries(visit.value.0)
                    && r.value == SummaryOf(visit.value.0))
      decreases if depth > 32 then 0 else 33 - depth, 0
    {
      hide DecodeNode, PageOf, Visit, VisitAll, ChildrenAccepted, Preorder, PreorderAll, LeafEntries, LeafEntriesAll,
           SummaryOf, SummariesAccepted;
      VisitUnfolds(index, number, depth, seen);
      if depth > 32 || number in seen {
        return Rejected;
      }
      var image := PageOf(index.data, number);
      if image.Rejected? {
        return Rejected;
      }
      var decoded := DecodeNode(image.value, depth, index.owner, index.fields);
      if decoded.Rejected? {
        return Rejected;
      }
      var node := decoded.value;
      seen := seen + {number};
      if !node.branch {
        LeafReports(Tree(number, node, []), depth);
        nodes := nodes + [Visited(number, depth, node, [])];
        leafEntries := leafEntries + node.entries;
        var entries := node.entries;
        return Accepted(Summary(if entries == [] then Rejected else Accepted((entries[0], entries[|entries| - 1])), 0));
      }
      nodes := nodes + [Visited(number, depth, node, ChildPages(node))];
      ghost var start := seen;
      var below := VisitChildren(ChildPages(node), depth + 1);
      if below.Rejected? {
        return Rejected;
      }
      ghost var t := Tree(number, node, VisitAll(index, ChildPages(node), depth + 1, start).value.0);
      SummariesDecide(t, below.value);
      if !SummariesAccepted(node.entries, below.value) {
        return Rejected;
      }
      var first, last := below.value[0], below.value[|below.value| - 1];
      BranchReports(t, below.value, depth);
      return Accepted(Summary(Accepted((first.range.value.0, last.range.value.1)), first.height + 1));
    }

    method VisitChildren(numbers: seq<nat>, depth: nat) returns (r: Result<seq<Summary>>)
      modifies this
      ensures var visit := VisitAll(index, numbers, depth, old(seen));
              && (r.Accepted? <==> visit.Accepted?)
              && (r.Accepted? ==>
                    && seen == visit.value.1
                    && nodes == old(nodes) + PreorderAll(visit.value.0, depth)
                    && leafEntries == old(leafEntries) + LeafEntriesAll(visit.value.0)
                    && |r.value| == |numbers|
                    && forall i :: 0 <= i < |numbers| ==> r.value[i] == SummaryOf(visit.value.0[i]))
      decreases if depth > 32 then 0 else 33 - depth, 1
    {
      hide Visit, VisitAll, Preorder, PreorderAll, LeafEntries, LeafEntriesAll, SummaryOf;
      var below: seq<Summary> := [];
      ghost var start := seen;
      ghost var ts: seq<Tree> := [];
      NothingVisited(index, depth, start);
      for i := 0 to |numbers|
        invariant |below| == |ts| == i
        invariant VisitAll(index, numbers[..i], depth, start) == Accepted((ts, seen))
        invariant nodes == old(nodes) + PreorderAll(ts, depth)
        invariant leafEntries == old(leafEntries) + LeafEntriesAll(ts)
        invariant forall k :: 0 <= k < i ==> below[k] == SummaryOf(ts[k])
      {
        assert numbers[..i + 1] == numbers[..i] + [numbers[i]];
        ghost var before := seen;
        OneMoreVisited(index, numbers[..i], numbers[i], depth, start);
        var child := VisitNode(numbers[i], depth);
        if child.Rejected? {
          VisitAllRejects(index, numbers, depth, start, i + 1);
          return Rejected;
        }
        ghost var t := Visit(index, numbers[i], depth, before).value.0;
        OneMoreListed(ts, t, depth);
        ts := ts + [t];
        below := below + [child.value];
      }
      assert numbers[..|numbers|] == numbers;
      return Accepted(below);
    }
  }

  method ReadIndexTree(index: Index, root: nat) returns (r: Result<(seq<Visited>, seq<seq<byte>>)>)
    ensures r == ReadTree(index, root)
  {
    hide Visit, Preorder, LeafEntries, SiblingsAccepted, AtDepth, OneLeafDepth, Sorted;
    var walk := new TreeWalk(index);
    var visited := walk.VisitNode(root, 1);
    if visited.Rejected? {
      return Rejected;
    }
    var nodes, entries := walk.nodes, walk.leafEntries;
    ghost var t := Visit(index, root, 1, {}).value.0;
    assert nodes == Preorder(t, 1) && entries == LeafEntries(t);
    for depth := 0 to 33
      invariant forall d: nat :: d < depth ==> SiblingsAccepted(AtDepth(nodes, d))
    {
      if !SiblingsAccepted(AtDepth(nodes, depth)) {
        return Rejected;
      }
    }
    if !OneLeafDepth(nodes) || !Sorted(entries) {
      return Rejected;
    }
    return Accepted((nodes, entries));
  }
}
