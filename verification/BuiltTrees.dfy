/**
 * Bulk-built index trees (`ScalarIndexPages` in crates/jet3/src/index/tree/builder.rs) read back by the
 * independent tree decoder (`tree` in oracle/windows-dao/structure.py).
 *
 * `PageImage` is the writer's in-place construction of one node page. The main result, `BuiltTreeReads`,
 * spans both programs: for any records, the decoder accepts the pages that the writer produces for a plan
 * exactly when the entries of every node pass its order and width checks, and then returns exactly the records.
 */
module BuiltTrees {
  import opened Bytes
  import opened DataPages
  import opened KeyEncoding
  import opened KeyParsing
  import opened IndexNodes
  import opened IndexTrees
  import opened TreePlans

  /** A plan, its records, the page of every node and the owning definition. */
  datatype Build = Build(nodes: seq<PlannedNode>, records: seq<seq<byte>>, pages: map<nat, nat>, owner: nat)

  predicate HasPage(b: Build, i: nat) {
    i in b.pages && b.pages[i] < 0x1_0000_0000
  }

  function PageFor(b: Build, i: nat): (p: nat)
    ensures p < 0x1_0000_0000
  {
    if HasPage(b, i) then b.pages[i] else 0
  }

  predicate IsBranch(b: Build, i: nat)
    requires i < |b.nodes|
  {
    b.nodes[i].children.start < b.nodes[i].children.end
  }

  ghost predicate Shaped(b: Build) {
    LevelsShaped(b.nodes, |b.records|) && b.nodes[|b.nodes| - 1].siblings.start == |b.nodes| - 1
  }

  /** What the level structure says about one node. */
  lemma ShapeOf(b: Build, i: nat)
    requires Shaped(b) && i < |b.nodes|
    ensures var n := b.nodes[i];
            && n.siblings.start <= i < n.siblings.end <= |b.nodes|
            && n.entries.start <= n.entries.end <= |b.records|
            && (IsBranch(b, i) <==> n.siblings.start > 0)
            && (!IsBranch(b, i) ==> n.children == Span(0, 0))
            && (IsBranch(b, i) ==> n.children.start + 2 <= n.children.end <= n.siblings.start && |b.records| > 0)
            && (|b.records| > 0 ==> n.entries.start < n.entries.end)
  {
    assert NodeShaped(b.nodes, |b.records|, i);
  }

  // ----- One page -----

  /** Entry `k` of a node: a record, or the largest record of a child followed by the child's page. */
  function EntryAt(b: Build, i: nat, k: nat): (r: seq<byte>)
    requires Shaped(b) && i < |b.nodes| && k < EntryCount(b, i)
  {
    ShapeOf(b, i);
    if IsBranch(b, i) then
      var c := b.nodes[i].children.start + k;
      ShapeOf(b, c);
      Maximum(b.nodes, b.records, c) + BigEndian(PageFor(b, c), 4)
    else b.records[b.nodes[i].entries.start + k]
  }

  function EntryCount(b: Build, i: nat): (n: nat)
    requires Shaped(b) && i < |b.nodes|
  {
    ShapeOf(b, i);
    if IsBranch(b, i) then b.nodes[i].children.end - b.nodes[i].children.start - 1
    else b.nodes[i].entries.end - b.nodes[i].entries.start
  }

  function NodeEntries(b: Build, i: nat): (r: seq<seq<byte>>)
    requires Shaped(b) && i < |b.nodes|
    ensures |r| == EntryCount(b, i) && forall k :: 0 <= k < |r| ==> r[k] == EntryAt(b, i, k)
  {
    seq(EntryCount(b, i), k requires 0 <= k < EntryCount(b, i) => EntryAt(b, i, k))
  }

  function PreviousPage(b: Build, i: nat): (p: nat)
    requires i < |b.nodes|
  {
    if i > b.nodes[i].siblings.start then PageFor(b, i - 1) else 0
  }

  function NextPage(b: Build, i: nat): (p: nat)
    requires i < |b.nodes|
  {
    if i + 1 < b.nodes[i].siblings.end then PageFor(b, i + 1) else 0
  }

  function TailPage(b: Build, i: nat): (p: nat)
    requires i < |b.nodes|
  {
    if IsBranch(b, i) then PageFor(b, b.nodes[i].children.end - 1) else 0
  }

  function HeaderFor(b: Build, i: nat): (h: Header)
    requires i < |b.nodes|
  {
    Header(if IsBranch(b, i) then 3 else 4, b.owner, PreviousPage(b, i), NextPage(b, i), TailPage(b, i))
  }

  /** The page with its links, flags and bitmap cleared. */
  function Cleared(original: Image): (r: Image) {
    Put(original, 8, seq(240, i => 0))
  }

  lemma ClearedIsBlank(original: Image)
    ensures Blank(Cleared(original))
  {
    forall q: nat | q < POSITIONS ensures !Boundary(Cleared(original), q) {
      ZeroHasNoBits(q % 8);
    }
  }

  lemma NothingStripped(entries: seq<seq<byte>>)
    ensures Suffixes(entries, []) == entries
  {
    forall i | 0 <= i < |entries| ensures Suffixes(entries, [])[i] == entries[i] {
      assert [] <= entries[i] && entries[i][0..] == entries[i];
    }
  }

  /** The page of node `i`; bytes beyond the used records keep what the page held. */
  function BuiltPage(b: Build, original: Image, i: nat): (r: Image)
    requires Shaped(b) && i < |b.nodes| && b.owner < 0x1_0000_0000
    requires |Concat(NodeEntries(b, i))| <= AREA_BYTES
  {
    NothingStripped(NodeEntries(b, i));
    WrittenNode(Cleared(original), HeaderFor(b, i), [], NodeEntries(b, i))
  }

  // ----- Width of the entries -----

  lemma {:induction false} LeafConcat(records: seq<seq<byte>>, a: nat, b: nat)
    requires a <= b <= |records|
    ensures |Concat(records[a..b])| == LeafWidth(records, a, b)
  {
    if a < b {
      LeafConcat(records, a, b - 1);
      assert records[a..b][..b - a - 1] == records[a..b - 1];
    }
  }

  lemma {:induction false} BranchConcat(b: Build, i: nat, k: nat)
    requires Shaped(b) && i < |b.nodes| && IsBranch(b, i) && k <= EntryCount(b, i) && Bounded(b.nodes, |b.records|)
    ensures b.nodes[i].children.start + k + 1 <= |b.nodes|
    ensures |Concat(NodeEntries(b, i)[..k])|
            == BranchWidth(b.nodes, b.records, b.nodes[i].children.start, b.nodes[i].children.start + k + 1)
  {
    hide Shaped, EntryAt, NodeEntries, Maximum;
    ShapeOf(b, i);
    if k > 0 {
      BranchConcat(b, i, k - 1);
      assert NodeEntries(b, i)[..k][..k - 1] == NodeEntries(b, i)[..k - 1];
      BranchEntryWidth(b, i, k - 1);
    }
  }

  lemma BranchEntryWidth(b: Build, i: nat, k: nat)
    requires Shaped(b) && i < |b.nodes| && IsBranch(b, i) && k < EntryCount(b, i) && Bounded(b.nodes, |b.records|)
    ensures b.nodes[i].children.start + k < |b.nodes|
    ensures |EntryAt(b, i, k)| == |Maximum(b.nodes, b.records, b.nodes[i].children.start + k)| + CHILD_BYTES
  {
    hide Shaped;
    ShapeOf(b, i);
  }

  lemma EntriesFit(b: Build, i: nat)
    requires Planned(b.nodes, b.records) && i < |b.nodes|
    ensures Shaped(b) && |Concat(NodeEntries(b, i))| <= AREA_BYTES
  {
    hide NodeShaped, Concat, LeafWidth, BranchWidth;
    ShapeOf(b, i);
    var n := b.nodes[i];
    assert NodeFits(b.nodes, b.records, i);
    if IsBranch(b, i) {
      BranchConcat(b, i, EntryCount(b, i));
      assert NodeEntries(b, i)[..EntryCount(b, i)] == NodeEntries(b, i);
    } else {
      LeafConcat(b.records, n.entries.start, n.entries.end);
      assert NodeEntries(b, i) == b.records[n.entries.start..n.entries.end];
    }
  }

  // ----- Writing one page in place -----

  /** The header as the writer assembles it: tag, owner, a cleared middle, the branch flag, then the links. */
  function AssembledHeader(original: Image, h: Header): (r: Image)
    requires h.owner < 0x1_0000_0000 && h.previous < 0x1_0000_0000 && h.next < 0x1_0000_0000 && h.tail < 0x1_0000_0000
  {
    var a := Put(original, 0, [h.tag, 1]);
    var c := Put(Put(a, 4, Le32(h.owner)), 8, seq(240, i => 0));
    var d := Put(c, 21, [if h.tag == 3 then 1 else 0]);
    Put(Put(Put(d, 8, Le32(h.previous)), 12, Le32(h.next)), 16, Le32(h.tail))
  }

  lemma HeaderAssembled(original: Image, h: Header)
    requires ValidHeader(h)
    ensures AssembledHeader(original, h) == PutHeader(Cleared(original), h, [])
  {
    hide Le32, Put;
    var made, meant := AssembledHeader(original, h), PutHeader(Cleared(original), h, []);
    forall i | 0 <= i < PAGE ensures made[i] == meant[i] {
    }
  }

  /** The record that entry `k` of a node carries. */
  function RecordAt(b: Build, i: nat, k: nat): (r: seq<byte>)
    requires Shaped(b) && i < |b.nodes| && k < EntryCount(b, i)
  {
    ShapeOf(b, i);
    if IsBranch(b, i) then
      ShapeOf(b, b.nodes[i].children.start + k);
      Maximum(b.nodes, b.records, b.nodes[i].children.start + k)
    else b.records[b.nodes[i].entries.start + k]
  }

  predicate EntryAdmitted(b: Build, i: nat, k: nat)
    requires Shaped(b) && i < |b.nodes| && k < EntryCount(b, i)
  {
    WidthAllowed(RecordAt(b, i, k)) && (IsBranch(b, i) ==> HasPage(b, b.nodes[i].children.start + k))
  }

  predicate LinksAssigned(b: Build, i: nat)
    requires i < |b.nodes|
  {
    && HasPage(b, i)
    && (i > b.nodes[i].siblings.start ==> HasPage(b, i - 1))
    && (i + 1 < b.nodes[i].siblings.end ==> HasPage(b, i + 1))
    && (IsBranch(b, i) ==> HasPage(b, b.nodes[i].children.end - 1))
  }

  /** Everything the writer asks of its inputs. */
  ghost predicate ImageAdmitted(b: Build, i: nat) {
    && b.nodes != [] && b.nodes[|b.nodes| - 1].entries.end == |b.records| && i < |b.nodes| && b.owner < 0x1_0000_0000
    && Shaped(b) && LinksAssigned(b, i)
    && (forall k: nat :: k < EntryCount(b, i) ==> EntryAdmitted(b, i, k))
    && |Concat(NodeEntries(b, i))| <= AREA_BYTES
  }

  /** `image`: the page of one node, or a refusal exactly when an input is out of order. */
  method PageImage(b: Build, ordinal: nat, original: Image) returns (r: Result<Image>)
    requires b.nodes != [] && LevelsShaped(b.nodes, b.nodes[|b.nodes| - 1].entries.end)
    requires b.nodes[|b.nodes| - 1].siblings.start == |b.nodes| - 1
    ensures r.Accepted? <==> ImageAdmitted(b, ordinal)
    ensures r.Accepted? ==> r.value == BuiltPage(b, original, ordinal)
  {
    hide LevelsShaped, Put, Le32, Concat, AppendParts, EntryAt, NodeEntries, EntryAdmitted, PutHeader, PageFor,
         WrittenNode, Cleared;
    if ordinal >= |b.nodes| || b.nodes[|b.nodes| - 1].entries.end != |b.records| || b.owner >= 0x1_0000_0000 {
      return Rejected;
    }
    if !LinksAssigned(b, ordinal) {
      return Rejected;
    }
    ShapeOf(b, ordinal);
    var page := new byte[PAGE](i requires 0 <= i < PAGE => original[i]);
    assert page[..] == original;
    WriteHeader(page, b, ordinal);
    var fits := WriteEntries(page, b, ordinal);
    if !fits {
      return Rejected;
    }
    HeaderAssembled(original, HeaderFor(b, ordinal));
    BuiltFrom(b, original, ordinal);
    return Accepted(page[..]);
  }

  method WriteHeader(page: array<byte>, b: Build, ordinal: nat)
    requires page.Length == PAGE && Shaped(b) && ordinal < |b.nodes| && b.owner < 0x1_0000_0000
    modifies page
    ensures page[..] == AssembledHeader(old(page[..]), HeaderFor(b, ordinal))
  {
    hide Put, Le32, PageFor, Shaped;
    var h := HeaderFor(b, ordinal);
    PutBytes(page, 0, [if IsBranch(b, ordinal) then 3 else 4, 1]);
    PutBytes(page, 4, Le32(b.owner));
    PutBytes(page, 8, seq(240, i => 0));
    PutBytes(page, 21, [if IsBranch(b, ordinal) then 1 else 0]);
    ghost var cleared: Image := page[..];
    ZeroWord();
    if ordinal > b.nodes[ordinal].siblings.start {
      PutBytes(page, 8, Le32(PageFor(b, ordinal - 1)));
    }
    assert page[..] == Put(cleared, 8, Le32(h.previous));
    ghost var linked: Image := page[..];
    if ordinal + 1 < b.nodes[ordinal].siblings.end {
      PutBytes(page, 12, Le32(PageFor(b, ordinal + 1)));
    }
    assert page[..] == Put(linked, 12, Le32(h.next));
    ghost var chained: Image := page[..];
    if IsBranch(b, ordinal) {
      PutBytes(page, 16, Le32(PageFor(b, b.nodes[ordinal].children.end - 1)));
    }
    assert page[..] == Put(chained, 16, Le32(h.tail));
  }

  lemma ZeroWord()
    ensures Le32(0) == [0, 0, 0, 0]
  {
  }

  /** The entry loop with its width checks, and the free count. */
  method WriteEntries(page: array<byte>, b: Build, i: nat) returns (ok: bool)
    requires page.Length == PAGE && Shaped(b) && i < |b.nodes|
    modifies page
    ensures ok <==>
            && (forall k: nat :: k < EntryCount(b, i) ==> EntryAdmitted(b, i, k))
            && |Concat(NodeEntries(b, i))| <= AREA_BYTES
    ensures ok ==>
              page[..] == Put(AppendParts(old(page[..]), 0, NodeEntries(b, i)), 2,
                              Le16(AREA_BYTES - |Concat(NodeEntries(b, i))|))
  {
    hide Put, Le16, Concat, Shaped, EntryAt, NodeEntries, EntryAdmitted, RecordAt, Mark, BigEndian, EntryCount,
         AppendParts;
    ghost var before: Image := page[..];
    AppendNothing(before, 0);
    var entries := NodeEntries(b, i);
    var used := 0;
    ConcatNothing(entries);
    for k := 0 to |entries|
      invariant used == |Concat(entries[..k])| <= AREA_BYTES
      invariant page[..] == AppendParts(before, 0, entries[..k])
      invariant forall j: nat :: j < k ==> EntryAdmitted(b, i, j)
    {
      ConcatPrefix(entries, k);
      if !EntryAdmitted(b, i, k) || used + |entries[k]| > AREA_BYTES {
        return false;
      }
      EntryStep(before, entries, k);
      PutBytes(page, AREA + used, entries[k]);
      used := used + |entries[k]|;
      SetMark(page, used);
    }
    assert entries[..|entries|] == entries;
    PutBytes(page, 2, Le16(AREA_BYTES - used));
    ok := true;
  }

  lemma EntryStep(image: Image, entries: seq<seq<byte>>, k: nat)
    requires k < |entries| && |Concat(entries[..k + 1])| <= AREA_BYTES
    ensures |Concat(entries[..k])| + |entries[k]| == |Concat(entries[..k + 1])|
    ensures AppendParts(image, 0, entries[..k + 1])
            == Mark(Put(AppendParts(image, 0, entries[..k]), AREA + |Concat(entries[..k])|, entries[k]),
                    |Concat(entries[..k + 1])|)
  {
    hide Put, Mark, Concat, AppendParts;
    var some := entries[..k + 1];
    AppendStep(image, 0, some, k);
    assert some[..k] == entries[..k] && some[..k + 1] == some;
  }

  /** An entry is its record and, in a branch, four bytes of page number. */
  lemma EntryParts(b: Build, i: nat, k: nat)
    requires Shaped(b) && i < |b.nodes| && k < EntryCount(b, i)
    ensures EntryAt(b, i, k)
            == RecordAt(b, i, k) + if IsBranch(b, i) then BigEndian(PageFor(b, b.nodes[i].children.start + k), 4)
            else []
  {
    hide Shaped, BigEndian;
    ShapeOf(b, i);
  }

  lemma BuiltFrom(b: Build, original: Image, i: nat)
    requires Shaped(b) && i < |b.nodes| && b.owner < 0x1_0000_0000 && |Concat(NodeEntries(b, i))| <= AREA_BYTES
    ensures BuiltPage(b, original, i)
            == Put(AppendParts(PutHeader(Cleared(original), HeaderFor(b, i), []), 0, NodeEntries(b, i)), 2,
                   Le16(AREA_BYTES - |Concat(NodeEntries(b, i))|))
  {
    hide Put, Concat, Shaped, NodeEntries, AppendParts, PutHeader, Cleared, Le16, PageFor;
    NothingStripped(NodeEntries(b, i));
  }

  // ----- Every page decodes -----

  /**
   * A plan with one page of its own for every node, as `new` makes it and its caller assigns pages. Page 0
   * means "no page" in the tail link of a branch, so it cannot be a last child.
   */
  ghost predicate Ready(b: Build) {
    && Planned(b.nodes, b.records) && b.owner < 0x1_0000_0000
    && (forall i: nat :: i < |b.nodes| ==> HasPage(b, i) && (IsBranch(b, i) ==> TailPage(b, i) != 0))
    && (forall i: nat, j: nat :: i < j < |b.nodes| ==> PageFor(b, i) != PageFor(b, j))
  }

  lemma ReadyShaped(b: Build)
    requires Ready(b)
    ensures Shaped(b) && Planned(b.nodes, b.records)
  {
  }

  /** Children of one branch: consecutive siblings whose entries meet. */
  lemma NextChild(b: Build, i: nat, c: nat)
    requires Shaped(b) && i < |b.nodes| && b.nodes[i].siblings.start <= c < b.nodes[i].siblings.end
    ensures c < |b.nodes| && b.nodes[c].siblings == b.nodes[i].siblings
    ensures c + 1 < b.nodes[i].siblings.end ==>
              c + 1 < |b.nodes| && b.nodes[c + 1].entries.start == b.nodes[c].entries.end
  {
    hide Parent;
    assert NodeShaped(b.nodes, |b.records|, i);
    assert NodeShaped(b.nodes, |b.records|, c);
  }

  /** The children of a branch are siblings. */
  lemma ChildLevel(b: Build, i: nat)
    requires Shaped(b) && i < |b.nodes| && IsBranch(b, i)
    ensures b.nodes[i].siblings.start <= |b.nodes|
    ensures var c, below := b.nodes[i].children, LevelBelow(b.nodes, b.nodes[i].siblings.start);
            && below.start <= c.start < c.end <= below.end <= i
            && below.start < below.end && b.nodes[below.start].siblings == below
            && (forall d :: c.start <= d < c.end ==> b.nodes[d].siblings == below)
            && b.nodes[i].entries.start == b.nodes[c.start].entries.start
            && b.nodes[i].entries.end == b.nodes[c.end - 1].entries.end
  {
    hide Placed;
    ShapeOf(b, i);
    var s := b.nodes[i].siblings;
    assert NodeShaped(b.nodes, |b.records|, i);
    ShapeOf(b, s.start - 1);
    var below := LevelBelow(b.nodes, s.start);
    forall d | below.start <= d < below.end ensures b.nodes[d].siblings == below {
      NextChild(b, s.start - 1, d);
    }
  }

  lemma PlannedWidths(b: Build)
    requires Planned(b.nodes, b.records)
    ensures forall j :: 0 <= j < |b.records| ==> |b.records[j]| >= 5
  {
    assert forall j :: 0 <= j < |b.records| ==> WidthAllowed(b.records[j]);
  }

  lemma RecordIsOne(b: Build, i: nat, k: nat)
    requires Shaped(b) && i < |b.nodes| && k < EntryCount(b, i)
    ensures exists j :: 0 <= j < |b.records| && RecordAt(b, i, k) == b.records[j]
  {
    hide Shaped;
    ShapeOf(b, i);
    if IsBranch(b, i) {
      var c := b.nodes[i].children.start + k;
      ShapeOf(b, c);
      assert RecordAt(b, i, k) == b.records[b.nodes[c].entries.end - 1];
    } else {
      assert RecordAt(b, i, k) == b.records[b.nodes[i].entries.start + k];
    }
  }

  /** What the decoder reads from the page of node `i`. */
  function NodeAt(b: Build, i: nat): (n: Node)
    requires Shaped(b) && i < |b.nodes|
  {
    var branch := IsBranch(b, i);
    Node(branch, if branch then 1 else 0, PreviousPage(b, i), NextPage(b, i), TailPage(b, i), 0, NodeEntries(b, i))
  }

  /** The order and width checks of the decoder, on the entries of one node. */
  ghost predicate NodeDecodable(b: Build, fields: seq<Field>, i: nat)
    requires Shaped(b) && i < |b.nodes|
  {
    && Sorted(NodeEntries(b, i))
    && forall k: nat :: k < EntryCount(b, i) ==> WidthAccepted(EntryAt(b, i, k), fields, IsBranch(b, i))
  }

  lemma EntryNonempty(b: Build, i: nat, k: nat)
    requires Planned(b.nodes, b.records) && i < |b.nodes| && Shaped(b) && k < EntryCount(b, i)
    ensures EntryAt(b, i, k) != []
  {
    hide Planned, Shaped, BigEndian;
    EntryParts(b, i, k);
    RecordIsOne(b, i, k);
    PlannedWidths(b);
  }

  /** The decoder reads the planned node from its page, or refuses the page for its order or widths alone. */
  lemma PageDecodes(b: Build, fields: seq<Field>, original: Image, i: nat, depth: nat)
    requires Ready(b) && i < |b.nodes| && Shaped(b) && |Concat(NodeEntries(b, i))| <= AREA_BYTES
    ensures DecodeNode(BuiltPage(b, original, i), depth, b.owner, fields)
            == if NodeDecodable(b, fields, i) then Accepted(NodeAt(b, i)) else Rejected
  {
    hide DecodeNode, WrittenNode, WidthAccepted, Sorted, NodeEntries, Planned, Shaped, Concat, Cleared, Blank, EntryAt;
    var entries := NodeEntries(b, i);
    NothingStripped(entries);
    ClearedIsBlank(original);
    forall k | 0 <= k < |entries| ensures [] < entries[k] {
      EntryNonempty(b, i, k);
    }
    ShapeOf(b, i);
    NodeRoundTrip(Cleared(original), HeaderFor(b, i), [], entries, depth, fields);
    if forall k :: 0 <= k < |entries| ==> WidthAccepted(entries[k], fields, IsBranch(b, i)) {
      forall k: nat | k < EntryCount(b, i) ensures WidthAccepted(EntryAt(b, i, k), fields, IsBranch(b, i)) {
        assert WidthAccepted(entries[k], fields, IsBranch(b, i));
      }
    }
  }

  /** The word at an offset is the page of node `j`, or 0 when there is no such node. */
  ghost predicate LinkSpells(b: Build, image: Image, offset: nat, linked: bool, j: int)
    requires offset + 4 <= PAGE
  {
    if linked then j >= 0 && j in b.pages && U32(image, offset) == b.pages[j] else U32(image, offset) == 0
  }

  /** A page is written only when its neighbours and its last child have pages, which it then names. */
  lemma LinksAreAssigned(b: Build, original: Image, i: nat)
    requires ImageAdmitted(b, i)
    ensures var n, image := b.nodes[i], BuiltPage(b, original, i);
            && i in b.pages && U32(image, 4) == b.owner
            && LinkSpells(b, image, 8, n.siblings.start < i, i - 1)
            && LinkSpells(b, image, 12, i + 1 < n.siblings.end, i + 1)
            && LinkSpells(b, image, 16, n.children.start < n.children.end, n.children.end - 1)
  {
    hide Shaped, Concat, EntryAt, NodeEntries, U32, Blank, WrittenNode, Cleared, EntryAdmitted;
    NothingStripped(NodeEntries(b, i));
    ClearedIsBlank(original);
    WrittenNodeStamped(Cleared(original), HeaderFor(b, i), [], NodeEntries(b, i));
  }

  /** Every branch entry is the largest record below its child, followed by the page of that child. */
  lemma ChildrenAreAssigned(b: Build, i: nat, k: nat)
    requires ImageAdmitted(b, i) && IsBranch(b, i) && k < EntryCount(b, i)
    ensures var c := b.nodes[i].children.start + k;
            && c in b.pages && c < |b.nodes| && 0 < b.nodes[c].entries.end <= |b.records|
            && ChildPage(EntryAt(b, i, k)) == b.pages[c]
            && Separator(EntryAt(b, i, k)) == b.records[b.nodes[c].entries.end - 1]
  {
    hide Shaped;
    ShapeOf(b, i);
    var c := b.nodes[i].children.start + k;
    ShapeOf(b, c);
    assert EntryAdmitted(b, i, k);
    BranchEntry(b, i, k);
  }

  // ----- The tree that the pages hold -----

  ghost function TreeOf(b: Build, i: nat): (t: Tree)
    requires Shaped(b) && i < |b.nodes|
    ensures t.page == PageFor(b, i) && t.node == NodeAt(b, i)
    ensures |t.children| == b.nodes[i].children.end - b.nodes[i].children.start
    decreases i
  {
    ShapeOf(b, i);
    var c := b.nodes[i].children;
    Tree(PageFor(b, i), NodeAt(b, i),
         seq(c.end - c.start, k requires 0 <= k < c.end - c.start => TreeOf(b, c.start + k)))
  }

  lemma ChildOf(b: Build, i: nat, k: nat)
    requires Shaped(b) && i < |b.nodes| && k < |TreeOf(b, i).children|
    ensures b.nodes[i].children.start + k < i
    ensures TreeOf(b, i).children[k] == TreeOf(b, b.nodes[i].children.start + k)
  {
    hide Shaped;
    ShapeOf(b, i);
  }

  /** A subtree runs from the first to the last record of its node. */
  lemma {:induction false} TreeEnds(b: Build, i: nat)
    requires Shaped(b) && i < |b.nodes| && |b.records| > 0
    ensures b.nodes[i].entries.start < b.nodes[i].entries.end <= |b.records|
    ensures !IsEmpty(TreeOf(b, i)) && Low(TreeOf(b, i)) == b.records[b.nodes[i].entries.start]
    ensures High(TreeOf(b, i)) == b.records[b.nodes[i].entries.end - 1]
    decreases i
  {
    hide Shaped, TreeOf, EntryAt, EntryCount, NodeEntries;
    ShapeOf(b, i);
    var n, t := b.nodes[i], TreeOf(b, i);
    if IsBranch(b, i) {
      ChildLevel(b, i);
      var last := n.children.end - n.children.start - 1;
      ChildOf(b, i, 0);
      ChildOf(b, i, last);
      TreeEnds(b, n.children.start);
      TreeEnds(b, n.children.end - 1);
    } else {
      LeafNodeEntries(b, i);
      assert t.children == [];
    }
  }

  lemma LeafNodeEntries(b: Build, i: nat)
    requires Shaped(b) && i < |b.nodes| && !IsBranch(b, i)
    ensures b.nodes[i].entries.start <= b.nodes[i].entries.end <= |b.records|
    ensures NodeEntries(b, i) == b.records[b.nodes[i].entries.start..b.nodes[i].entries.end]
  {
    hide Shaped;
    ShapeOf(b, i);
  }

  lemma {:induction false} SameHeight(b: Build, i: nat, j: nat)
    requires Shaped(b) && i < |b.nodes| && j < |b.nodes| && b.nodes[i].siblings == b.nodes[j].siblings
    ensures Height(TreeOf(b, i)) == Height(TreeOf(b, j))
    decreases i + j
  {
    hide Shaped, TreeOf;
    ShapeOf(b, i);
    ShapeOf(b, j);
    if IsBranch(b, i) {
      ChildLevel(b, i);
      ChildLevel(b, j);
      ChildOf(b, i, 0);
      ChildOf(b, j, 0);
      SameHeight(b, b.nodes[i].children.start, b.nodes[j].children.start);
    }
  }

  lemma BranchEntry(b: Build, i: nat, k: nat)
    requires Shaped(b) && i < |b.nodes| && IsBranch(b, i) && k < EntryCount(b, i)
    ensures Separator(EntryAt(b, i, k)) == RecordAt(b, i, k)
    ensures ChildPage(EntryAt(b, i, k)) == PageFor(b, b.nodes[i].children.start + k)
  {
    hide Shaped, BigEndian, PageFor, EntryAt, RecordAt, FromBigEndian;
    EntryParts(b, i, k);
    var page := PageFor(b, b.nodes[i].children.start + k);
    var record, child := RecordAt(b, i, k), BigEndian(page, 4);
    FourBytes();
    BigEndianRoundTrip(page, 4);
    assert (record + child)[..|record|] == record && (record + child)[|record|..] == child;
  }

  lemma FourBytes()
    ensures Pow256(4) == 0x1_0000_0000
  {
    assert Pow256(4) == 256 * 256 * 256 * 256 * Pow256(0);
  }

  /** The largest record of child `k` is smaller than the first record of the next child. */
  ghost predicate SeparatorStrict(b: Build, i: nat, k: nat)
    requires Shaped(b) && i < |b.nodes| && IsBranch(b, i) && k < EntryCount(b, i)
  {
    ShapeOf(b, i);
    ShapeOf(b, b.nodes[i].children.start + k + 1);
    Less(RecordAt(b, i, k), b.records[b.nodes[b.nodes[i].children.start + k + 1].entries.start])
  }

  /** Separators written by the builder bracket their children exactly when records grow across pages. */
  lemma TreeChildrenAccepted(b: Build, i: nat)
    requires Shaped(b) && i < |b.nodes| && IsBranch(b, i)
    ensures var t := TreeOf(b, i);
            && |t.children| == |t.node.entries| + 1
            && (ChildrenAccepted(t) <==> forall k: nat :: k < EntryCount(b, i) ==> SeparatorStrict(b, i, k))
  {
    hide Shaped, TreeOf, Low, High, IsEmpty, Height, Less, EntryAt, RecordAt, Separator, SeparatorStrict;
    ShapeOf(b, i);
    ChildLevel(b, i);
    var t, c := TreeOf(b, i), b.nodes[i].children;
    forall k: nat | k < |t.children| ensures !IsEmpty(t.children[k]) && Height(t.children[k]) == Height(t.children[0]) {
      ChildOf(b, i, k);
      ChildOf(b, i, 0);
      TreeEnds(b, c.start + k);
      SameHeight(b, c.start + k, c.start);
    }
    forall k: nat | k < |t.node.entries|
      ensures AtMost(High(t.children[k]), Separator(t.node.entries[k]))
      ensures Less(Separator(t.node.entries[k]), Low(t.children[k + 1])) <==> SeparatorStrict(b, i, k)
    {
      SeparatorBrackets(b, i, k);
    }
    if ChildrenAccepted(t) {
      forall k: nat | k < EntryCount(b, i) ensures SeparatorStrict(b, i, k) {
        assert Less(Separator(t.node.entries[k]), Low(t.children[k + 1]));
      }
    }
  }

  lemma SeparatorBrackets(b: Build, i: nat, k: nat)
    requires Shaped(b) && i < |b.nodes| && IsBranch(b, i) && k < EntryCount(b, i)
    ensures var t := TreeOf(b, i);
            && k + 1 < |t.children|
            && High(t.children[k]) == Separator(t.node.entries[k])
            && (Less(Separator(t.node.entries[k]), Low(t.children[k + 1])) <==> SeparatorStrict(b, i, k))
  {
    hide Shaped, TreeOf, Low, High, IsEmpty, Less, Separator, EntryAt;
    ShapeOf(b, i);
    var t, c := TreeOf(b, i), b.nodes[i].children.start + k;
    ChildOf(b, i, k);
    ChildOf(b, i, k + 1);
    TreeEnds(b, c);
    TreeEnds(b, c + 1);
    BranchEntry(b, i, k);
    assert t.node.entries[k] == EntryAt(b, i, k);
  }

  // ----- What the decoder checks of a build -----

  /** Every check of the decoder on one node and the boundaries between its children. */
  ghost predicate NodeReadable(b: Build, fields: seq<Field>, i: nat)
    requires Shaped(b) && i < |b.nodes|
  {
    && NodeDecodable(b, fields, i)
    && (IsBranch(b, i) ==> forall k: nat :: k < EntryCount(b, i) ==> SeparatorStrict(b, i, k))
  }

  ghost predicate AllReadable(b: Build, fields: seq<Field>, ordinals: set<nat>)
    requires Shaped(b)
  {
    forall d :: d in ordinals && d < |b.nodes| ==> NodeReadable(b, fields, d)
  }

  /** The traversal of a subtree is the run of records its node covers. */
  lemma {:induction false} TreeSpells(b: Build, i: nat)
    requires Shaped(b) && i < |b.nodes|
    ensures b.nodes[i].entries.start <= b.nodes[i].entries.end <= |b.records|
    ensures LeafEntries(TreeOf(b, i)) == b.records[b.nodes[i].entries.start..b.nodes[i].entries.end]
    decreases i, 1
  {
    hide Shaped, TreeOf;
    ShapeOf(b, i);
    var n, t := b.nodes[i], TreeOf(b, i);
    if IsBranch(b, i) {
      ChildrenSpell(b, i, |t.children|);
      ChildLevel(b, i);
      assert t.children[..|t.children|] == t.children;
    } else {
      forall k: nat | k < |t.node.entries| ensures t.node.entries[k] == b.records[n.entries.start + k] {
        assert t.node.entries[k] == EntryAt(b, i, k);
      }
    }
  }

  lemma {:induction false} ChildrenSpell(b: Build, i: nat, k: nat)
    requires Shaped(b) && i < |b.nodes| && IsBranch(b, i) && 0 < k <= |TreeOf(b, i).children|
    ensures var last := b.nodes[i].children.start + k - 1;
            && last < |b.nodes| && b.nodes[i].entries.start <= b.nodes[last].entries.end <= |b.records|
            && LeafEntriesAll(TreeOf(b, i).children[..k])
               == b.records[b.nodes[i].entries.start..b.nodes[last].entries.end]
    decreases i, 0, k
  {
    hide Shaped, TreeOf, LeafEntries;
    ShapeOf(b, i);
    ChildLevel(b, i);
    var t, last := TreeOf(b, i), b.nodes[i].children.start + k - 1;
    ChildOf(b, i, k - 1);
    TreeSpells(b, last);
    var prefix := t.children[..k];
    assert prefix[..k - 1] == t.children[..k - 1];
    if k > 1 {
      ChildrenSpell(b, i, k - 1);
      NextChild(b, last, last - 1);
    }
  }

  // ----- The visit -----

  /** The nodes of a subtree. */
  ghost function Ordinals(b: Build, i: nat): (r: set<nat>)
    requires Shaped(b) && i < |b.nodes|
    decreases i, 1
  {
    ShapeOf(b, i);
    {i} + OrdinalsTo(b, b.nodes[i].children.start, b.nodes[i].children.end)
  }

  ghost function OrdinalsTo(b: Build, start: nat, end: nat): (r: set<nat>)
    requires Shaped(b) && end <= |b.nodes|
    decreases end, 0
  {
    if start >= end then {} else OrdinalsTo(b, start, end - 1) + Ordinals(b, end - 1)
  }

  /** Nodes of a subtree lie before its root and cover part of its records. */
  lemma {:induction false} OrdinalsInside(b: Build, i: nat, d: nat)
    requires Shaped(b) && i < |b.nodes| && d in Ordinals(b, i)
    ensures d <= i && b.nodes[i].entries.start <= b.nodes[d].entries.start
    ensures b.nodes[d].entries.end <= b.nodes[i].entries.end
    decreases i, 1
  {
    hide Shaped;
    if d != i {
      ShapeOf(b, i);
      ChildLevel(b, i);
      OrdinalsToInside(b, b.nodes[i].children.start, b.nodes[i].children.end, d);
    }
  }

  lemma {:induction false} OrdinalsToInside(b: Build, start: nat, end: nat, d: nat)
    requires Shaped(b) && start < end <= |b.nodes| && b.nodes[start].siblings == b.nodes[end - 1].siblings
    requires d in OrdinalsTo(b, start, end)
    ensures d < end && b.nodes[start].entries.start <= b.nodes[d].entries.start
    ensures b.nodes[d].entries.end <= b.nodes[end - 1].entries.end
    decreases end, 0
  {
    hide Shaped;
    ShapeOf(b, start);
    ShapeOf(b, end - 1);
    if end - 1 > start {
      NextChild(b, start, end - 2);
      if d in OrdinalsTo(b, start, end - 1) {
        OrdinalsToInside(b, start, end - 1, d);
      } else {
        OrdinalsInside(b, end - 1, d);
        RunOfSiblings(b, start, end - 1);
      }
    } else {
      assert OrdinalsTo(b, start, start) == {};
      OrdinalsInside(b, end - 1, d);
    }
  }

  lemma {:induction false} RunOfSiblings(b: Build, a: nat, c: nat)
    requires Shaped(b) && a <= c < |b.nodes| && b.nodes[a].siblings == b.nodes[c].siblings
    ensures b.nodes[a].entries.start <= b.nodes[c].entries.start
    decreases c
  {
    hide Shaped;
    if a < c {
      ShapeOf(b, a);
      ShapeOf(b, c);
      NextChild(b, a, c - 1);
      RunOfSiblings(b, a, c - 1);
      ShapeOf(b, c - 1);
    }
  }

  /** A later sibling's subtree shares no node with the earlier ones. */
  lemma SubtreesApart(b: Build, start: nat, end: nat)
    requires Shaped(b) && |b.records| > 0 && start < end < |b.nodes| && b.nodes[start].siblings == b.nodes[end].siblings
    ensures OrdinalsTo(b, start, end) !! Ordinals(b, end)
  {
    hide Shaped, OrdinalsTo, Ordinals;
    ShapeOf(b, start);
    ShapeOf(b, end);
    NextChild(b, start, end - 1);
    forall d | d in OrdinalsTo(b, start, end) ensures d !in Ordinals(b, end) {
      OrdinalsToInside(b, start, end, d);
      ShapeOf(b, d);
      if d in Ordinals(b, end) {
        OrdinalsInside(b, end, d);
      }
    }
  }

  ghost function PagesOf(b: Build, ordinals: set<nat>): (r: set<nat>) {
    set d | d in ordinals :: PageFor(b, d)
  }

  ghost predicate Inhabited(b: Build, ordinals: set<nat>) {
    forall d :: d in ordinals ==> d < |b.nodes|
  }

  lemma PagesApart(b: Build, a: set<nat>, c: set<nat>)
    requires Ready(b) && a !! c && Inhabited(b, a) && Inhabited(b, c)
    ensures PagesOf(b, a) !! PagesOf(b, c)
  {
    hide Planned, PageFor;
  }

  lemma SubtreeInhabited(b: Build, i: nat)
    requires Shaped(b) && i < |b.nodes|
    ensures Inhabited(b, Ordinals(b, i))
  {
    hide Shaped, Ordinals;
    forall d | d in Ordinals(b, i) ensures d < |b.nodes| {
      OrdinalsInside(b, i, d);
    }
  }

  lemma {:induction false} SubtreesInhabited(b: Build, start: nat, end: nat)
    requires Shaped(b) && end <= |b.nodes|
    ensures Inhabited(b, OrdinalsTo(b, start, end))
    decreases end
  {
    hide Shaped, Ordinals;
    if start < end {
      SubtreesInhabited(b, start, end - 1);
      SubtreeInhabited(b, end - 1);
    }
  }

  /** Every planned page is in the file. */
  ghost predicate Written(index: Index, b: Build, originals: seq<Image>)
    requires Planned(b.nodes, b.records) && b.owner < 0x1_0000_0000
  {
    && index.owner == b.owner && |originals| == |b.nodes|
    && forall i: nat :: i < |b.nodes| ==> PageWritten(index, b, originals[i], i)
  }

  ghost predicate PageWritten(index: Index, b: Build, original: Image, i: nat)
    requires Planned(b.nodes, b.records) && b.owner < 0x1_0000_0000 && i < |b.nodes|
  {
    EntriesFit(b, i);
    PageOf(index.data, PageFor(b, i)) == Accepted(BuiltPage(b, original, i))
  }

  lemma PageReads(index: Index, b: Build, originals: seq<Image>, i: nat, depth: nat)
    requires Ready(b) && Written(index, b, originals) && i < |b.nodes|
    ensures Shaped(b) && PageOf(index.data, PageFor(b, i)).Accepted?
    ensures DecodeNode(PageOf(index.data, PageFor(b, i)).value, depth, index.owner, index.fields)
            == if NodeDecodable(b, index.fields, i) then Accepted(NodeAt(b, i)) else Rejected
  {
    hide DecodeNode, BuiltPage, NodeAt, PageOf, Concat, PageFor, NodeDecodable;
    ReadyShaped(b);
    assert PageWritten(index, b, originals[i], i);
    EntriesFit(b, i);
    PageDecodes(b, index.fields, originals[i], i, depth);
  }

  lemma ChildPagesAre(b: Build, i: nat)
    requires Shaped(b) && i < |b.nodes| && IsBranch(b, i)
    ensures var c := b.nodes[i].children;
            && |ChildPages(NodeAt(b, i))| == c.end - c.start
            && forall k :: 0 <= k < c.end - c.start ==> ChildPages(NodeAt(b, i))[k] == PageFor(b, c.start + k)
  {
    hide Shaped, EntryAt, PageFor, ChildPage;
    ShapeOf(b, i);
    var c, pages := b.nodes[i].children, ChildPages(NodeAt(b, i));
    forall k: nat | k < c.end - c.start ensures pages[k] == PageFor(b, c.start + k) {
      if k < EntryCount(b, i) {
        BranchEntry(b, i, k);
      }
    }
  }

  /** The visit of a built subtree returns the planned tree, or refuses it exactly when a node is not readable. */
  lemma {:induction false} VisitBuilt(index: Index, b: Build, originals: seq<Image>, i: nat, depth: nat, seen: set<nat>)
    requires Ready(b) && Written(index, b, originals) && i < |b.nodes| && Shaped(b)
    requires depth + Height(TreeOf(b, i)) <= 32 && seen !! PagesOf(b, Ordinals(b, i))
    ensures Visit(index, PageFor(b, i), depth, seen)
            == if AllReadable(b, index.fields, Ordinals(b, i))
               then Accepted((TreeOf(b, i), seen + PagesOf(b, Ordinals(b, i)))) else Rejected
    decreases i, 1, 0
  {
    hide Ready, Written, Shaped, TreeOf, DecodeNode, PageOf, NodeAt, ChildrenAccepted, PageFor, ChildPages, OrdinalsTo,
         Planned, VisitAll, NodeDecodable, SeparatorStrict;
    var t, c := TreeOf(b, i), b.nodes[i].children;
    ShapeOf(b, i);
    PageReads(index, b, originals, i, depth);
    assert PageFor(b, i) in PagesOf(b, Ordinals(b, i));
    BranchFlag(b, i);
    if IsBranch(b, i) {
      ChildPagesAre(b, i);
      var inner := OrdinalsTo(b, c.start, c.end);
      ChildrenLater(b, i);
      VisitBuiltAll(index, b, originals, i, |t.children|, depth + 1, seen + {PageFor(b, i)});
      assert ChildPages(NodeAt(b, i))[..|t.children|] == ChildPages(NodeAt(b, i));
      assert t.children[..|t.children|] == t.children;
      TreeChildrenAccepted(b, i);
      assert AllReadable(b, index.fields, Ordinals(b, i))
          <==> NodeReadable(b, index.fields, i) && AllReadable(b, index.fields, inner);
      assert PagesOf(b, Ordinals(b, i)) == {PageFor(b, i)} + PagesOf(b, inner);
      assert seen + {PageFor(b, i)} + PagesOf(b, inner) == seen + PagesOf(b, Ordinals(b, i));
      assert t == Tree(PageFor(b, i), NodeAt(b, i), t.children);
    } else {
      NoOrdinals(b, c.start, c.end);
      assert AllReadable(b, index.fields, Ordinals(b, i)) <==> NodeReadable(b, index.fields, i);
      assert PagesOf(b, Ordinals(b, i)) == {PageFor(b, i)};
      assert t.children == [];
    }
  }

  lemma BranchFlag(b: Build, i: nat)
    requires Shaped(b) && i < |b.nodes|
    ensures NodeAt(b, i).branch == IsBranch(b, i)
  {
  }

  lemma NoOrdinals(b: Build, start: nat, end: nat)
    requires Shaped(b) && end <= |b.nodes| && start >= end
    ensures OrdinalsTo(b, start, end) == {}
  {
  }

  /** The page of a branch is not among the pages below it. */
  lemma ChildrenLater(b: Build, i: nat)
    requires Ready(b) && Shaped(b) && i < |b.nodes| && IsBranch(b, i)
    ensures b.nodes[i].children.end <= |b.nodes|
    ensures PageFor(b, i) !in PagesOf(b, OrdinalsTo(b, b.nodes[i].children.start, b.nodes[i].children.end))
  {
    hide Ready, Shaped, OrdinalsTo, PageFor;
    ShapeOf(b, i);
    ChildLevel(b, i);
    var c := b.nodes[i].children;
    var inner := OrdinalsTo(b, c.start, c.end);
    SubtreesInhabited(b, c.start, c.end);
    if i in inner {
      OrdinalsToInside(b, c.start, c.end, i);
    }
    assert Inhabited(b, {i});
    PagesApart(b, {i}, inner);
    assert PageFor(b, i) in PagesOf(b, {i});
  }

  lemma {:induction false} VisitBuiltAll(index: Index, b: Build, originals: seq<Image>, i: nat, k: nat, depth: nat,
                                         seen: set<nat>)
    requires Ready(b) && Written(index, b, originals) && i < |b.nodes| && Shaped(b)
    requires IsBranch(b, i) && k <= |TreeOf(b, i).children| && depth + Height(TreeOf(b, i)) <= 33
    requires b.nodes[i].children.end <= |b.nodes|
    requires seen !! PagesOf(b, OrdinalsTo(b, b.nodes[i].children.start, b.nodes[i].children.end))
    ensures |ChildPages(NodeAt(b, i))| == |TreeOf(b, i).children|
    ensures VisitAll(index, ChildPages(NodeAt(b, i))[..k], depth, seen)
            == var below := OrdinalsTo(b, b.nodes[i].children.start, b.nodes[i].children.start + k);
               if AllReadable(b, index.fields, below)
               then Accepted((TreeOf(b, i).children[..k], seen + PagesOf(b, below))) else Rejected
    decreases i, 0, k
  {
    hide Ready, Written, Shaped, TreeOf, NodeAt, ChildPages, PageFor, Planned, Visit, Ordinals, Height, NodeReadable;
    var t, c, numbers := TreeOf(b, i), b.nodes[i].children, ChildPages(NodeAt(b, i));
    ShapeOf(b, i);
    ChildPagesAre(b, i);
    if k == 0 {
      NoOrdinals(b, c.start, c.start);
      assert seen + PagesOf(b, {}) == seen;
      assert numbers[..0] == [] && t.children[..0] == [];
    } else {
      var child := c.start + k - 1;
      VisitBuiltAll(index, b, originals, i, k - 1, depth, seen);
      assert numbers[..k][..k - 1] == numbers[..k - 1] && numbers[..k][k - 1] == PageFor(b, child);
      ChildOf(b, i, k - 1);
      ChildHeight(b, i, k - 1);
      LaterChild(b, i, k - 1);
      var middle := seen + PagesOf(b, OrdinalsTo(b, c.start, child));
      assert middle !! PagesOf(b, Ordinals(b, child)) by {
        OrdinalsMonotone(b, c.start, child + 1, c.end);
      }
      VisitBuilt(index, b, originals, child, depth, middle);
      assert t.children[..k] == t.children[..k - 1] + [t.children[k - 1]];
      assert OrdinalsTo(b, c.start, c.start + k) == OrdinalsTo(b, c.start, child) + Ordinals(b, child);
      assert AllReadable(b, index.fields, OrdinalsTo(b, c.start, c.start + k)) <==>
        AllReadable(b, index.fields, OrdinalsTo(b, c.start, child)) && AllReadable(b, index.fields, Ordinals(b, child));
      assert PagesOf(b, OrdinalsTo(b, c.start, c.start + k))
          == PagesOf(b, OrdinalsTo(b, c.start, child)) + PagesOf(b, Ordinals(b, child));
      assert middle + PagesOf(b, Ordinals(b, child)) == seen + PagesOf(b, OrdinalsTo(b, c.start, c.start + k));
    }
  }

  lemma {:induction false} OrdinalsMonotone(b: Build, start: nat, middle: nat, end: nat)
    requires Shaped(b) && start < middle <= end <= |b.nodes|
    ensures Ordinals(b, middle - 1) <= OrdinalsTo(b, start, middle) <= OrdinalsTo(b, start, end)
    decreases end
  {
    hide Shaped, Ordinals;
    if middle < end {
      OrdinalsMonotone(b, start, middle, end - 1);
    }
  }

  lemma ChildHeight(b: Build, i: nat, k: nat)
    requires Shaped(b) && i < |b.nodes| && k < |TreeOf(b, i).children|
    ensures Height(TreeOf(b, i).children[k]) + 1 == Height(TreeOf(b, i))
  {
    hide Shaped, TreeOf;
    ShapeOf(b, i);
    ChildLevel(b, i);
    ChildOf(b, i, k);
    ChildOf(b, i, 0);
    SameHeight(b, b.nodes[i].children.start + k, b.nodes[i].children.start);
  }

  lemma LaterChild(b: Build, i: nat, k: nat)
    requires Ready(b) && Shaped(b) && i < |b.nodes| && k < |TreeOf(b, i).children|
    ensures var c := b.nodes[i].children.start;
            c + k < |b.nodes| && PagesOf(b, OrdinalsTo(b, c, c + k)) !! PagesOf(b, Ordinals(b, c + k))
  {
    hide Ready, Shaped, TreeOf, Ordinals, OrdinalsTo;
    ShapeOf(b, i);
    ChildLevel(b, i);
    var c := b.nodes[i].children.start;
    SubtreesInhabited(b, c, c + k);
    SubtreeInhabited(b, c + k);
    if k > 0 {
      SubtreesApart(b, c, c + k);
    } else {
      NoOrdinals(b, c, c);
    }
    PagesApart(b, OrdinalsTo(b, c, c + k), Ordinals(b, c + k));
  }

  // ----- Levels and their links -----

  /** The nodes `k` levels below node `i`, as a range of ordinals; empty below the leaves. */
  ghost function Descendants(b: Build, i: nat, k: nat): (s: Span)
    requires Shaped(b) && i < |b.nodes|
    decreases k
  {
    ShapeOf(b, i);
    if k == 0 then Span(i, i + 1)
    else if !IsBranch(b, i) then Span(0, 0)
    else
      var c := b.nodes[i].children;
      Span(Descendants(b, c.start, k - 1).start, Descendants(b, c.end - 1, k - 1).end)
  }

  /** The level `k` below a level. */
  ghost function Level(b: Build, s: Span, k: nat): (r: Span)
    requires Shaped(b) && s.start <= |b.nodes|
    decreases k
  {
    if k == 0 then s
    else if s.start == 0 then Span(0, 0)
    else
      ShapeOf(b, s.start - 1);
      Level(b, LevelBelow(b.nodes, s.start), k - 1)
  }

  /** Descendants of neighbours are neighbours, and those of a whole level are a whole level. */
  lemma {:induction false} DescendantsTile(b: Build, i: nat, k: nat)
    requires Shaped(b) && i < |b.nodes|
    ensures var s := b.nodes[i].siblings;
            && s.start <= i < s.end <= |b.nodes|
            && (i == s.start ==> Descendants(b, i, k).start == Level(b, s, k).start)
            && (i + 1 == s.end ==> Descendants(b, i, k).end == Level(b, s, k).end)
            && (i + 1 < s.end ==> Descendants(b, i, k).end == Descendants(b, i + 1, k).start)
            && Descendants(b, i, k).start <= Descendants(b, i, k).end
    decreases k, 0, 0
  {
    hide Shaped;
    ShapeOf(b, i);
    var n, s := b.nodes[i], b.nodes[i].siblings;
    if i + 1 < s.end {
      NextChild(b, i, i + 1);
      ShapeOf(b, i + 1);
    }
    if k > 0 && IsBranch(b, i) {
      ChildLevel(b, i);
      ParentMeets(b, i);
      if i + 1 < s.end {
        ChildLevel(b, i + 1);
      }
      DescendantsTile(b, n.children.start, k - 1);
      DescendantsTile(b, n.children.end - 1, k - 1);
      DescendantsRun(b, n.children.start, n.children.end - 1, k - 1);
    }
  }

  lemma {:induction false} DescendantsRun(b: Build, a: nat, c: nat, k: nat)
    requires Shaped(b) && a <= c < |b.nodes| && b.nodes[a].siblings == b.nodes[c].siblings
    ensures Descendants(b, a, k).start <= Descendants(b, c, k).start <= Descendants(b, c, k).end
    decreases k, 1, c
  {
    hide Shaped, Descendants;
    DescendantsTile(b, c, k);
    if a < c {
      ShapeOf(b, a);
      ShapeOf(b, c);
      NextChild(b, a, c - 1);
      DescendantsRun(b, a, c - 1, k);
      DescendantsTile(b, c - 1, k);
    }
  }

  /** Where the children of a branch end relative to its level. */
  lemma ParentMeets(b: Build, i: nat)
    requires Shaped(b) && i < |b.nodes| && IsBranch(b, i)
    ensures var n, s := b.nodes[i], b.nodes[i].siblings;
            && s.start <= |b.nodes|
            && (i == s.start ==> n.children.start == LevelBelow(b.nodes, s.start).start)
            && (i + 1 == s.end ==> n.children.end == LevelBelow(b.nodes, s.start).end)
            && (i + 1 < s.end ==> i + 1 < |b.nodes| && b.nodes[i + 1].children.start == n.children.end)
  {
    hide Placed;
    ShapeOf(b, i);
    assert NodeShaped(b.nodes, |b.records|, i);
  }

  /** The decoder's records of a range of nodes. */
  ghost function Row(b: Build, s: Span, depth: nat): (r: seq<Visited>)
    requires Shaped(b) && s.end <= |b.nodes|
    ensures |r| == if s.start < s.end then s.end - s.start else 0
    decreases s.end
  {
    if s.start >= s.end then []
    else Row(b, Span(s.start, s.end - 1), depth) + [IndexTrees.Record(TreeOf(b, s.end - 1), depth)]
  }

  lemma {:induction false} RowAt(b: Build, s: Span, depth: nat, j: nat)
    requires Shaped(b) && s.end <= |b.nodes| && s.start + j < s.end
    ensures Row(b, s, depth)[j] == IndexTrees.Record(TreeOf(b, s.start + j), depth)
    decreases s.end
  {
    hide Shaped, TreeOf, IndexTrees.Record;
    if s.start + j < s.end - 1 {
      RowAt(b, Span(s.start, s.end - 1), depth, j);
    }
  }

  lemma {:induction false} DescendantsBound(b: Build, i: nat, k: nat)
    requires Shaped(b) && i < |b.nodes|
    ensures Descendants(b, i, k).end <= |b.nodes|
    decreases k
  {
    hide Shaped;
    ShapeOf(b, i);
    if k > 0 && IsBranch(b, i) {
      DescendantsBound(b, b.nodes[i].children.end - 1, k - 1);
    }
  }

  /** What the decoder visits `k` levels below a node is exactly the range of its descendants. */
  lemma {:induction false} LevelVisited(b: Build, i: nat, k: nat, depth: nat)
    requires Shaped(b) && i < |b.nodes|
    ensures Descendants(b, i, k).end <= |b.nodes|
    ensures AtDepth(Preorder(TreeOf(b, i), depth), depth + k) == Row(b, Descendants(b, i, k), depth + k)
    decreases k, 1, 0
  {
    hide Shaped, TreeOf, AtDepth, IndexTrees.Record, Preorder, PreorderAll, Row, Descendants;
    var t := TreeOf(b, i);
    DescendantsBound(b, i, k);
    DescendantsOf(b, i, k);
    ShapeOf(b, i);
    HeadThenChildren(t, depth, depth + k);
    if k == 0 {
      NoneAboveAll(t.children, depth + 1, depth);
      OneNode(b, i, depth);
    } else if IsBranch(b, i) {
      ChildrenVisited(b, i, k, |t.children|, depth);
      assert t.children[..|t.children|] == t.children;
    } else {
      NothingBelow(b, t, depth, depth + k);
    }
  }

  lemma DescendantsOf(b: Build, i: nat, k: nat)
    requires Shaped(b) && i < |b.nodes|
    ensures var c := b.nodes[i].children;
            && (IsBranch(b, i) ==> c.end <= |b.nodes|)
            && Descendants(b, i, k)
               == if k == 0 then Span(i, i + 1)
                  else if IsBranch(b, i) then Span(Descendants(b, c.start, k - 1).start,
                                                   Descendants(b, c.end - 1, k - 1).end)
                  else Span(0, 0)
  {
    hide Shaped;
    ShapeOf(b, i);
  }

  lemma OneNode(b: Build, i: nat, depth: nat)
    requires Shaped(b) && i < |b.nodes|
    ensures Row(b, Span(i, i + 1), depth) == [IndexTrees.Record(TreeOf(b, i), depth)]
  {
    hide Shaped, TreeOf, IndexTrees.Record;
    assert Row(b, Span(i, i), depth) == [];
  }

  lemma NothingBelow(b: Build, t: Tree, depth: nat, d: nat)
    requires Shaped(b) && t.children == []
    ensures AtDepth(PreorderAll(t.children, depth + 1), d) == [] == Row(b, Span(0, 0), d)
  {
    hide Shaped, TreeOf;
  }

  lemma HeadThenChildren(t: Tree, depth: nat, d: nat)
    ensures AtDepth(Preorder(t, depth), d)
            == (if d == depth then [IndexTrees.Record(t, depth)] else [])
            + AtDepth(PreorderAll(t.children, depth + 1), d)
  {
    hide AtDepth, IndexTrees.Record, PreorderAll;
    RecordDepth(t, depth);
    SingleAtDepth(IndexTrees.Record(t, depth), d);
    AtDepthConcat([IndexTrees.Record(t, depth)], PreorderAll(t.children, depth + 1), d);
  }

  lemma RecordDepth(t: Tree, depth: nat)
    ensures IndexTrees.Record(t, depth).depth == depth
  {
  }

  lemma {:induction false} NoneAbove(t: Tree, depth: nat, d: nat)
    requires d < depth
    ensures AtDepth(Preorder(t, depth), d) == []
    decreases t, 1
  {
    hide AtDepth, IndexTrees.Record;
    RecordDepth(t, depth);
    SingleAtDepth(IndexTrees.Record(t, depth), d);
    NoneAboveAll(t.children, depth + 1, d);
    AtDepthConcat([IndexTrees.Record(t, depth)], PreorderAll(t.children, depth + 1), d);
  }

  lemma {:induction false} NoneAboveAll(ts: seq<Tree>, depth: nat, d: nat)
    requires d < depth
    ensures AtDepth(PreorderAll(ts, depth), d) == []
    decreases ts, 0
  {
    hide AtDepth, Preorder;
    if ts == [] {
      NothingAtDepth(d);
    } else {
      NoneAboveAll(ts[..|ts| - 1], depth, d);
      NoneAbove(ts[|ts| - 1], depth, d);
      AtDepthConcat(PreorderAll(ts[..|ts| - 1], depth), Preorder(ts[|ts| - 1], depth), d);
    }
  }

  lemma {:induction false} ChildrenVisited(b: Build, i: nat, k: nat, m: nat, depth: nat)
    requires Shaped(b) && i < |b.nodes| && IsBranch(b, i) && 0 < k && 0 < m <= |TreeOf(b, i).children|
    ensures var c := b.nodes[i].children.start;
            && c + m - 1 < |b.nodes| && Descendants(b, c + m - 1, k - 1).end <= |b.nodes|
            && AtDepth(PreorderAll(TreeOf(b, i).children[..m], depth + 1), depth + k)
               == Row(b, Span(Descendants(b, c, k - 1).start, Descendants(b, c + m - 1, k - 1).end), depth + k)
    decreases k, 0, m
  {
    hide Shaped, TreeOf, AtDepth, Preorder, Descendants, Row;
    var t, c := TreeOf(b, i), b.nodes[i].children.start;
    ChildSpans(b, i, k, m - 1);
    var prefix, last := t.children[..m], c + m - 1;
    ChildOf(b, i, m - 1);
    LevelVisited(b, last, k - 1, depth + 1);
    assert prefix[..m - 1] == t.children[..m - 1];
    AtDepthConcat(PreorderAll(prefix[..m - 1], depth + 1), Preorder(prefix[m - 1], depth + 1), depth + k);
    if m > 1 {
      ChildrenVisited(b, i, k, m - 1, depth);
      RowsJoin(b, Descendants(b, c, k - 1).start, Descendants(b, last, k - 1).start, Descendants(b, last, k - 1).end,
               depth + k);
    } else {
      NothingAtDepth(depth + k);
      assert PreorderAll(prefix[..0], depth + 1) == [];
    }
  }

  /** Descendants of consecutive children of a branch lie side by side. */
  lemma ChildSpans(b: Build, i: nat, k: nat, m: nat)
    requires Shaped(b) && i < |b.nodes| && IsBranch(b, i) && 0 < k && m < |TreeOf(b, i).children|
    ensures var c := b.nodes[i].children.start;
            && c + m < |b.nodes|
            && Descendants(b, c, k - 1).start <= Descendants(b, c + m, k - 1).start <= Descendants(b, c + m, k - 1).end
            && (m > 0 ==> Descendants(b, c + m - 1, k - 1).end == Descendants(b, c + m, k - 1).start)
  {
    hide Shaped, TreeOf, Descendants, Level;
    ShapeOf(b, i);
    ChildLevel(b, i);
    var c := b.nodes[i].children.start;
    DescendantsTile(b, c + m, k - 1);
    if m > 0 {
      DescendantsTile(b, c + m - 1, k - 1);
    }
    DescendantsRun(b, c, c + m, k - 1);
  }

  lemma {:induction false} RowsJoin(b: Build, start: nat, middle: nat, end: nat, depth: nat)
    requires Shaped(b) && start <= middle <= end <= |b.nodes|
    ensures Row(b, Span(start, middle), depth) + Row(b, Span(middle, end), depth) == Row(b, Span(start, end), depth)
    decreases end
  {
    hide Shaped, TreeOf, IndexTrees.Record;
    if middle < end {
      RowsJoin(b, start, middle, end - 1, depth);
    }
  }

  /** The links of a complete level are the ones the decoder demands. */
  lemma LevelLinked(b: Build, s: Span, depth: nat)
    requires Shaped(b) && s.end <= |b.nodes| && forall i :: s.start <= i < s.end ==> b.nodes[i].siblings == s
    ensures SiblingsAccepted(Row(b, s, depth))
  {
    hide Shaped, TreeOf, IndexTrees.Record, PreviousPage, NextPage, PageFor;
    var level := Row(b, s, depth);
    forall i: nat | i < |level| ensures LinkedAt(level, i) {
      assert b.nodes[s.start + i].siblings == s;
      RowLinks(b, s, depth, i);
      NeighbourPages(b, s.start + i);
      if i > 0 {
        RowLinks(b, s, depth, i - 1);
      }
      if i + 1 < |level| {
        RowLinks(b, s, depth, i + 1);
      }
    }
  }

  lemma RowLinks(b: Build, s: Span, depth: nat, i: nat)
    requires Shaped(b) && s.end <= |b.nodes| && s.start + i < s.end
    ensures var v := Row(b, s, depth)[i];
            && v.page == PageFor(b, s.start + i)
            && v.node.previous == PreviousPage(b, s.start + i) && v.node.next == NextPage(b, s.start + i)
  {
    hide Shaped, Row, TreeOf, NodeEntries, PageFor, PreviousPage, NextPage;
    RowAt(b, s, depth, i);
  }

  lemma NeighbourPages(b: Build, i: nat)
    requires i < |b.nodes|
    ensures PreviousPage(b, i) == if i > b.nodes[i].siblings.start then PageFor(b, i - 1) else 0
    ensures NextPage(b, i) == if i + 1 < b.nodes[i].siblings.end then PageFor(b, i + 1) else 0
  {
  }

  /** A level below a level is empty or a complete range of siblings. */
  lemma {:induction false} LevelComplete(b: Build, i: nat, k: nat)
    requires Shaped(b) && i < |b.nodes|
    ensures b.nodes[i].siblings.start <= |b.nodes|
    ensures var s := Level(b, b.nodes[i].siblings, k);
            s.end <= |b.nodes| && forall j :: s.start <= j < s.end ==> b.nodes[j].siblings == s
    decreases k
  {
    hide Shaped;
    ShapeOf(b, i);
    var s := b.nodes[i].siblings;
    if k == 0 {
      forall j | s.start <= j < s.end ensures b.nodes[j].siblings == s {
        NextChild(b, i, j);
      }
    } else if s.start > 0 {
      LevelComplete(b, s.start - 1, k - 1);
    }
  }

  /** Every depth the decoder looks at holds a complete level of the plan, or nothing. */
  lemma BuiltLinks(b: Build)
    requires Shaped(b)
    ensures AllSiblingsAccepted(Preorder(TreeOf(b, |b.nodes| - 1), 1))
  {
    hide Shaped, TreeOf, AtDepth, SiblingsAccepted, Preorder, Descendants, Level;
    RootAlone(b);
    var nodes := Preorder(TreeOf(b, |b.nodes| - 1), 1);
    forall depth: nat | depth <= 32 ensures SiblingsAccepted(AtDepth(nodes, depth)) {
      if depth == 0 {
        NoneAbove(TreeOf(b, |b.nodes| - 1), 1, 0);
        NoSiblings();
      } else {
        DepthLinked(b, depth - 1);
      }
    }
  }

  lemma DepthLinked(b: Build, k: nat)
    requires Shaped(b)
    ensures SiblingsAccepted(AtDepth(Preorder(TreeOf(b, |b.nodes| - 1), 1), 1 + k))
  {
    hide Shaped, TreeOf, AtDepth, SiblingsAccepted, Preorder, Descendants, Level;
    var root := |b.nodes| - 1;
    RootAlone(b);
    LevelVisited(b, root, k, 1);
    DescendantsTile(b, root, k);
    LevelComplete(b, root, k);
    LevelLinked(b, Descendants(b, root, k), 1 + k);
  }

  lemma NoSiblings()
    ensures SiblingsAccepted([])
  {
  }

  lemma RootAlone(b: Build)
    requires Shaped(b)
    ensures b.nodes != [] && b.nodes[|b.nodes| - 1].siblings == Span(|b.nodes| - 1, |b.nodes|)
    ensures b.nodes[|b.nodes| - 1].entries == Span(0, |b.records|)
  {
    hide Parent;
    assert NodeShaped(b.nodes, |b.records|, |b.nodes| - 1);
  }

  // ----- Depth -----

  /** A level has at least twice as many nodes below it. */
  lemma {:induction false} ChildrenDouble(b: Build, i: nat)
    requires Shaped(b) && i < |b.nodes| && IsBranch(b, i)
    ensures var s := b.nodes[i].siblings;
            s.start <= |b.nodes|
            && b.nodes[i].children.end >= LevelBelow(b.nodes, s.start).start + 2 * (i + 1 - s.start)
    decreases i
  {
    hide Shaped;
    ShapeOf(b, i);
    ChildLevel(b, i);
    ParentMeets(b, i);
    if i > b.nodes[i].siblings.start {
      NextChild(b, i, i - 1);
      ShapeOf(b, i - 1);
      ParentMeets(b, i - 1);
      ChildrenDouble(b, i - 1);
    }
  }

  /** A level whose subtrees have height `h` ends after at least 2^(h+1) - 1 nodes for each of its own. */
  lemma {:induction false} LevelsDouble(b: Build, i: nat)
    requires Shaped(b) && i < |b.nodes|
    ensures var s := b.nodes[i].siblings;
            s.start < s.end && s.end >= (s.end - s.start) * (2 * Pow2(Height(TreeOf(b, i))) - 1)
    decreases i
  {
    hide Shaped, TreeOf;
    ShapeOf(b, i);
    var s := b.nodes[i].siblings;
    var size := s.end - s.start;
    if IsBranch(b, i) {
      var last := s.end - 1;
      NextChild(b, i, last);
      ShapeOf(b, last);
      ChildLevel(b, i);
      ChildrenDouble(b, last);
      ParentMeets(b, last);
      ChildOf(b, i, 0);
      var child := b.nodes[i].children.start;
      LevelsDouble(b, child);
      var below := b.nodes[child].siblings;
      DoubleStep(size, below.end - below.start, Pow2(Height(TreeOf(b, child))), below.end);
    } else {
      assert Height(TreeOf(b, i)) == 0;
    }
  }

  lemma DoubleStep(size: nat, below: nat, power: nat, end: nat)
    requires below >= 2 * size && power > 0 && end >= below * (2 * power - 1)
    ensures end + size >= size * (2 * (2 * power) - 1)
  {
    var q := 2 * power - 1;
    Scaled(2 * size, below, q);
    assert size * (2 * (2 * power) - 1) == size * (2 * q + 1) == 2 * size * q + size;
  }

  lemma Scaled(a: nat, c: nat, q: nat)
    requires a <= c
    ensures a * q <= c * q
  {
  }

  lemma {:induction false} BoundedSet(s: set<nat>, n: nat)
    requires forall x :: x in s ==> x < n
    ensures |s| <= n
  {
    if n == 0 {
      assert s == {};
    } else {
      BoundedSet(s - {n - 1}, n - 1);
    }
  }

  /** The pages of the first `n` nodes. */
  ghost function FirstPages(b: Build, n: nat): (r: set<nat>) {
    if n == 0 then {} else FirstPages(b, n - 1) + {PageFor(b, n - 1)}
  }

  lemma {:induction false} FirstPageOf(b: Build, n: nat, p: nat) returns (i: nat)
    requires p in FirstPages(b, n)
    ensures i < n && PageFor(b, i) == p
  {
    hide PageFor;
    if p == PageFor(b, n - 1) {
      i := n - 1;
    } else {
      i := FirstPageOf(b, n - 1, p);
    }
  }

  lemma {:induction false} DistinctPagesCount(b: Build, n: nat)
    requires n <= |b.nodes| && forall i: nat, j: nat :: i < j < |b.nodes| ==> PageFor(b, i) != PageFor(b, j)
    ensures |FirstPages(b, n)| == n && forall p :: p in FirstPages(b, n) ==> p < 0x1_0000_0000
  {
    hide PageFor;
    if n > 0 {
      DistinctPagesCount(b, n - 1);
      if PageFor(b, n - 1) in FirstPages(b, n - 1) {
        var i := FirstPageOf(b, n - 1, PageFor(b, n - 1));
      }
    }
  }

  lemma {:induction false} Pow2Monotone(a: nat, c: nat)
    requires a <= c
    ensures Pow2(a) <= Pow2(c)
  {
    if a < c {
      Pow2Monotone(a, c - 1);
    }
  }

  lemma Pow2Of32()
    ensures Pow2(32) == 0x1_0000_0000
  {
    assert Pow2(8) == 256;
    assert Pow2(16) == 256 * Pow2(8);
    assert Pow2(24) == 256 * Pow2(16);
    assert Pow2(32) == 256 * Pow2(24);
  }

  lemma RootDoubles(b: Build)
    requires Shaped(b)
    ensures |b.nodes| > 0 && |b.nodes| >= 2 * Pow2(Height(TreeOf(b, |b.nodes| - 1))) - 1
  {
    hide Shaped, TreeOf, Height, Pow2;
    RootAlone(b);
    LevelsDouble(b, |b.nodes| - 1);
    OneTimes(2 * Pow2(Height(TreeOf(b, |b.nodes| - 1))) - 1);
  }

  lemma OneTimes(n: int)
    ensures 1 * n == n
  {
  }

  lemma NodesWithinPages(b: Build)
    requires Ready(b)
    ensures |b.nodes| <= 0x1_0000_0000
  {
    hide Ready, PageFor;
    ReadyPages(b);
    DistinctPagesCount(b, |b.nodes|);
    BoundedSet(FirstPages(b, |b.nodes|), 0x1_0000_0000);
  }

  /** With one 32-bit page per node no plan is deeper than the decoder follows. */
  lemma DepthBounded(b: Build)
    requires Ready(b) && Shaped(b)
    ensures 1 + Height(TreeOf(b, |b.nodes| - 1)) <= 32
  {
    hide Ready, Shaped, TreeOf, Height, Pow2;
    RootDoubles(b);
    NodesWithinPages(b);
    Pow2Of32();
    var h := Height(TreeOf(b, |b.nodes| - 1));
    if h >= 32 {
      Pow2Monotone(32, h);
    }
  }

  lemma ReadyPages(b: Build)
    requires Ready(b)
    ensures forall i: nat, j: nat :: i < j < |b.nodes| ==> PageFor(b, i) != PageFor(b, j)
  {
  }

  // ----- No page is left over -----

  /** The level above starts where this one ends. */
  lemma LevelAbove(b: Build, j: nat)
    requires Shaped(b) && j < |b.nodes| - 1
    ensures var end := b.nodes[j].siblings.end;
            && j < end < |b.nodes| && b.nodes[end].siblings.start == end && IsBranch(b, end)
            && LevelBelow(b.nodes, end) == b.nodes[j].siblings
  {
    hide Shaped;
    RootAlone(b);
    ShapeOf(b, j);
    var s := b.nodes[j].siblings;
    NextChild(b, j, s.end - 1);
    ShapeOf(b, s.end - 1);
    if s.end < |b.nodes| {
      ShapeOf(b, s.end);
      var above := b.nodes[s.end].siblings;
      if above.start < s.end {
        NextChild(b, s.end, s.end - 1);
      }
    }
  }

  /** Some branch of the level has node `j` among its children. */
  lemma {:induction false} SomeParent(b: Build, j: nat, p: nat) returns (found: nat)
    requires Shaped(b) && j < |b.nodes| - 1
    requires b.nodes[j].siblings.end <= p < |b.nodes| && b.nodes[p].siblings.start == b.nodes[j].siblings.end
    requires j < b.nodes[p].children.end
    ensures j < found <= p && b.nodes[found].children.start <= j < b.nodes[found].children.end
    decreases p
  {
    hide Shaped;
    LevelAbove(b, j);
    ShapeOf(b, j);
    ShapeOf(b, p);
    ParentMeets(b, p);
    if b.nodes[p].children.start <= j {
      found := p;
    } else {
      NextChild(b, p, p - 1);
      ShapeOf(b, p - 1);
      ParentMeets(b, p - 1);
      found := SomeParent(b, j, p - 1);
    }
  }

  lemma {:induction false} OrdinalsNest(b: Build, r: nat, p: nat, j: nat)
    requires Shaped(b) && p < |b.nodes| && r < |b.nodes| && p in Ordinals(b, r) && j in Ordinals(b, p)
    ensures j in Ordinals(b, r)
    decreases r, 1
  {
    hide Shaped;
    if p != r {
      ShapeOf(b, r);
      OrdinalsToNest(b, b.nodes[r].children.start, b.nodes[r].children.end, p, j);
    }
  }

  lemma {:induction false} OrdinalsToNest(b: Build, start: nat, end: nat, p: nat, j: nat)
    requires Shaped(b) && p < |b.nodes| && end <= |b.nodes| && p in OrdinalsTo(b, start, end) && j in Ordinals(b, p)
    ensures j in OrdinalsTo(b, start, end)
    decreases end, 0
  {
    hide Shaped;
    if p in OrdinalsTo(b, start, end - 1) {
      OrdinalsToNest(b, start, end - 1, p, j);
    } else {
      OrdinalsNest(b, end - 1, p, j);
    }
  }

  lemma {:induction false} Reached(b: Build, j: nat)
    requires Shaped(b) && j < |b.nodes|
    ensures j in Ordinals(b, |b.nodes| - 1)
    decreases |b.nodes| - j
  {
    hide Shaped, OrdinalsTo;
    if j < |b.nodes| - 1 {
      LevelAbove(b, j);
      var end := b.nodes[j].siblings.end;
      ShapeOf(b, end);
      var last := b.nodes[end].siblings.end - 1;
      NextChild(b, end, last);
      ShapeOf(b, last);
      ParentMeets(b, last);
      var p := SomeParent(b, j, last);
      Reached(b, p);
      ShapeOf(b, p);
      var c := b.nodes[p].children;
      OrdinalsMonotone(b, c.start, j + 1, c.end);
      OrdinalsNest(b, |b.nodes| - 1, p, j);
    }
  }

  lemma AllReached(b: Build, fields: seq<Field>)
    requires Shaped(b) && b.nodes != []
    ensures AllReadable(b, fields, Ordinals(b, |b.nodes| - 1)) <==> Readable(b, fields)
  {
    hide Shaped, NodeReadable, Ordinals;
    var all := Ordinals(b, |b.nodes| - 1);
    forall i: nat | i < |b.nodes| ensures i in all {
      Reached(b, i);
    }
  }

  // ----- The main result -----

  /** Every check the decoder makes of a built tree, on the records and page numbers of the build. */
  ghost predicate Readable(b: Build, fields: seq<Field>)
    requires Shaped(b)
  {
    forall i: nat :: i < |b.nodes| ==> NodeReadable(b, fields, i)
  }

  /**
   * The decoder reads every bulk-built tree: from the page of the last node, with every page of the plan in
   * the file, `tree` returns the planned levels and exactly the records in order. Nothing is asked about the
   * number or the order of the records; the tree is refused exactly when the entries of some node are out of
   * order, of a wrong width, or equal across two pages.
   */
  lemma BuiltTreeReads(index: Index, b: Build, originals: seq<Image>)
    requires Ready(b) && Written(index, b, originals)
    ensures Shaped(b)
    ensures var root := |b.nodes| - 1;
            ReadTree(index, PageFor(b, root))
            == if Readable(b, index.fields) then Accepted((Preorder(TreeOf(b, root), 1), b.records)) else Rejected
  {
    hide Ready, Written, Shaped, TreeOf, Visit, Preorder, AllSiblingsAccepted, OneLeafDepth, Sorted, LeafEntries,
         PageFor, Planned, Height, Ordinals, NodeReadable;
    ReadyShaped(b);
    RootAlone(b);
    var root := |b.nodes| - 1;
    DepthBounded(b);
    VisitBuilt(index, b, originals, root, 1, {});
    AllReached(b, index.fields);
    BuiltLinks(b);
    TreeSpells(b, root);
    assert b.records[0..|b.records|] == b.records;
    FinalChecksRedundant(index, PageFor(b, root));
  }

  /** The visit of a readable build returns the planned tree. */
  lemma BuiltVisit(index: Index, b: Build, originals: seq<Image>)
    requires Ready(b) && Written(index, b, originals) && Shaped(b) && Readable(b, index.fields)
    ensures var visit := Visit(index, PageFor(b, |b.nodes| - 1), 1, {});
            visit.Accepted? && visit.value.0 == TreeOf(b, |b.nodes| - 1)
  {
    hide Ready, Written, Shaped, TreeOf, Visit, PageFor, Planned, Height, Ordinals, NodeReadable;
    RootAlone(b);
    DepthBounded(b);
    AllReached(b, index.fields);
    VisitBuilt(index, b, originals, |b.nodes| - 1, 1, {});
  }

  /** The decoder visits the page of every planned node exactly once. */
  lemma EveryPageVisited(index: Index, b: Build, originals: seq<Image>)
    requires Ready(b) && Written(index, b, originals) && (PlannedShape(b); Readable(b, index.fields))
    ensures Shaped(b)
    ensures var pages := IndexTrees.Pages(TreeOf(b, |b.nodes| - 1));
            NoRepeats(pages) && forall p :: p in pages <==> exists i: nat :: i < |b.nodes| && PageFor(b, i) == p
  {
    hide Ready, Written, Shaped, TreeOf, Visit, PageFor, Planned, Height, Ordinals, Sound, IndexTrees.Pages, NoRepeats,
         NodeReadable;
    ReadyShaped(b);
    RootAlone(b);
    AllReached(b, index.fields);
    var root := |b.nodes| - 1;
    DepthBounded(b);
    VisitBuilt(index, b, originals, root, 1, {});
    VisitSound(index, PageFor(b, root), 1, {});
    var pages, visited := IndexTrees.Pages(TreeOf(b, root)), PagesOf(b, Ordinals(b, root));
    assert forall p :: p in pages <==> p in visited by {
      assert {} + visited == {} + set p | p in pages;
    }
    SubtreeInhabited(b, root);
    forall p ensures p in visited <==> exists i: nat :: i < |b.nodes| && PageFor(b, i) == p {
      if i: nat :| i < |b.nodes| && PageFor(b, i) == p {
        Reached(b, i);
      }
    }
  }

  /** The writer never refuses a node of a plan whose pages are assigned. */
  lemma ReadyIsAdmitted(b: Build, i: nat)
    requires Ready(b) && i < |b.nodes|
    ensures ImageAdmitted(b, i)
  {
    hide Shaped, EntryAt, RecordAt, NodeEntries, Concat, LevelsShaped, NodeFits;
    ReadyShaped(b);
    RootAlone(b);
    ShapeOf(b, i);
    EntriesFit(b, i);
    forall k: nat | k < EntryCount(b, i) ensures EntryAdmitted(b, i, k) {
      RecordIsOne(b, i, k);
    }
  }

  // ----- Depth of trees over one Long -----

  /** The tree built over single-Long records has the declared depth: 1, 2 or at least 3 levels. */
  lemma LongTreeDepth(b: Build)
    requires Planned(b.nodes, b.records) && GreedyPlan(b.nodes, b.records)
    requires forall j :: 0 <= j < |b.records| ==> |b.records[j]| == 9
    ensures Shaped(b)
    ensures var depth := 1 + Height(TreeOf(b, |b.nodes| - 1));
            && (depth == 1 <==> |b.records| <= 200)
            && (depth == 2 <==> 200 < |b.records| <= 27800)
            && (depth >= 3 <==> 27800 < |b.records|)
  {
    hide Shaped, TreeOf, GreedyPlan, NodeFits, LevelsShaped;
    assert Shaped(b) by {
      PlannedShape(b);
    }
    DeclaredDepths(b.nodes, b.records);
    var root := |b.nodes| - 1;
    RootAlone(b);
    ShapeOf(b, root);
    if IsBranch(b, root) {
      ChildLevel(b, root);
      ChildOf(b, root, 0);
      ShapeOf(b, b.nodes[root].children.start);
    }
  }

  lemma PlannedShape(b: Build)
    requires Planned(b.nodes, b.records)
    ensures Shaped(b)
  {
  }
}
