/**
 * Table-definition page chains (`definition` and `file_offset` in oracle/windows-dao/structure.py).
 *
 * A definition starts on its root page and continues on pages linked by the word at offset 4; every
 * continuation page contributes its bytes from offset 8 on. The reassembled body can be patched through
 * `FileOffset`, which says where each logical byte lives in the file.
 */
module Definitions {
  import opened Bytes
  import opened DataPages

  const PREFIX: seq<byte> := [0x02, 0x01, 0x56, 0x43]

  predicate IsDefinitionPage(data: seq<byte>, page: nat) {
    PageOf(data, page).Accepted? && PageOf(data, page).value[..4] == PREFIX
  }

  /** The page named by a definition page, or 0. */
  function NextPage(data: seq<byte>, page: nat): (n: nat) {
    if PageOf(data, page).Accepted? then U32(PageOf(data, page).value, 4) else 0
  }

  // ----- Following the chain -----

  function Unvisited(data: seq<byte>, pages: seq<nat>): (r: set<nat>) {
    set p | 0 <= p < PageCount(data) && p !in pages
  }

  /** The pages from `current` on, refused when one repeats, lies outside the image or is no definition page. */
  function Follow(data: seq<byte>, current: nat, pages: seq<nat>): (r: Result<seq<nat>>)
    decreases Unvisited(data, pages)
  {
    if current == 0 then Accepted(pages)
    else if current in pages || !IsDefinitionPage(data, current) then Rejected
    else
      assert current in Unvisited(data, pages) && current !in Unvisited(data, pages + [current]);
      Follow(data, NextPage(data, current), pages + [current])
  }

  /** The bytes contributed by the pages of a chain. */
  function BodyOf(data: seq<byte>, pages: seq<nat>): (r: seq<byte>)
    requires forall i :: 0 <= i < |pages| ==> PageOf(data, pages[i]).Accepted?
  {
    if pages == [] then []
    else
      var n := |pages| - 1;
      var image := PageOf(data, pages[n]).value;
      BodyOf(data, pages[..n]) + (if n == 0 then image else image[8..])
  }

  datatype Definition = Definition(pages: seq<nat>, body: seq<byte>)

  function ReadDefinition(data: seq<byte>, root: nat): (r: Result<Definition>) {
    var pages :- Follow(data, root, []);
    FollowedPages(data, root, []);
    var body := BodyOf(data, pages);
    if |body| < 12 then Rejected
    else
      var total := U32(body, 8);
      if 43 <= total <= |body| then Accepted(Definition(pages, body[..total])) else Rejected
  }

  /** The loop of the source; it terminates on every chain, including cyclic ones. */
  method LoadDefinition(data: seq<byte>, root: nat) returns (r: Result<Definition>)
    ensures r == ReadDefinition(data, root)
  {
    hide PageOf, Unvisited, BodyOf, U32;
    var pages: seq<nat>, body: seq<byte>, current := [], [], root;
    BodyStep(data, [], root);
    while current != 0
      invariant Follow(data, root, []) == Follow(data, current, pages)
      invariant forall i :: 0 <= i < |pages| ==> PageOf(data, pages[i]).Accepted?
      invariant body == BodyOf(data, pages)
      decreases Unvisited(data, pages)
    {
      if current in pages || PageOf(data, current).Rejected? {
        return Rejected;
      }
      var image := PageOf(data, current).value;
      if image[..4] != PREFIX {
        return Rejected;
      }
      FewerUnvisited(data, current, pages);
      BodyStep(data, pages, current);
      body := body + (if pages == [] then image else image[8..]);
      pages := pages + [current];
      current := U32(image, 4);
    }
    if |body| < 12 {
      return Rejected;
    }
    var total := U32(body, 8);
    if !(43 <= total <= |body|) {
      return Rejected;
    }
    return Accepted(Definition(pages, body[..total]));
  }

  lemma PageInRange(data: seq<byte>, page: nat)
    requires PageOf(data, page).Accepted?
    ensures page < PageCount(data)
  {
  }

  lemma FewerUnvisited(data: seq<byte>, current: nat, pages: seq<nat>)
    requires PageOf(data, current).Accepted? && current !in pages
    ensures Unvisited(data, pages + [current]) < Unvisited(data, pages)
  {
    PageInRange(data, current);
    assert current in Unvisited(data, pages) && current !in Unvisited(data, pages + [current]);
  }

  lemma BodyStep(data: seq<byte>, pages: seq<nat>, current: nat)
    requires forall i :: 0 <= i < |pages| ==> PageOf(data, pages[i]).Accepted?
    ensures BodyOf(data, []) == []
    ensures PageOf(data, current).Accepted? ==>
              && (forall i :: 0 <= i < |pages| + 1 ==> PageOf(data, (pages + [current])[i]).Accepted?)
              && BodyOf(data, pages + [current])
                 == BodyOf(data, pages)
                 + (if pages == [] then PageOf(data, current).value else PageOf(data, current).value[8..])
  {
    hide PageOf;
    assert (pages + [current])[..|pages|] == pages;
  }

  /** A followed chain only ever appends distinct definition pages. */
  lemma {:induction false} FollowedPages(data: seq<byte>, current: nat, pages: seq<nat>)
    requires Follow(data, current, pages).Accepted?
    requires NoRepeats(pages) && forall i :: 0 <= i < |pages| ==> IsDefinitionPage(data, pages[i])
    ensures var all := Follow(data, current, pages).value;
            && pages <= all && NoRepeats(all)
            && (forall i :: 0 <= i < |all| ==> IsDefinitionPage(data, all[i]))
            && (current != 0 ==> |all| > |pages| && all[|pages|] == current)
    decreases Unvisited(data, pages)
  {
    hide IsDefinitionPage, NextPage;
    if current != 0 {
      assert current in Unvisited(data, pages) && current !in Unvisited(data, pages + [current]) by {
        InUnvisited(data, current, pages);
      }
      FollowedPages(data, NextPage(data, current), pages + [current]);
    }
  }

  lemma InUnvisited(data: seq<byte>, current: nat, pages: seq<nat>)
    requires IsDefinitionPage(data, current) && current !in pages
    ensures current in Unvisited(data, pages) && current !in Unvisited(data, pages + [current])
  {
  }

  // ----- Exactly the chains that end are accepted -----

  /** The `i`-th page reached from `root`. */
  function Reached(data: seq<byte>, root: nat, i: nat): (n: nat) {
    if i == 0 then root else NextPage(data, Reached(data, root, i - 1))
  }

  /** After `n` definition pages the chain names page 0. */
  ghost predicate EndsAfter(data: seq<byte>, root: nat, n: nat) {
    && Reached(data, root, n) == 0
    && forall i: nat :: i < n ==> Reached(data, root, i) != 0 && IsDefinitionPage(data, Reached(data, root, i))
  }

  lemma {:induction false} SameFromRepeat(data: seq<byte>, root: nat, i: nat, j: nat, k: nat)
    requires Reached(data, root, i) == Reached(data, root, j)
    ensures Reached(data, root, i + k) == Reached(data, root, j + k)
  {
    hide NextPage;
    if k > 0 {
      SameFromRepeat(data, root, i, j, k - 1);
    }
  }

  /** A chain that ends cannot have repeated a page. */
  lemma EndingChainDistinct(data: seq<byte>, root: nat, n: nat, i: nat, j: nat)
    requires EndsAfter(data, root, n) && i < j < n
    ensures Reached(data, root, i) != Reached(data, root, j)
  {
    hide Reached, IsDefinitionPage;
    if Reached(data, root, i) == Reached(data, root, j) {
      SameFromRepeat(data, root, i, j, n - j);
    }
  }

  lemma {:induction false} FollowsToEnd(data: seq<byte>, root: nat, n: nat, i: nat, pages: seq<nat>)
    requires EndsAfter(data, root, n) && i <= n && |pages| == i
    requires forall k :: 0 <= k < i ==> pages[k] == Reached(data, root, k)
    ensures Follow(data, Reached(data, root, i), pages).Accepted?
    decreases n - i
  {
    hide IsDefinitionPage, NextPage;
    if i < n {
      forall k | 0 <= k < i ensures pages[k] != Reached(data, root, i) {
        EndingChainDistinct(data, root, n, k, i);
      }
      FollowsToEnd(data, root, n, i + 1, pages + [Reached(data, root, i)]);
    }
  }

  lemma {:induction false} FollowedEnds(data: seq<byte>, root: nat, i: nat, pages: seq<nat>)
    requires Follow(data, Reached(data, root, i), pages).Accepted? && |pages| == i
    requires forall k: nat :: k < i ==> pages[k] == Reached(data, root, k) != 0 && IsDefinitionPage(data, pages[k])
    ensures EndsAfter(data, root, |Follow(data, Reached(data, root, i), pages).value|)
    decreases Unvisited(data, pages)
  {
    hide IsDefinitionPage, NextPage;
    var current := Reached(data, root, i);
    if current != 0 {
      InUnvisited(data, current, pages);
      FollowedEnds(data, root, i + 1, pages + [current]);
    }
  }

  /** The walk rejects exactly the chains that leave the definition pages or never reach page 0. */
  lemma FollowAcceptsExactly(data: seq<byte>, root: nat)
    ensures Follow(data, root, []).Accepted? <==> exists n: nat :: EndsAfter(data, root, n)
  {
    hide Follow, EndsAfter, IsDefinitionPage;
    assert Reached(data, root, 0) == root;
    if n: nat :| EndsAfter(data, root, n) {
      FollowsToEnd(data, root, n, 0, []);
    }
    if Follow(data, root, []).Accepted? {
      FollowedEnds(data, root, 0, []);
    }
  }

  // ----- Address translation -----

  /** The file offset of a logical position, as the source computes it from the root and the page list. */
  function FileOffset(root: nat, pages: seq<nat>, position: nat): (n: nat)
    requires position < PAGE || (position - PAGE) / (PAGE - 8) + 1 < |pages|
  {
    if position < PAGE then root * PAGE + position
    else
      var index, within := (position - PAGE) / (PAGE - 8), (position - PAGE) % (PAGE - 8);
      pages[index + 1] * PAGE + 8 + within
  }

  lemma {:induction false} BodyLength(data: seq<byte>, pages: seq<nat>)
    requires forall i :: 0 <= i < |pages| ==> PageOf(data, pages[i]).Accepted?
    ensures |BodyOf(data, pages)| == if pages == [] then 0 else PAGE + (|pages| - 1) * (PAGE - 8)
  {
    if pages != [] {
      BodyLength(data, pages[..|pages| - 1]);
    }
  }

  lemma {:induction false} BodyByte(data: seq<byte>, pages: seq<nat>, position: nat)
    requires forall i :: 0 <= i < |pages| ==> PageOf(data, pages[i]).Accepted?
    requires position < |BodyOf(data, pages)|
    ensures position < PAGE || (position - PAGE) / (PAGE - 8) + 1 < |pages|
    ensures pages != [] && FileOffset(pages[0], pages, position) < |data|
    ensures BodyOf(data, pages)[position] == data[FileOffset(pages[0], pages, position)]
  {
    hide PageOf;
    BodyLength(data, pages);
    var n := |pages| - 1;
    BodyLength(data, pages[..n]);
    var start := |BodyOf(data, pages[..n])|;
    if position < start {
      BodyByte(data, pages[..n], position);
    } else if n > 0 {
      LastSegmentByte(data, pages, position);
    } else {
      PageByte(data, pages[0], position);
    }
  }

  lemma LastSegmentByte(data: seq<byte>, pages: seq<nat>, position: nat)
    requires |pages| > 1 && forall i :: 0 <= i < |pages| ==> PageOf(data, pages[i]).Accepted?
    requires |BodyOf(data, pages[..|pages| - 1])| <= position < |BodyOf(data, pages)|
    ensures PAGE <= position && (position - PAGE) / (PAGE - 8) + 1 == |pages| - 1
    ensures FileOffset(pages[0], pages, position) < |data|
    ensures BodyOf(data, pages)[position] == data[FileOffset(pages[0], pages, position)]
  {
    hide PageOf;
    BodyLength(data, pages);
    var n := |pages| - 1;
    BodyLength(data, pages[..n]);
    var start := PAGE + (n - 1) * (PAGE - 8);
    assert |BodyOf(data, pages[..n])| == start;
    SegmentOf(position - PAGE, n - 1);
    PageByte(data, pages[n], 8 + position - start);
  }

  lemma PageByte(data: seq<byte>, page: nat, k: nat)
    requires PageOf(data, page).Accepted? && k < PAGE
    ensures page * PAGE + k < |data| && PageOf(data, page).value[k] == data[page * PAGE + k]
  {
  }

  lemma SegmentOf(offset: nat, index: nat)
    requires index * (PAGE - 8) <= offset < (index + 1) * (PAGE - 8)
    ensures offset / (PAGE - 8) == index && offset % (PAGE - 8) == offset - index * (PAGE - 8)
  {
  }

  /** Every byte of an accepted definition is the file byte at its translated address. */
  lemma AddressTranslation(data: seq<byte>, root: nat, position: nat)
    requires ReadDefinition(data, root).Accepted? && position < |ReadDefinition(data, root).value.body|
    ensures var d := ReadDefinition(data, root).value;
            && (position < PAGE || (position - PAGE) / (PAGE - 8) + 1 < |d.pages|)
            && FileOffset(root, d.pages, position) < |data|
            && d.body[position] == data[FileOffset(root, d.pages, position)]
  {
    hide Follow, BodyOf, FileOffset, IsDefinitionPage;
    var pages := Follow(data, root, []).value;
    FollowedPages(data, root, []);
    DefinitionPagesExist(data, pages);
    BodyByte(data, pages, position);
    RootFirst(data, root);
  }

  lemma DefinitionPagesExist(data: seq<byte>, pages: seq<nat>)
    requires forall i :: 0 <= i < |pages| ==> IsDefinitionPage(data, pages[i])
    ensures forall i :: 0 <= i < |pages| ==> PageOf(data, pages[i]).Accepted?
  {
  }

  lemma RootFirst(data: seq<byte>, root: nat)
    requires Follow(data, root, []).Accepted?
    ensures var pages := Follow(data, root, []).value; pages == [] || pages[0] == root
  {
    FollowedPages(data, root, []);
  }

  /** Different positions have different addresses, so a patch through an address changes one logical byte. */
  lemma AddressesDistinct(data: seq<byte>, root: nat, p: nat, q: nat)
    requires ReadDefinition(data, root).Accepted? && p < q < |ReadDefinition(data, root).value.body|
    ensures var pages := ReadDefinition(data, root).value.pages;
            && (p < PAGE || (p - PAGE) / (PAGE - 8) + 1 < |pages|)
            && (q < PAGE || (q - PAGE) / (PAGE - 8) + 1 < |pages|)
            && FileOffset(root, pages, p) != FileOffset(root, pages, q)
  {
    hide Follow, BodyOf, IsDefinitionPage, U32;
    AddressTranslation(data, root, p);
    AddressTranslation(data, root, q);
    FollowedPages(data, root, []);
    RootFirst(data, root);
    var pages := ReadDefinition(data, root).value.pages;
    if q >= PAGE {
      var j := (q - PAGE) / (PAGE - 8) + 1;
      if p < PAGE {
        assert pages[0] != pages[j];
      } else {
        var i := (p - PAGE) / (PAGE - 8) + 1;
        assert i < j ==> pages[i] != pages[j];
      }
    }
  }

  // ----- The chain read from its bytes -----

  /** Page `i` of a definition has the definition prefix, and its next four bytes name page `i + 1`, or 0 at the end. */
  lemma ChainByBytes(data: seq<byte>, root: nat, i: nat)
    requires ReadDefinition(data, root).Accepted? && i < |ReadDefinition(data, root).value.pages|
    ensures var pages := ReadDefinition(data, root).value.pages;
            && pages[0] == root && PageOf(data, pages[i]).Accepted?
            && var image := PageOf(data, pages[i]).value;
               && image[0] == 2 && image[1] == 1 && image[2] == 0x56 && image[3] == 0x43
               && (if i + 1 < |pages| then pages[i + 1] else 0)
                  == image[4] as int + 0x100 * image[5] as int + 0x1_0000 * image[6] as int
                  + 0x100_0000 * image[7] as int
  {
    hide Follow, BodyOf;
    FollowedPages(data, root, []);
    RootFirst(data, root);
    FollowedLinks(data, root, [], i);
    var pages := ReadDefinition(data, root).value.pages;
    assert IsDefinitionPage(data, pages[i]);
    var image := PageOf(data, pages[i]).value;
    assert forall k :: 0 <= k < 4 ==> image[k] == image[..4][k];
  }

  lemma {:induction false} FollowedLinks(data: seq<byte>, current: nat, pages: seq<nat>, i: nat)
    requires Follow(data, current, pages).Accepted? && |pages| <= i < |Follow(data, current, pages).value|
    requires NoRepeats(pages) && forall k :: 0 <= k < |pages| ==> IsDefinitionPage(data, pages[k])
    ensures var all := Follow(data, current, pages).value;
            NextPage(data, all[i]) == if i + 1 < |all| then all[i + 1] else 0
    decreases Unvisited(data, pages)
  {
    hide IsDefinitionPage, NextPage;
    FollowedPages(data, current, pages);
    InUnvisited(data, current, pages);
    var more := pages + [current];
    FollowedPages(data, NextPage(data, current), more);
    if i > |pages| {
      FollowedLinks(data, NextPage(data, current), more, i);
    }
  }

  lemma ChainStarts(data: seq<byte>, root: nat)
    requires ReadDefinition(data, root).Accepted?
    ensures ReadDefinition(data, root).value.pages != [] && PageOf(data, root).Accepted?
  {
    hide BodyOf, IsDefinitionPage, NextPage;
    FollowedPages(data, root, []);
    if root != 0 {
      RootIsPage(data, root);
    } else {
      assert Follow(data, 0, []) == Accepted([]);
      NoPagesNoBody(data);
    }
  }

  lemma NoPagesNoBody(data: seq<byte>)
    ensures BodyOf(data, []) == []
  {
  }

  lemma RootIsPage(data: seq<byte>, root: nat)
    requires root != 0 && Follow(data, root, []).Accepted?
    ensures PageOf(data, root).Accepted?
  {
    hide PageOf;
    assert IsDefinitionPage(data, root);
  }

  /** The body starts with the root page and has the length that its bytes 8 to 11 declare. */
  lemma BodyByBytes(data: seq<byte>, root: nat)
    requires ReadDefinition(data, root).Accepted?
    ensures var body := ReadDefinition(data, root).value.body;
            && |body| >= 43
            && |body| == body[8] as int + 0x100 * body[9] as int + 0x1_0000 * body[10] as int
               + 0x100_0000 * body[11] as int
  {
    hide Follow, BodyOf, PageOf;
  }
}
