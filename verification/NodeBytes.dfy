/**
 * Which pages hold which index node (`visit` in oracle/windows-dao/structure.py up to its sort check), said about
 * the bytes of the page and the positions that its bitmap marks.
 */
module NodeBytes {
  import opened Bytes
  import opened DataPages
  import opened KeyEncoding
  import opened KeyParsing
  import opened IndexNodes
  import opened Sorting
  import FieldValues

  /** The bitmap marks position `q`, lowest bit first in each byte. */
  predicate Marked(image: Image, q: nat) {
    q < POSITIONS && image[BITMAP + q / 8] / [1, 2, 4, 8, 16, 32, 64, 128][q % 8] % 2 == 1
  }

  /** The marked positions in ascending order. */
  ghost predicate ListsMarks(image: Image, ends: seq<nat>) {
    StrictlyIncreasing(ends) && forall q: nat :: q in ends <==> Marked(image, q)
  }

  /** Tag 3 is a branch, with header class 1 to 3 and a tail child; tag 4 is a leaf, with class 0 and none. */
  ghost predicate HeaderSpells(image: Image, owner: nat, node: Node) {
    && image[0] == (if node.branch then 3 else 4) && image[1] == 1
    && image[21] == node.headerClass && (if node.branch then 1 <= node.headerClass <= 3 else node.headerClass == 0)
    && image[20] as int == node.prefix
    && FieldValues.Unsigned(image[4..8]) == owner
    && FieldValues.Unsigned(image[8..12]) == node.previous
    && FieldValues.Unsigned(image[12..16]) == node.next
    && FieldValues.Unsigned(image[16..20]) == node.tail && (node.branch <==> node.tail > 0)
  }

  /** Entry `i` is the common bytes and the bytes from the end before it up to its own end. */
  ghost predicate EntrySpells(image: Image, node: Node, ends: seq<nat>, i: nat)
    requires i < |ends| == |node.entries|
  {
    var start := if i == 0 then node.prefix else ends[i - 1];
    && node.prefix < ends[i] <= AREA_BYTES && start <= ends[i]
    && node.entries[i] == image[AREA..AREA + node.prefix] + image[AREA + start..AREA + ends[i]]
  }

  /** The page spells the node, and every requirement on one node holds. */
  ghost predicate NodeSpells(image: Image, depth: nat, owner: nat, fields: seq<Field>, node: Node, ends: seq<nat>) {
    && HeaderSpells(image, owner, node) && ListsMarks(image, ends) && |ends| == |node.entries|
    && (forall i: nat :: i < |ends| ==>
          EntrySpells(image, node, ends, i) && WidthAccepted(node.entries[i], fields, node.branch))
    && (forall i: nat :: 0 < i < |ends| ==> AtMost(node.entries[i - 1], node.entries[i]))
    && image[2] + 256 * image[3] as int == (if ends == [] then AREA_BYTES else AREA_BYTES - ends[|ends| - 1])
    && (ends == [] ==> node.prefix == 0 && (node.branch ==> depth == 1 && node.headerClass == 1))
  }

  lemma EndsAreListed(image: Image, ends: seq<nat>)
    ensures ListsMarks(image, ends) <==> ends == Ends(image)
  {
    hide Boundary, EndsFrom;
    forall q: nat ensures q in Ends(image) <==> Marked(image, q) {
      EndsByBytes(image, q);
    }
    EndsByBytes(image, 0);
    if ListsMarks(image, ends) {
      forall q: nat | q < POSITIONS ensures Boundary(image, q) <==> q in ends {
        EndsByBytes(image, q);
        EndsFromExact(image, 0, q);
      }
      forall i | 0 <= i < |ends| ensures ends[i] < POSITIONS {
        assert ends[i] in ends;
      }
      EndsAre(image, ends, 0, 0);
    }
  }

  lemma {:induction false} EntryByPlace(area: seq<byte>, prefix: nat, start: nat, ends: seq<nat>, i: nat)
    requires i < |ends|
    ensures EntriesFrom(area, prefix, start, ends)[i]
            == Cut(area, 0, prefix) + Cut(area, if i == 0 then start else ends[i - 1], ends[i])
    decreases |ends|
  {
    if i > 0 {
      EntryByPlace(area, prefix, ends[0], ends[1..], i - 1);
    }
  }

  lemma EntriesByPlace(image: Image, node: Node, ends: seq<nat>)
    requires StrictlyIncreasing(ends) && |ends| == |node.entries| && node.prefix == image[20] as int
    requires forall i :: 0 <= i < |ends| ==> node.prefix < ends[i] <= AREA_BYTES
    ensures node.entries == EntriesFrom(image[AREA..], node.prefix, node.prefix, ends)
            <==> forall i: nat :: i < |ends| ==> EntrySpells(image, node, ends, i)
  {
    hide EntriesFrom;
    var area := image[AREA..];
    var entries := EntriesFrom(area, node.prefix, node.prefix, ends);
    forall i: nat | i < |ends| ensures EntrySpells(image, node, ends, i) <==> node.entries[i] == entries[i] {
      EntryByPlace(area, node.prefix, node.prefix, ends, i);
      var start := if i == 0 then node.prefix else ends[i - 1];
      assert start <= ends[i];
      assert area[0..node.prefix] == image[AREA..AREA + node.prefix];
      assert area[start..ends[i]] == image[AREA + start..AREA + ends[i]];
    }
  }

  /** The decoder reads a node from a page exactly when the page spells it and every requirement holds. */
  lemma DecodesExactly(image: Image, depth: nat, owner: nat, fields: seq<Field>, node: Node)
    ensures DecodeNode(image, depth, owner, fields) == Accepted(node)
            <==> exists ends :: NodeSpells(image, depth, owner, fields, node, ends)
  {
    hide Ends, EntriesFrom, WidthAccepted, U32, U16, ListsMarks, EntrySpells;
    var ends := Ends(image);
    forall other ensures ListsMarks(image, other) <==> other == ends {
      EndsAreListed(image, other);
    }
    DecodesByEnds(image, depth, owner, fields, node);
    assert NodeSpells(image, depth, owner, fields, node, ends)
      <==> exists other :: NodeSpells(image, depth, owner, fields, node, other);
  }

  lemma HeaderByBytes(image: Image, owner: nat, node: Node)
    ensures HeaderSpells(image, owner, node) <==>
            && image[0] in {3, 4} && image[1] == 1 && image[21] in (if image[0] == 3 then {1, 2, 3} else {0})
            && U32(image, 4) == owner && (U32(image, 16) != 0) == (image[0] == 3)
            && node == Node(image[0] == 3, image[21], U32(image, 8), U32(image, 12), U32(image, 16), image[20],
                            node.entries)
  {
    hide U32;
    FieldValues.WordsUnsigned(image, 4);
    FieldValues.WordsUnsigned(image, 8);
    FieldValues.WordsUnsigned(image, 12);
    FieldValues.WordsUnsigned(image, 16);
  }

  lemma DecodesByEnds(image: Image, depth: nat, owner: nat, fields: seq<Field>, node: Node)
    ensures DecodeNode(image, depth, owner, fields) == Accepted(node)
            <==> NodeSpells(image, depth, owner, fields, node, Ends(image))
  {
    hide Ends, EntriesFrom, WidthAccepted, U32, ListsMarks, HeaderSpells, EntrySpells;
    var ends := Ends(image);
    EndsAreListed(image, ends);
    EndsByBytes(image, 0);
    HeaderByBytes(image, owner, node);
    if DecodeNode(image, depth, owner, fields) == Accepted(node) {
      EntriesByPlace(image, node, ends);
    }
    if NodeSpells(image, depth, owner, fields, node, ends) {
      SpelledEnds(image, depth, owner, fields, node, ends);
      EntriesByPlace(image, node, ends);
    }
  }

  lemma SpelledEnds(image: Image, depth: nat, owner: nat, fields: seq<Field>, node: Node, ends: seq<nat>)
    requires NodeSpells(image, depth, owner, fields, node, ends)
    ensures forall i :: 0 <= i < |ends| ==> node.prefix < ends[i] <= AREA_BYTES
    ensures Sorted(node.entries)
  {
    hide ListsMarks, HeaderSpells, WidthAccepted;
    forall i | 0 <= i < |ends| ensures node.prefix < ends[i] <= AREA_BYTES {
      assert EntrySpells(image, node, ends, i);
    }
    forall i | 0 <= i < |node.entries| - 1 ensures AtMost(Self(node.entries[i]), Self(node.entries[i + 1])) {
      var k: nat := i + 1;
      assert 0 < k < |ends| && AtMost(node.entries[k - 1], node.entries[k]);
    }
  }
}
