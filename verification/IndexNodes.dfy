/**
 * Index node pages: the decoder's view of one node (`visit` in oracle/windows-dao/structure.py up to its
 * sort check) and the writers that produce nodes: the prefix-compressing `write_node`
 * (fuzz/fuzz_targets/index_traversal.rs) and the nine-byte-record leaf rebuild of the page patchers
 * (oracle/windows-dao/registry/indexed_rows.py, indexed_boundary.py).
 *
 * A node has a 22-byte header, a 226-byte bitmap whose bit `p` says that an entry ends at offset `p`, and
 * an 1800-byte entry area that starts with the bytes common to every entry.
 */
module IndexNodes {
  import opened Bytes
  import opened DataPages
  import opened KeyEncoding
  import opened KeyParsing
  import opened Sorting

  const BITMAP := 22
  const AREA := 248
  const AREA_BYTES := 1800
  const POSITIONS := 1808

  // ----- Decoding -----

  predicate Boundary(image: Image, p: nat)
    requires p < POSITIONS
  {
    Bit(image[BITMAP + p / 8], p % 8)
  }

  /** Marked positions from `p` on, in ascending order. */
  function EndsFrom(image: Image, p: nat): (r: seq<nat>)
    requires p <= POSITIONS
    decreases POSITIONS - p
  {
    if p == POSITIONS then [] else (if Boundary(image, p) then [p] else []) + EndsFrom(image, p + 1)
  }

  function Ends(image: Image): (r: seq<nat>) {
    EndsFrom(image, 0)
  }

  function Cut(area: seq<byte>, start: nat, end: nat): (r: seq<byte>) {
    if start <= end <= |area| then area[start..end] else []
  }

  /** Entries between consecutive ends, each with the common bytes restored. */
  function EntriesFrom(area: seq<byte>, prefix: nat, start: nat, ends: seq<nat>): (r: seq<seq<byte>>)
    ensures |r| == |ends|
    decreases |ends|
  {
    if ends == [] then []
    else [Cut(area, 0, prefix) + Cut(area, start, ends[0])] + EntriesFrom(area, prefix, ends[0], ends[1..])
  }

  predicate Sorted(entries: seq<seq<byte>>) {
    SortedBy(entries, Self)
  }

  datatype Node = Node(
    branch: bool, headerClass: byte, previous: nat, next: nat, tail: nat, prefix: nat, entries: seq<seq<byte>>)

  /** Every requirement on the bytes of one node at a given depth. */
  function DecodeNode(image: Image, depth: nat, owner: nat, fields: seq<Field>): (r: Result<Node>) {
    var branch := image[0] == 3;
    var prefix, ends := image[20], Ends(image);
    var entries := EntriesFrom(image[AREA..], prefix, prefix, ends);
    var tail := U32(image, 16);
    if image[0] !in {3, 4} || image[1] != 1 || image[21] !in (if branch then {1, 2, 3} else {0}) then Rejected
    else if U32(image, 4) != owner || (tail != 0) != branch then Rejected
    else if exists i :: 0 <= i < |ends| && !(prefix < ends[i] <= AREA_BYTES) then Rejected
    else if U16(image, 2) != AREA_BYTES - (if ends == [] then 0 else ends[|ends| - 1]) then Rejected
    else if ends == [] && (prefix != 0 || (branch && !(depth == 1 && image[21] == 1))) then Rejected
    else if exists i :: 0 <= i < |entries| && !WidthAccepted(entries[i], fields, branch) then Rejected
    else if !Sorted(entries) then Rejected
    else Accepted(Node(branch, image[21], U32(image, 8), U32(image, 12), tail, prefix, entries))
  }

  // ----- Running ends -----

  /** Where each part ends when the parts are laid out from `start`. */
  function RunningEnds(start: nat, parts: seq<seq<byte>>): (r: seq<nat>)
    ensures |r| == |parts|
  {
    seq(|parts|, i requires 0 <= i < |parts| => start + |Concat(parts[..i + 1])|)
  }

  ghost predicate AllNonempty(parts: seq<seq<byte>>) {
    forall i :: 0 <= i < |parts| ==> parts[i] != []
  }

  lemma {:induction false} RunningEndsIncrease(start: nat, parts: seq<seq<byte>>, i: nat, j: nat)
    requires AllNonempty(parts) && i < j < |parts|
    ensures start < RunningEnds(start, parts)[i] < RunningEnds(start, parts)[j] <= start + |Concat(parts)|
  {
    ConcatPrefix(parts, i);
    ConcatPrefix(parts, j);
    if i + 1 < j {
      RunningEndsIncrease(start, parts, i, j - 1);
    }
  }

  lemma RunningEndInside(start: nat, parts: seq<seq<byte>>, i: nat)
    requires i < |parts|
    ensures start <= RunningEnds(start, parts)[i] <= start + |Concat(parts)|
  {
    ConcatPrefix(parts, i);
  }

  ghost predicate StrictlyIncreasing(s: seq<nat>) {
    forall i, j :: 0 <= i < j < |s| ==> s[i] < s[j]
  }

  /** The bitmap marks exactly the positions in `ends`. */
  ghost predicate Marks(image: Image, ends: seq<nat>) {
    && (forall i :: 0 <= i < |ends| ==> ends[i] < POSITIONS)
    && (forall q: nat :: q < POSITIONS ==> (Boundary(image, q) <==> q in ends))
  }

  /** A strictly increasing list that agrees with the bitmap is the list of ends. */
  lemma {:induction false} EndsAre(image: Image, ends: seq<nat>, k: nat, p: nat)
    requires p <= POSITIONS && k <= |ends| && StrictlyIncreasing(ends) && Marks(image, ends)
    requires (k < |ends| ==> ends[k] >= p) && (k > 0 ==> ends[k - 1] < p)
    ensures EndsFrom(image, p) == ends[k..]
    decreases POSITIONS - p
  {
    hide Boundary;
    if p < POSITIONS {
      if Boundary(image, p) {
        MarkIsNext(image, ends, k, p);
        EndsAre(image, ends, k + 1, p + 1);
        assert ends[k..] == [ends[k]] + ends[k + 1..];
      } else {
        assert k < |ends| ==> Boundary(image, ends[k]);
        EndsAre(image, ends, k, p + 1);
      }
    }
  }

  lemma MarkIsNext(image: Image, ends: seq<nat>, k: nat, p: nat)
    requires p < POSITIONS && k <= |ends| && StrictlyIncreasing(ends) && Marks(image, ends) && Boundary(image, p)
    requires (k < |ends| ==> ends[k] >= p) && (k > 0 ==> ends[k - 1] < p)
    ensures k < |ends| && ends[k] == p
  {
    hide Boundary;
    var j :| 0 <= j < |ends| && ends[j] == p;
    assert j == k;
  }

  /** `image` has exactly the marks of `parts` laid out after `prefix`, and their bytes. */
  ghost predicate Stamped(image: Image, prefix: seq<byte>, parts: seq<seq<byte>>) {
    && |prefix| + |Concat(parts)| <= AREA_BYTES
    && image[AREA..AREA + |prefix| + |Concat(parts)|] == prefix + Concat(parts)
    && Marks(image, RunningEnds(|prefix|, parts))
  }

  lemma RunningEndsBounds(start: nat, parts: seq<seq<byte>>)
    requires AllNonempty(parts)
    ensures StrictlyIncreasing(RunningEnds(start, parts))
    ensures forall i :: 0 <= i < |parts| ==> start < RunningEnds(start, parts)[i] <= start + |Concat(parts)|
    ensures parts != [] ==> RunningEnds(start, parts)[|parts| - 1] == start + |Concat(parts)|
  {
    hide Concat;
    forall i, j | 0 <= i < j < |parts| ensures RunningEnds(start, parts)[i] < RunningEnds(start, parts)[j] {
      RunningEndsIncrease(start, parts, i, j);
    }
    forall i | 0 <= i < |parts| ensures start < RunningEnds(start, parts)[i] <= start + |Concat(parts)| {
      ConcatPrefix(parts, i);
    }
    assert parts[..|parts|] == parts;
  }

  lemma StampedEnds(image: Image, prefix: seq<byte>, parts: seq<seq<byte>>)
    requires Stamped(image, prefix, parts) && AllNonempty(parts)
    ensures Ends(image) == RunningEnds(|prefix|, parts)
  {
    hide Concat, RunningEnds, Marks, EndsFrom, StrictlyIncreasing, AllNonempty;
    RunningEndsBounds(|prefix|, parts);
    EndsAre(image, RunningEnds(|prefix|, parts), 0, 0);
  }

  /** The common bytes followed by each part. */
  function Prefixed(prefix: seq<byte>, parts: seq<seq<byte>>): (r: seq<seq<byte>>)
    ensures |r| == |parts| && forall i :: 0 <= i < |r| ==> r[i] == prefix + parts[i]
  {
    seq(|parts|, i requires 0 <= i < |parts| => prefix + parts[i])
  }

  lemma AreaSlice(area: seq<byte>, prefix: seq<byte>, whole: seq<byte>, a: nat, b: nat)
    requires a <= b <= |whole| && |prefix| + |whole| <= |area| && area[..|prefix| + |whole|] == prefix + whole
    ensures Cut(area, 0, |prefix|) == prefix && Cut(area, |prefix| + a, |prefix| + b) == whole[a..b]
  {
    var n := |prefix| + |whole|;
    assert area[0..|prefix|] == area[..n][..|prefix|];
    assert area[|prefix| + a..|prefix| + b] == area[..n][|prefix| + a..|prefix| + b];
  }

  lemma {:induction false} EntriesAre(area: seq<byte>, prefix: seq<byte>, parts: seq<seq<byte>>, k: nat)
    requires k <= |parts| && |prefix| + |Concat(parts)| <= |area|
    requires area[..|prefix| + |Concat(parts)|] == prefix + Concat(parts)
    ensures EntriesFrom(area, |prefix|, |prefix| + |Concat(parts[..k])|, RunningEnds(|prefix|, parts)[k..])
            == Prefixed(prefix, parts)[k..]
    decreases |parts| - k
  {
    hide Concat, Cut;
    if k < |parts| {
      EntriesAre(area, prefix, parts, k + 1);
      ConcatPrefix(parts, k);
      AreaSlice(area, prefix, Concat(parts), |Concat(parts[..k])|, |Concat(parts[..k + 1])|);
      assert RunningEnds(|prefix|, parts)[k..][1..] == RunningEnds(|prefix|, parts)[k + 1..];
    }
  }

  /** A stamped node decodes to the common bytes followed by each part. */
  lemma StampedEntries(image: Image, prefix: seq<byte>, parts: seq<seq<byte>>)
    requires Stamped(image, prefix, parts) && AllNonempty(parts)
    ensures EntriesFrom(image[AREA..], |prefix|, |prefix|, Ends(image)) == Prefixed(prefix, parts)
  {
    hide Marks, EntriesFrom, Concat, AllNonempty, Ends, RunningEnds;
    StampedEnds(image, prefix, parts);
    assert RunningEnds(|prefix|, parts)[0..] == RunningEnds(|prefix|, parts);
    var n := |prefix| + |Concat(parts)|;
    assert image[AREA..][..n] == image[AREA..AREA + n];
    EntriesAre(image[AREA..], prefix, parts, 0);
    ConcatNothing(parts);
  }

  // ----- Writing -----

  function Le16(n: nat): (r: seq<byte>)
    requires n < 0x1_0000
    ensures |r| == 2
  {
    [n % 256, n / 256]
  }

  function Le32(n: nat): (r: seq<byte>)
    requires n < 0x1_0000_0000
    ensures |r| == 4
  {
    Le16(n % 0x1_0000) + Le16(n / 0x1_0000)
  }

  function Put(image: Image, offset: nat, data: seq<byte>): (r: Image)
    requires offset + |data| <= PAGE
    ensures forall i :: 0 <= i < PAGE ==> r[i] == if offset <= i < offset + |data| then data[i - offset] else image[i]
  {
    image[..offset] + data + image[offset + |data|..]
  }

  /** Sets the boundary bit of position `p`. */
  function Mark(image: Image, p: nat): (r: Image)
    requires p < POSITIONS
  {
    image[BITMAP + p / 8 := PutByteBit(image[BITMAP + p / 8], p % 8, true)]
  }

  lemma MarkSetsOne(image: Image, p: nat, q: nat)
    requires p < POSITIONS && q < POSITIONS
    ensures Boundary(Mark(image, p), q) <==> Boundary(image, q) || q == p
  {
    hide Bit;
    if q / 8 == p / 8 {
      assert q == 8 * (q / 8) + q % 8 && p == 8 * (p / 8) + p % 8;
    }
  }

  /** Copies one part to the current boundary and marks its end. */
  function WritePart(image: Image, boundary: nat, part: seq<byte>): (r: Image)
    requires boundary + |part| <= AREA_BYTES
  {
    Mark(Put(image, AREA + boundary, part), boundary + |part|)
  }

  function AppendParts(image: Image, start: nat, parts: seq<seq<byte>>): (r: Image)
    requires start + |Concat(parts)| <= AREA_BYTES
  {
    if parts == [] then image
    else
      var rest, last := parts[..|parts| - 1], parts[|parts| - 1];
      WritePart(AppendParts(image, start, rest), start + |Concat(rest)|, last)
  }

  lemma {:induction false} AppendedBytes(image: Image, start: nat, parts: seq<seq<byte>>, i: nat)
    requires start + |Concat(parts)| <= AREA_BYTES && i < PAGE && !(BITMAP <= i < AREA)
    ensures AppendParts(image, start, parts)[i]
            == if AREA + start <= i < AREA + start + |Concat(parts)| then Concat(parts)[i - AREA - start] else image[i]
  {
    hide Mark, Put;
    if parts != [] {
      var rest, last := parts[..|parts| - 1], parts[|parts| - 1];
      AppendedBytes(image, start, rest, i);
      var at := start + |Concat(rest)|;
      MarkElsewhere(Put(AppendParts(image, start, rest), AREA + at, last), at + |last|, i);
    }
  }

  lemma MarkElsewhere(image: Image, p: nat, i: nat)
    requires p < POSITIONS && i < PAGE && !(BITMAP <= i < AREA)
    ensures Mark(image, p)[i] == image[i]
  {
  }

  lemma {:induction false} AppendedMarks(image: Image, start: nat, parts: seq<seq<byte>>, q: nat)
    requires start + |Concat(parts)| <= AREA_BYTES && q < POSITIONS
    ensures Boundary(AppendParts(image, start, parts), q) <==> Boundary(image, q) || q in RunningEnds(start, parts)
  {
    hide Mark, Bit;
    if parts != [] {
      var n := |parts| - 1;
      var rest, last := parts[..n], parts[n];
      AppendedMarks(image, start, rest, q);
      var before := AppendParts(image, start, rest);
      var at := start + |Concat(rest)|;
      MarkSetsOne(Put(before, AREA + at, last), at + |last|, q);
      RunningEndsSnoc(start, parts);
    }
  }

  lemma RunningEndsSnoc(start: nat, parts: seq<seq<byte>>)
    requires parts != []
    ensures RunningEnds(start, parts) == RunningEnds(start, parts[..|parts| - 1]) + [start + |Concat(parts)|]
  {
    hide Concat;
    var n := |parts| - 1;
    assert parts[..n + 1] == parts;
    forall i | 0 <= i < n ensures RunningEnds(start, parts[..n])[i] == RunningEnds(start, parts)[i] {
      assert parts[..n][..i + 1] == parts[..i + 1];
    }
  }

  predicate Blank(image: Image) {
    forall q: nat :: q < POSITIONS ==> !Boundary(image, q)
  }

  lemma AppendedArea(image: Image, prefix: seq<byte>, parts: seq<seq<byte>>)
    requires |prefix| + |Concat(parts)| <= AREA_BYTES && image[AREA..AREA + |prefix|] == prefix
    ensures AppendParts(image, |prefix|, parts)[AREA..AREA + |prefix| + |Concat(parts)|] == prefix + Concat(parts)
  {
    hide Concat, AppendParts;
    var after, whole := AppendParts(image, |prefix|, parts), Concat(parts);
    forall i | 0 <= i < |prefix| + |whole| ensures after[AREA + i] == (prefix + whole)[i] {
      AppendedBytes(image, |prefix|, parts, AREA + i);
      if i < |prefix| {
        assert image[AREA..AREA + |prefix|][i] == prefix[i];
      }
    }
  }

  /** Appending parts to a blank bitmap after the common bytes stamps exactly those parts. */
  lemma AppendStamps(image: Image, prefix: seq<byte>, parts: seq<seq<byte>>)
    requires Blank(image) && |prefix| + |Concat(parts)| <= AREA_BYTES
    requires image[AREA..AREA + |prefix|] == prefix
    ensures Stamped(AppendParts(image, |prefix|, parts), prefix, parts)
  {
    hide Boundary, Concat, AppendParts, RunningEnds, Marks, Blank, Stamped;
    AppendedArea(image, prefix, parts);
    AppendMarks(image, |prefix|, parts);
    MakeStamp(AppendParts(image, |prefix|, parts), prefix, parts);
  }

  lemma MakeStamp(image: Image, prefix: seq<byte>, parts: seq<seq<byte>>)
    requires |prefix| + |Concat(parts)| <= AREA_BYTES && Marks(image, RunningEnds(|prefix|, parts))
    requires image[AREA..AREA + |prefix| + |Concat(parts)|] == prefix + Concat(parts)
    ensures Stamped(image, prefix, parts)
  {
    hide Concat, RunningEnds, Marks;
  }

  lemma AppendMarks(image: Image, start: nat, parts: seq<seq<byte>>)
    requires Blank(image) && start + |Concat(parts)| <= AREA_BYTES
    ensures Marks(AppendParts(image, start, parts), RunningEnds(start, parts))
  {
    hide Boundary, Concat, AppendParts, RunningEnds;
    var after := AppendParts(image, start, parts);
    forall i | 0 <= i < |parts| ensures RunningEnds(start, parts)[i] < POSITIONS {
      RunningEndInside(start, parts, i);
    }
    forall q: nat | q < POSITIONS ensures Boundary(after, q) <==> q in RunningEnds(start, parts) {
      AppendedMarks(image, start, parts, q);
    }
  }

  /** What is stored of an entry: its bytes after the common prefix, or all of it when it lacks the prefix. */
  function Suffix(entry: seq<byte>, prefix: seq<byte>): (r: seq<byte>) {
    if prefix <= entry then entry[|prefix|..] else entry
  }

  function Suffixes(entries: seq<seq<byte>>, prefix: seq<byte>): (r: seq<seq<byte>>)
    ensures |r| == |entries| && forall i :: 0 <= i < |r| ==> r[i] == Suffix(entries[i], prefix)
  {
    seq(|entries|, i requires 0 <= i < |entries| => Suffix(entries[i], prefix))
  }

  datatype Header = Header(tag: byte, owner: nat, previous: nat, next: nat, tail: nat)

  ghost predicate ValidHeader(h: Header) {
    && h.owner < 0x1_0000_0000 && h.previous < 0x1_0000_0000 && h.next < 0x1_0000_0000 && h.tail < 0x1_0000_0000
  }

  function PutHeader(image: Image, h: Header, prefix: seq<byte>): (r: Image)
    requires ValidHeader(h) && |prefix| <= AREA_BYTES
  {
    var a := Put(image, 0, [h.tag, 1]);
    var b := Put(a, 4, Le32(h.owner) + Le32(h.previous) + Le32(h.next) + Le32(h.tail));
    var c := Put(b, 20, [|prefix| % 256, if h.tag == 3 then 1 else 0]);
    Put(c, AREA, prefix)
  }

  /** `write_node`: header, common bytes, suffixes with their marks, and the free count. */
  function WrittenNode(image: Image, h: Header, prefix: seq<byte>, entries: seq<seq<byte>>): (r: Image)
    requires ValidHeader(h) && |prefix| + |Concat(Suffixes(entries, prefix))| <= AREA_BYTES
  {
    var parts := Suffixes(entries, prefix);
    Put(AppendParts(PutHeader(image, h, prefix), |prefix|, parts), 2, Le16(AREA_BYTES - |prefix| - |Concat(parts)|))
  }

  method PutBytes(page: array<byte>, offset: nat, data: seq<byte>)
    requires page.Length == PAGE && offset + |data| <= PAGE
    modifies page
    ensures page[..] == Put(old(page[..]), offset, data)
  {
    forall k | offset <= k < offset + |data| {
      page[k] := data[k - offset];
    }
  }

  method WriteNode(page: array<byte>, h: Header, prefix: seq<byte>, entries: seq<seq<byte>>)
    requires page.Length == PAGE && ValidHeader(h)
    requires |prefix| + |Concat(Suffixes(entries, prefix))| <= AREA_BYTES
    modifies page
    ensures page[..] == WrittenNode(old(page[..]), h, prefix, entries)
  {
    hide Put, AppendParts, Concat, Mark, Le32;
    PutBytes(page, 0, [h.tag, 1]);
    PutBytes(page, 4, Le32(h.owner) + Le32(h.previous) + Le32(h.next) + Le32(h.tail));
    PutBytes(page, 20, [|prefix| % 256, if h.tag == 3 then 1 else 0]);
    PutBytes(page, AREA, prefix);
    var boundary := AppendRecords(page, |prefix|, Suffixes(entries, prefix));
    PutBytes(page, 2, Le16(AREA_BYTES - boundary));
  }

  method SetMark(page: array<byte>, p: nat)
    requires page.Length == PAGE && p < POSITIONS
    modifies page
    ensures page[..] == Mark(old(page[..]), p)
  {
    hide PutByteBit;
    page[BITMAP + p / 8] := PutByteBit(page[BITMAP + p / 8], p % 8, true);
  }

  lemma AppendNothing(image: Image, start: nat)
    requires start <= AREA_BYTES
    ensures Concat([]) == [] && AppendParts(image, start, []) == image
  {
  }

  lemma AppendStep(image: Image, start: nat, parts: seq<seq<byte>>, k: nat)
    requires k < |parts| && start + |Concat(parts)| <= AREA_BYTES
    ensures |Concat(parts[..k])| + |parts[k]| == |Concat(parts[..k + 1])| <= |Concat(parts)|
    ensures AppendParts(image, start, parts[..k + 1])
            == Mark(Put(AppendParts(image, start, parts[..k]), AREA + start + |Concat(parts[..k])|, parts[k]),
                    start + |Concat(parts[..k + 1])|)
  {
    hide Put, Mark, Concat;
    ConcatPrefix(parts, k);
    assert parts[..k + 1][..k] == parts[..k];
  }

  /** The loop of the node writers: copy a part, advance the boundary, set its bit. */
  method AppendRecords(page: array<byte>, start: nat, parts: seq<seq<byte>>) returns (boundary: nat)
    requires page.Length == PAGE && start + |Concat(parts)| <= AREA_BYTES
    modifies page
    ensures boundary == start + |Concat(parts)|
    ensures page[..] == AppendParts(old(page[..]), start, parts)
  {
    hide Put, Mark, Concat, AppendParts;
    ghost var before := page[..];
    boundary := start;
    ConcatNothing(parts);
    AppendNothing(before, start);
    for k := 0 to |parts|
      invariant |Concat(parts[..k])| <= |Concat(parts)| && boundary == start + |Concat(parts[..k])|
      invariant page[..] == AppendParts(before, start, parts[..k])
    {
      ConcatPrefix(parts, k);
      AppendStep(before, start, parts, k);
      PutBytes(page, AREA + boundary, parts[k]);
      boundary := boundary + |parts[k]|;
      SetMark(page, boundary);
    }
    assert parts[..|parts|] == parts;
  }

  // ----- Written nodes decode to their entries -----

  /** Every entry starts with the prefix and is longer than it. */
  ghost predicate ProperlyExtend(entries: seq<seq<byte>>, prefix: seq<byte>) {
    forall i :: 0 <= i < |entries| ==> prefix < entries[i]
  }

  lemma PutHeaderFields(image: Image, h: Header, prefix: seq<byte>)
    requires ValidHeader(h) && |prefix| <= AREA_BYTES
    ensures var r := PutHeader(image, h, prefix);
            && r[0] == h.tag && r[1] == 1 && U32(r, 4) == h.owner && U32(r, 8) == h.previous
            && U32(r, 12) == h.next && U32(r, 16) == h.tail
            && r[20] == |prefix| % 256 && r[21] == (if h.tag == 3 then 1 else 0)
            && r[AREA..AREA + |prefix|] == prefix
            && (Blank(image) ==> Blank(r))
  {
    hide Bit;
    var r := PutHeader(image, h, prefix);
    if Blank(image) {
      forall q: nat | q < POSITIONS ensures !Boundary(r, q) {
        assert r[BITMAP + q / 8] == image[BITMAP + q / 8];
        assert !Boundary(image, q);
      }
    }
  }

  lemma StoredHeader(image: Image, after: Image)
    requires forall i :: 0 <= i < BITMAP && i != 2 && i != 3 ==> after[i] == image[i]
    ensures forall o :: o in {4, 8, 12, 16} ==> U32(after, o) == U32(image, o)
    ensures after[0] == image[0] && after[1] == image[1] && after[20] == image[20] && after[21] == image[21]
  {
  }

  lemma FreeWordKeepsStamp(image: Image, prefix: seq<byte>, parts: seq<seq<byte>>, free: nat)
    requires Stamped(image, prefix, parts) && free < 0x1_0000
    ensures var after := Put(image, 2, Le16(free));
            Stamped(after, prefix, parts) && U16(after, 2) == free
  {
    hide Bit, Concat, RunningEnds;
    var after := Put(image, 2, Le16(free));
    var n := |prefix| + |Concat(parts)|;
    assert after[AREA..AREA + n] == image[AREA..AREA + n];
    forall q: nat | q < POSITIONS ensures Boundary(after, q) == Boundary(image, q) {
      assert after[BITMAP + q / 8] == image[BITMAP + q / 8];
    }
  }

  /** The header, common bytes and entries of a written node can be read back from its page. */
  lemma WrittenNodeStamped(image: Image, h: Header, prefix: seq<byte>, entries: seq<seq<byte>>)
    requires ValidHeader(h) && |prefix| + |Concat(Suffixes(entries, prefix))| <= AREA_BYTES && Blank(image)
    ensures ProperlyExtend(entries, prefix) ==> AllNonempty(Suffixes(entries, prefix))
    ensures var after := WrittenNode(image, h, prefix, entries);
            && Stamped(after, prefix, Suffixes(entries, prefix))
            && after[0] == h.tag && after[1] == 1 && U32(after, 4) == h.owner && U32(after, 8) == h.previous
            && U32(after, 12) == h.next && U32(after, 16) == h.tail
            && after[20] == |prefix| % 256 && after[21] == (if h.tag == 3 then 1 else 0)
            && U16(after, 2) == AREA_BYTES - |prefix| - |Concat(Suffixes(entries, prefix))|
  {
    hide PutHeader, AppendParts, Concat, Stamped, Blank, U32;
    var parts := Suffixes(entries, prefix);
    var headed := PutHeader(image, h, prefix);
    PutHeaderFields(image, h, prefix);
    AppendStamps(headed, prefix, parts);
    var filled := AppendParts(headed, |prefix|, parts);
    FreeWordKeepsStamp(filled, prefix, parts, AREA_BYTES - |prefix| - |Concat(parts)|);
    forall i | 0 <= i < BITMAP ensures filled[i] == headed[i] {
      AppendedBytes(headed, |prefix|, parts, i);
    }
    StoredHeader(headed, WrittenNode(image, h, prefix, entries));
  }

  lemma SuffixesRestore(entries: seq<seq<byte>>, prefix: seq<byte>)
    requires ProperlyExtend(entries, prefix)
    ensures Prefixed(prefix, Suffixes(entries, prefix)) == entries
  {
    forall i | 0 <= i < |entries| ensures Prefixed(prefix, Suffixes(entries, prefix))[i] == entries[i] {
      assert prefix + entries[i][|prefix|..] == entries[i];
    }
  }

  /**
   * Node round trip: on a page with a clear bitmap, the node writer followed by the decoder returns
   * exactly the given header and entries, and the decoder's remaining conditions are about the entries
   * alone.
   */
  lemma NodeRoundTrip(image: Image, h: Header, prefix: seq<byte>, entries: seq<seq<byte>>, depth: nat,
                      fields: seq<Field>)
    requires ValidHeader(h) && |prefix| < 256 && |prefix| + |Concat(Suffixes(entries, prefix))| <= AREA_BYTES
    requires Blank(image) && ProperlyExtend(entries, prefix)
    ensures var branch := h.tag == 3;
            var node := Node(branch, if branch then 1 else 0, h.previous, h.next, h.tail, |prefix|, entries);
            DecodeNode(WrittenNode(image, h, prefix, entries), depth, h.owner, fields)
            == if && h.tag in {3, 4} && (h.tail != 0) == branch && Sorted(entries)
                  && (entries == [] ==> prefix == [] && (branch ==> depth == 1))
                  && (forall i :: 0 <= i < |entries| ==> WidthAccepted(entries[i], fields, branch))
               then Accepted(node) else Rejected
  {
    hide WrittenNode, Concat, Stamped, EntriesFrom, Ends, WidthAccepted, Sorted, U32, ProperlyExtend, Suffixes,
         RunningEnds;
    var after, parts := WrittenNode(image, h, prefix, entries), Suffixes(entries, prefix);
    WrittenNodeStamped(image, h, prefix, entries);
    StampedEnds(after, prefix, parts);
    RunningEndsBounds(|prefix|, parts);
    StampedEntries(after, prefix, parts);
    SuffixesRestore(entries, prefix);
    if entries == [] {
      assert Concat(parts) == [] by {
        ConcatNothing(parts);
        assert parts[..0] == parts;
      }
    }
  }

  /** The entries of a page under its own prefix byte. */
  function StoredEntries(image: Image): (r: seq<seq<byte>>) {
    EntriesFrom(image[AREA..], image[20], image[20], Ends(image))
  }

  lemma RunningEndsFirst(start: nat, parts: seq<seq<byte>>)
    requires parts != []
    ensures RunningEnds(start, parts)[0] == start + |parts[0]|
    ensures |parts| > 1 ==> RunningEnds(start, parts)[1] == start + |parts[0]| + |parts[1]|
  {
    hide Concat;
    ConcatNothing(parts);
    ConcatPrefix(parts, 0);
    if |parts| > 1 {
      ConcatPrefix(parts, 1);
    }
  }

  /** Read with a prefix that lost its high bits, the first entry is whole and every later one is too short. */
  lemma ShortPrefixEntries(area: seq<byte>, prefix: seq<byte>, parts: seq<seq<byte>>, short: nat)
    requires short < |prefix| && parts != [] && |prefix| + |Concat(parts)| <= |area|
    requires area[..|prefix| + |Concat(parts)|] == prefix + Concat(parts)
    ensures var r := EntriesFrom(area, short, short, RunningEnds(|prefix|, parts));
            && r[0] == prefix + parts[0]
            && (|parts| > 1 ==> |r[1]| < |prefix + parts[1]|)
  {
    hide Concat, RunningEnds;
    var ends := RunningEnds(|prefix|, parts);
    RunningEndsFirst(|prefix|, parts);
    ConcatPrefix(parts, 0);
    ConcatNothing(parts);
    AreaSlice(area, prefix, Concat(parts), 0, |parts[0]|);
    var end := |prefix| + |parts[0]|;
    assert area[..end] == prefix + parts[0] by {
      assert area[..end] == area[..|prefix|] + area[|prefix|..end];
    }
    assert Cut(area, 0, short) + Cut(area, short, end) == area[..end];
    if |parts| > 1 {
      ConcatPrefix(parts, 1);
    }
  }

  /**
   * The prefix length is stored in one byte, so the written entries are read back exactly when the prefix is
   * shorter than 256 bytes or there is at most one entry.
   */
  lemma EntriesReadBackExactly(image: Image, h: Header, prefix: seq<byte>, entries: seq<seq<byte>>)
    requires ValidHeader(h) && |prefix| + |Concat(Suffixes(entries, prefix))| <= AREA_BYTES
    requires Blank(image) && ProperlyExtend(entries, prefix)
    ensures StoredEntries(WrittenNode(image, h, prefix, entries)) == entries <==> |prefix| < 256 || |entries| <= 1
  {
    hide WrittenNode, Concat, EntriesFrom, Ends, U32, ProperlyExtend, Suffixes, RunningEnds, Marks;
    var after, parts := WrittenNode(image, h, prefix, entries), Suffixes(entries, prefix);
    WrittenNodeStamped(image, h, prefix, entries);
    StampedEnds(after, prefix, parts);
    SuffixesRestore(entries, prefix);
    if |prefix| < 256 {
      StampedEntries(after, prefix, parts);
    } else if entries != [] {
      var n := |prefix| + |Concat(parts)|;
      assert after[AREA..][..n] == after[AREA..AREA + n];
      ShortPrefixEntries(after[AREA..], prefix, parts, |prefix| % 256);
      assert Prefixed(prefix, parts)[0] == prefix + parts[0];
    }
  }

  /** For example, two entries that share a prefix of 256 bytes are not read back. */
  lemma LongPrefixLosesEntries(image: Image, h: Header)
    requires ValidHeader(h) && Blank(image)
    ensures var prefix: seq<byte> := seq(256, i => 0);
            var entries := [prefix + [1], prefix + [2]];
            && |prefix| + |Concat(Suffixes(entries, prefix))| <= AREA_BYTES && ProperlyExtend(entries, prefix)
            && StoredEntries(WrittenNode(image, h, prefix, entries)) != entries
  {
    hide StoredEntries, WrittenNode, Blank;
    var prefix: seq<byte> := seq(256, i => 0);
    var entries := [prefix + [1], prefix + [2]];
    assert Suffixes(entries, prefix) == [[1], [2]];
    assert [[1], [2]][..1] == [[1]] && Concat([[1]]) == [1] && Concat([[1], [2]]) == [1] + [2];
    EntriesReadBackExactly(image, h, prefix, entries);
  }

  // ----- Exactly the entries that survive -----

  lemma {:induction false} EndsFromIncrease(image: Image, p: nat)
    requires p <= POSITIONS
    ensures StrictlyIncreasing(EndsFrom(image, p))
    ensures forall i :: 0 <= i < |EndsFrom(image, p)| ==> p <= EndsFrom(image, p)[i] < POSITIONS
    decreases POSITIONS - p
  {
    hide Boundary;
    if p < POSITIONS {
      EndsFromIncrease(image, p + 1);
      if Boundary(image, p) {
        IncreasingCons(p, EndsFrom(image, p + 1));
      }
    }
  }

  lemma IncreasingCons(p: nat, rest: seq<nat>)
    requires StrictlyIncreasing(rest) && forall i :: 0 <= i < |rest| ==> p < rest[i]
    ensures StrictlyIncreasing([p] + rest)
  {
  }

  lemma {:induction false} EndsFromExact(image: Image, p: nat, q: nat)
    requires p <= POSITIONS
    ensures q in EndsFrom(image, p) <==> p <= q < POSITIONS && Boundary(image, q)
    decreases POSITIONS - p
  {
    hide Boundary;
    if p < POSITIONS {
      EndsFromExact(image, p + 1, q);
    }
  }

  lemma IncreasingSize(s: seq<nat>)
    requires StrictlyIncreasing(s)
    ensures |Elements(s)| == |s|
  {
    ElementsSize(s);
  }

  /** An increasing list over the elements of a list with a repetition is shorter than that list. */
  lemma RepeatedEndsFewer(ends: seq<nat>, marks: seq<nat>, k: nat)
    requires StrictlyIncreasing(ends) && 0 < k < |marks| && marks[k] == marks[k - 1]
    requires forall q: nat :: q in ends ==> q in marks
    ensures |ends| < |marks|
  {
    var fewer := marks[..k] + marks[k + 1..];
    forall q | q in ends ensures q in fewer {
      var j :| 0 <= j < |marks| && marks[j] == q;
      assert q == if j < k then fewer[j] else if j == k then fewer[k - 1] else fewer[j - 1];
    }
    IncreasingSize(ends);
    ElementsSize(fewer);
    SubsetSize(Elements(ends), Elements(fewer));
  }

  lemma {:induction false} SubsetSize(a: set<nat>, b: set<nat>)
    requires a <= b
    ensures |a| <= |b|
  {
    if a != {} {
      var x :| x in a;
      SubsetSize(a - {x}, b - {x});
    }
  }

  ghost predicate LaterNonempty(parts: seq<seq<byte>>) {
    forall i :: 0 < i < |parts| ==> parts[i] != []
  }

  lemma {:induction false} LaterEndsIncrease(start: nat, parts: seq<seq<byte>>, i: nat, j: nat)
    requires LaterNonempty(parts) && i < j < |parts|
    ensures RunningEnds(start, parts)[i] < RunningEnds(start, parts)[j]
  {
    ConcatPrefix(parts, j);
    if i + 1 < j {
      LaterEndsIncrease(start, parts, i, j - 1);
    }
  }

  lemma LaterNonemptyEntries(image: Image, prefix: seq<byte>, parts: seq<seq<byte>>)
    requires Stamped(image, prefix, parts) && LaterNonempty(parts)
    ensures EntriesFrom(image[AREA..], |prefix|, |prefix|, Ends(image)) == Prefixed(prefix, parts)
  {
    hide Marks, EntriesFrom, Concat, RunningEnds, EndsFrom, LaterNonempty;
    var ends := RunningEnds(|prefix|, parts);
    forall i, j | 0 <= i < j < |ends| ensures ends[i] < ends[j] {
      LaterEndsIncrease(|prefix|, parts, i, j);
    }
    EndsAre(image, ends, 0, 0);
    assert ends[0..] == ends;
    var n := |prefix| + |Concat(parts)|;
    assert image[AREA..][..n] == image[AREA..AREA + n];
    EntriesAre(image[AREA..], prefix, parts, 0);
    ConcatNothing(parts);
  }

  lemma EmptyPartLosesEntry(image: Image, prefix: seq<byte>, parts: seq<seq<byte>>, k: nat)
    requires Stamped(image, prefix, parts) && 0 < k < |parts| && parts[k] == []
    ensures |Ends(image)| < |parts|
  {
    hide Boundary, Concat, EndsFrom;
    var marks := RunningEnds(|prefix|, parts);
    EndsFromIncrease(image, 0);
    ConcatPrefix(parts, k);
    forall q: nat | q in Ends(image) ensures q in marks {
      EndsFromExact(image, 0, q);
    }
    RepeatedEndsFewer(Ends(image), marks, k);
  }

  /** Every entry starts with the common bytes and all but the first are longer. */
  ghost predicate Survive(entries: seq<seq<byte>>, prefix: seq<byte>) {
    forall i :: 0 <= i < |entries| ==> prefix <= entries[i] && (i > 0 ==> prefix < entries[i])
  }

  lemma SuffixFacts(entry: seq<byte>, prefix: seq<byte>)
    ensures prefix + Suffix(entry, prefix) == entry <==> prefix <= entry
    ensures prefix < entry ==> Suffix(entry, prefix) != []
    ensures Suffix(entry, prefix) == [] ==> !(prefix < entry)
  {
    if prefix <= entry {
      assert prefix + entry[|prefix|..] == entry;
    } else {
      assert prefix <= prefix + entry;
    }
  }

  /**
   * Which entries a written node gives back: under a prefix of fewer than 256 bytes, exactly those that start
   * with it, all but the first properly. The decoder also refuses a first entry equal to the prefix, so it
   * accepts a node with the written entries only when every one of them properly extends the prefix.
   */
  lemma OnlyProperExtensionsRoundTrip(
    image: Image, h: Header, prefix: seq<byte>, entries: seq<seq<byte>>, depth: nat, fields: seq<Field>)
    requires ValidHeader(h) && |prefix| < 256 && |prefix| + |Concat(Suffixes(entries, prefix))| <= AREA_BYTES
    requires Blank(image)
    ensures StoredEntries(WrittenNode(image, h, prefix, entries)) == entries <==> Survive(entries, prefix)
    ensures var node := DecodeNode(WrittenNode(image, h, prefix, entries), depth, h.owner, fields);
            node.Accepted? && node.value.entries == entries ==> ProperlyExtend(entries, prefix)
  {
    hide WrittenNode, Concat, Stamped, EntriesFrom, Ends, U32, Suffix, RunningEnds, DecodeNode;
    var after, parts := WrittenNode(image, h, prefix, entries), Suffixes(entries, prefix);
    WrittenNodeStamped(image, h, prefix, entries);
    forall i | 0 <= i < |entries|
      ensures prefix + parts[i] == entries[i] <==> prefix <= entries[i]
      ensures parts[i] == [] ==> !(prefix < entries[i])
    {
      SuffixFacts(entries[i], prefix);
    }
    if LaterNonempty(parts) {
      LaterNonemptyEntries(after, prefix, parts);
      SurviveExactly(entries, prefix, parts);
    } else {
      var k: nat :| 0 < k < |parts| && parts[k] == [];
      EmptyPartLosesEntry(after, prefix, parts, k);
    }
    DecodedFirst(after, depth, h.owner, fields);
  }

  lemma SurviveExactly(entries: seq<seq<byte>>, prefix: seq<byte>, parts: seq<seq<byte>>)
    requires |parts| == |entries| && LaterNonempty(parts)
    requires forall i :: 0 <= i < |entries| ==> (prefix + parts[i] == entries[i] <==> prefix <= entries[i])
    ensures Prefixed(prefix, parts) == entries <==> Survive(entries, prefix)
  {
    if Prefixed(prefix, parts) == entries {
      forall i | 0 <= i < |entries| ensures prefix <= entries[i] && (i > 0 ==> prefix < entries[i]) {
        assert Prefixed(prefix, parts)[i] == entries[i];
      }
    }
  }

  /** The decoder reads the stored entries and refuses a first entry that adds nothing to the prefix. */
  lemma DecodedFirst(image: Image, depth: nat, owner: nat, fields: seq<Field>)
    ensures var node := DecodeNode(image, depth, owner, fields);
            node.Accepted? ==>
              && node.value.entries == StoredEntries(image)
              && (node.value.entries != [] ==> |node.value.entries[0]| > image[20] as int)
  {
    hide Ends, WidthAccepted, Sorted, U32, U16;
    if DecodeNode(image, depth, owner, fields).Accepted? && StoredEntries(image) != [] {
      var ends := Ends(image);
      assert image[20] < ends[0] <= AREA_BYTES;
    }
  }

  /** A first entry equal to the prefix is stored and found again, although no decoder accepts its node. */
  lemma FirstEntryEqualsPrefix(image: Image, h: Header)
    requires ValidHeader(h) && Blank(image)
    ensures var prefix, entries := [5], [[5], [5, 1]];
            && |prefix| + |Concat(Suffixes(entries, prefix))| <= AREA_BYTES && !ProperlyExtend(entries, prefix)
            && StoredEntries(WrittenNode(image, h, prefix, entries)) == entries
  {
    hide StoredEntries, WrittenNode, Blank;
    var prefix: seq<byte>, entries: seq<seq<byte>> := [5], [[5], [5, 1]];
    assert Suffixes(entries, prefix) == [[], [1]];
    assert [[], [1]][..1] == [[]] && Concat([[]]) == [] && Concat([[], [1]]) == [] + [1];
    OnlyProperExtensionsRoundTrip(image, h, prefix, entries, 1, []);
  }

  // ----- Nodes read from their bytes -----

  /** The ends of a node are the marked positions, lowest bit first in each byte. */
  lemma EndsByBytes(image: Image, q: nat)
    ensures q in Ends(image) <==> q < POSITIONS && image[BITMAP + q / 8] / [1, 2, 4, 8, 16, 32, 64, 128][q % 8] % 2 == 1
    ensures StrictlyIncreasing(Ends(image))
  {
    hide EndsFrom, Bit;
    EndsFromExact(image, 0, q);
    EndsFromIncrease(image, 0);
    if q < POSITIONS {
      BitValue(image[BITMAP + q / 8], q % 8);
    }
  }

  lemma {:induction false} ClassKeepsEnds(image: Image, code: byte, p: nat)
    requires p <= POSITIONS
    ensures EndsFrom(image[21 := code], p) == EndsFrom(image, p)
    decreases POSITIONS - p
  {
    hide Bit;
    if p < POSITIONS {
      ClassKeepsEnds(image, code, p + 1);
      assert image[21 := code][BITMAP + p / 8] == image[BITMAP + p / 8];
    }
  }

  /** Which header classes an accepted node may have: 0 for a leaf, 1 to 3 for a branch, 1 for an empty root. */
  lemma HeaderClasses(image: Image, depth: nat, owner: nat, fields: seq<Field>, code: byte)
    requires DecodeNode(image, depth, owner, fields).Accepted?
    ensures var node := DecodeNode(image, depth, owner, fields).value;
            DecodeNode(image[21 := code], depth, owner, fields)
            == if (if node.branch then 1 <= code <= 3 && (node.entries == [] ==> code == 1) else code == 0)
               then Accepted(node.(headerClass := code)) else Rejected
  {
    hide EndsFrom, EntriesFrom, WidthAccepted, Sorted;
    var after := image[21 := code];
    ClassKeepsEnds(image, code, 0);
    assert after[AREA..] == image[AREA..];
    EntriesPerEnd(image[AREA..], image[20], image[20], Ends(image));
  }

  lemma {:induction false} EntriesPerEnd(area: seq<byte>, prefix: nat, start: nat, ends: seq<nat>)
    ensures EntriesFrom(area, prefix, start, ends) == [] <==> ends == []
  {
  }

  // ----- Pages with stale marks -----

  lemma HeaderKeepsMarks(image: Image, h: Header, prefix: seq<byte>, q: nat)
    requires ValidHeader(h) && |prefix| <= AREA_BYTES && q < POSITIONS
    ensures Boundary(PutHeader(image, h, prefix), q) == Boundary(image, q)
  {
    hide Bit;
    assert PutHeader(image, h, prefix)[BITMAP + q / 8] == image[BITMAP + q / 8];
  }

  /** The writer only ever sets marks: those of the page stay. */
  lemma WrittenMarks(image: Image, h: Header, prefix: seq<byte>, entries: seq<seq<byte>>, q: nat)
    requires ValidHeader(h) && |prefix| + |Concat(Suffixes(entries, prefix))| <= AREA_BYTES && q < POSITIONS
    ensures Boundary(WrittenNode(image, h, prefix, entries), q)
            <==> Boundary(image, q) || q in RunningEnds(|prefix|, Suffixes(entries, prefix))
  {
    hide Bit, PutHeader, AppendParts, Concat, RunningEnds;
    var headed, parts := PutHeader(image, h, prefix), Suffixes(entries, prefix);
    HeaderKeepsMarks(image, h, prefix, q);
    AppendedMarks(headed, |prefix|, parts, q);
    assert WrittenNode(image, h, prefix, entries)[BITMAP + q / 8]
        == AppendParts(headed, |prefix|, parts)[BITMAP + q / 8];
  }

  lemma WrittenArea(image: Image, h: Header, prefix: seq<byte>, entries: seq<seq<byte>>)
    requires ValidHeader(h) && |prefix| + |Concat(Suffixes(entries, prefix))| <= AREA_BYTES
    ensures var after, n := WrittenNode(image, h, prefix, entries), |prefix| + |Concat(Suffixes(entries, prefix))|;
            after[20] == |prefix| % 256 && after[AREA..AREA + n] == prefix + Concat(Suffixes(entries, prefix))
  {
    hide PutHeader, AppendParts, Concat, Blank;
    var headed, parts := PutHeader(image, h, prefix), Suffixes(entries, prefix);
    PutHeaderFields(image, h, prefix);
    AppendedArea(headed, prefix, parts);
    AppendedBytes(headed, |prefix|, parts, 20);
    var filled, n := AppendParts(headed, |prefix|, parts), |prefix| + |Concat(parts)|;
    assert WrittenNode(image, h, prefix, entries)[AREA..AREA + n] == filled[AREA..AREA + n];
  }

  /** A mark more is an entry more. */
  lemma ExtraMark(image: Image, ends: seq<nat>, p: nat)
    requires StrictlyIncreasing(ends) && p !in ends && p < POSITIONS && Boundary(image, p)
    requires forall i :: 0 <= i < |ends| ==> ends[i] < POSITIONS && Boundary(image, ends[i])
    ensures |Ends(image)| > |ends|
  {
    hide Boundary, EndsFrom;
    EndsFromIncrease(image, 0);
    IncreasingSize(ends);
    IncreasingSize(Ends(image));
    forall q | q in Elements(ends) + {p} ensures q in Elements(Ends(image)) {
      EndsFromExact(image, 0, q);
    }
    SubsetSize(Elements(ends) + {p}, Elements(Ends(image)));
  }

  /**
   * On any page, clear or not, entries that a clear page gives back are given back exactly when every mark that was
   * already there is the end of one of them.
   */
  lemma StaleMarks(image: Image, h: Header, prefix: seq<byte>, entries: seq<seq<byte>>)
    requires ValidHeader(h) && |prefix| < 256 && |prefix| + |Concat(Suffixes(entries, prefix))| <= AREA_BYTES
    requires Survive(entries, prefix)
    ensures StoredEntries(WrittenNode(image, h, prefix, entries)) == entries <==>
            forall q: nat :: q < POSITIONS && Boundary(image, q) ==>
              q in RunningEnds(|prefix|, Suffixes(entries, prefix))
  {
    hide WrittenNode, Concat, EntriesFrom, EndsFrom, RunningEnds, Boundary, Suffix;
    var after, parts := WrittenNode(image, h, prefix, entries), Suffixes(entries, prefix);
    var ends := RunningEnds(|prefix|, parts);
    WrittenArea(image, h, prefix, entries);
    SurvivingParts(entries, prefix, parts);
    forall i | 0 <= i < |ends| ensures ends[i] < POSITIONS {
      RunningEndInside(|prefix|, parts, i);
    }
    forall q: nat | q < POSITIONS ensures Boundary(after, q) <==> Boundary(image, q) || q in ends {
      WrittenMarks(image, h, prefix, entries, q);
    }
    if p: nat :| p < POSITIONS && Boundary(image, p) && p !in ends {
      forall i, j | 0 <= i < j < |ends| ensures ends[i] < ends[j] {
        LaterEndsIncrease(|prefix|, parts, i, j);
      }
      ExtraMark(after, ends, p);
    } else {
      MakeStamp(after, prefix, parts);
      LaterNonemptyEntries(after, prefix, parts);
    }
  }

  lemma SurvivingParts(entries: seq<seq<byte>>, prefix: seq<byte>, parts: seq<seq<byte>>)
    requires Survive(entries, prefix) && parts == Suffixes(entries, prefix)
    ensures LaterNonempty(parts) && Prefixed(prefix, parts) == entries
  {
    hide Suffix;
    forall i | 0 <= i < |entries| ensures prefix + parts[i] == entries[i] && (i > 0 ==> parts[i] != []) {
      SuffixFacts(entries[i], prefix);
    }
  }

  // ----- The nine-byte-record leaf rebuild -----

  lemma {:induction false} NineByteConcat(records: seq<seq<byte>>, n: nat)
    requires n <= |records| && forall i :: 0 <= i < |records| ==> |records[i]| == 9
    ensures |Concat(records[..n])| == 9 * n
  {
    if n > 0 {
      NineByteConcat(records, n - 1);
      assert records[..n][..n - 1] == records[..n - 1];
    }
  }

  lemma NineByteEnds(records: seq<seq<byte>>, q: nat)
    requires forall i :: 0 <= i < |records| ==> |records[i]| == 9
    ensures q in RunningEnds(0, records) <==> q % 9 == 0 && 0 < q <= 9 * |records|
  {
    hide Concat;
    var ends := RunningEnds(0, records);
    forall i | 0 <= i < |records| ensures ends[i] == 9 * (i + 1) {
      NineByteConcat(records, i + 1);
    }
    if q % 9 == 0 && 0 < q <= 9 * |records| {
      assert ends[q / 9 - 1] == q;
    }
  }

  /** The page an uncompressed single leaf must already be. */
  predicate PlainLeaf(image: Image) {
    image[..2] == [4, 1] && forall i :: 8 <= i < 22 ==> image[i] == 0
  }

  /** A bitmap that marks the multiples of nine up to `count` records. */
  ghost predicate NineByteBitmap(bitmap: seq<byte>, count: nat) {
    |bitmap| == 226 &&
    forall q: nat :: q < POSITIONS ==> (Bit(bitmap[q / 8], q % 8) <==> q % 9 == 0 && 0 < q <= 9 * count)
  }

  method MarkRecords(count: nat) returns (bitmap: seq<byte>)
    requires count <= 200
    ensures NineByteBitmap(bitmap, count)
  {
    hide Bit, PutByteBit;
    bitmap := seq(226, i => 0);
    NoBits();
    for n := 1 to count + 1
      invariant NineByteBitmap(bitmap, n - 1)
    {
      var before, p := bitmap, n * 9;
      bitmap := bitmap[p / 8 := PutByteBit(bitmap[p / 8], p % 8, true)];
      forall q: nat | q < POSITIONS ensures Bit(bitmap[q / 8], q % 8) <==> q % 9 == 0 && 0 < q <= 9 * n {
        NextMark(before, bitmap, p, q);
        NextMultiple(q, n);
      }
    }
  }

  lemma NextMultiple(q: nat, n: nat)
    requires n > 0
    ensures q % 9 == 0 && 0 < q <= 9 * n <==> (q % 9 == 0 && 0 < q <= 9 * (n - 1)) || q == 9 * n
  {
    if q % 9 == 0 {
      var m := q / 9;
      assert q == 9 * m;
    } else {
      assert q != 9 * n by {
        assert (9 * n) % 9 == 0;
      }
    }
  }

  lemma RebuiltStamped(before: Image, bitmap: seq<byte>, records: seq<seq<byte>>)
    requires (forall i :: 0 <= i < |records| ==> |records[i]| == 9) && |records| <= 200
    requires NineByteBitmap(bitmap, |records|)
    ensures |Concat(records)| == 9 * |records|
    ensures var cleared := Put(Put(before, 2, Le16(AREA_BYTES - 9 * |records|)), BITMAP, bitmap);
            Rebuilt(before, Put(cleared, AREA, Concat(records)), records)
  {
    hide Bit, Concat, RunningEnds;
    NineByteConcat(records, |records|);
    assert records[..|records|] == records;
    var after := Put(Put(Put(before, 2, Le16(AREA_BYTES - 9 * |records|)), BITMAP, bitmap), AREA, Concat(records));
    forall q: nat | q < POSITIONS ensures Boundary(after, q) <==> q in RunningEnds(0, records) {
      NineByteEnds(records, q);
      assert after[BITMAP + q / 8] == bitmap[q / 8];
    }
    forall i | 0 <= i < |records| ensures RunningEnds(0, records)[i] < POSITIONS {
      var end := RunningEnds(0, records)[i];
      NineByteEnds(records, end);
    }
    assert after[AREA..AREA + |Concat(records)|] == [] + Concat(records);
  }

  /** The leaf with its free count, bitmap and records replaced, and nothing else. */
  ghost predicate Rebuilt(before: Image, after: Image, records: seq<seq<byte>>) {
    && Stamped(after, [], records)
    && U16(after, 2) == AREA_BYTES - 9 * |records|
    && (forall i :: 0 <= i < BITMAP && i != 2 && i != 3 ==> after[i] == before[i])
    && (forall i :: AREA + 9 * |records| <= i < PAGE ==> after[i] == before[i])
  }

  /** Rebuilds an uncompressed single leaf in place. */
  method RebuildLeaf(page: array<byte>, records: seq<seq<byte>>) returns (r: Result<()>)
    requires page.Length == PAGE && forall i :: 0 <= i < |records| ==> |records[i]| == 9
    modifies page
    ensures r.Accepted? <==> PlainLeaf(old(page[..])) && |records| <= 200
    ensures r.Rejected? ==> page[..] == old(page[..])
    ensures r.Accepted? ==> Rebuilt(old(page[..]), page[..], records)
  {
    hide Put, Concat, Rebuilt, NineByteBitmap, Le16;
    var before: Image := page[..];
    if before[..2] != [4, 1] || (exists i :: 8 <= i < 22 && before[i] != 0) || |records| > 200 {
      return Rejected;
    }
    var bitmap := MarkRecords(|records|);
    BitmapSize(bitmap, |records|);
    RebuiltStamped(before, bitmap, records);
    PutBytes(page, 2, Le16(AREA_BYTES - 9 * |records|));
    PutBytes(page, BITMAP, bitmap);
    PutBytes(page, AREA, Concat(records));
    return Accepted(());
  }

  lemma BitmapSize(bitmap: seq<byte>, count: nat)
    requires NineByteBitmap(bitmap, count)
    ensures |bitmap| == 226
  {
  }

  lemma NoBits()
    ensures forall k: nat :: !Bit(0, k)
  {
    forall k: nat ensures !Bit(0, k) {
      ZeroHasNoBits(k);
    }
  }

  /** Setting bit `p` of a bitmap and reading bit `q`. */
  lemma NextMark(before: seq<byte>, after: seq<byte>, p: nat, q: nat)
    requires |before| == |after| == 226 && p < POSITIONS && q < POSITIONS
    requires after == before[p / 8 := PutByteBit(before[p / 8], p % 8, true)]
    ensures Bit(after[q / 8], q % 8) <==> Bit(before[q / 8], q % 8) || q == p
  {
    hide Bit;
    assert q == 8 * (q / 8) + q % 8 && p == 8 * (p / 8) + p % 8;
  }

  /** A rebuilt leaf decodes to exactly the records written into it. */
  lemma RebuiltLeafDecodes(image: Image, records: seq<seq<byte>>, depth: nat, fields: seq<Field>)
    requires PlainLeaf(image) && Stamped(image, [], records) && U16(image, 2) == AREA_BYTES - 9 * |records|
    requires forall i :: 0 <= i < |records| ==> |records[i]| == 9 && WidthAccepted(records[i], fields, false)
    requires Sorted(records)
    ensures DecodeNode(image, depth, U32(image, 4), fields) == Accepted(Node(false, 0, 0, 0, 0, 0, records))
  {
    hide Concat, Stamped, EntriesFrom, Ends, WidthAccepted, Sorted, RunningEnds;
    assert AllNonempty(records);
    StampedEnds(image, [], records);
    RunningEndsBounds(0, records);
    StampedEntries(image, [], records);
    assert Prefixed([], records) == records by {
      forall i | 0 <= i < |records| ensures Prefixed([], records)[i] == records[i] {
        assert [] + records[i] == records[i];
      }
    }
    NineByteConcat(records, |records|);
    assert records[..|records|] == records;
    StampedFits(image, records);
  }

  lemma StampedFits(image: Image, parts: seq<seq<byte>>)
    requires Stamped(image, [], parts)
    ensures |Concat(parts)| <= AREA_BYTES
  {
  }
}
