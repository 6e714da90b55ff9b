/**
 * Allocation maps (`locator_row` and `map_record` in oracle/windows-dao/structure.py), the page
 * classification of `observe`, and the map edits of a data page appended at the end of the file
 * (oracle/windows-dao/registry/indexed_boundary.py).
 */
module AllocationMaps {
  import opened Bytes
  import opened DataPages

  // ----- Reading maps -----

  /** The bytes of an active row on a map page. */
  function LocatorRow(data: seq<byte>, spot: Locator): (r: Result<seq<byte>>) {
    var image :- PageOf(data, spot.page);
    RowOf(image, spot.row)
  }

  function RowOf(image: Image, row: nat): (r: Result<seq<byte>>) {
    if image[0] != 1 || !DirectoryAccepted(image) || row >= Count(image) then Rejected
    else
      var stored := RowAt(image, row);
      if stored.hidden || stored.overflow then Rejected else Accepted(stored.data)
  }

  /** Pages whose bit is set in a bitmap that starts at page `base`. */
  function BitMembers(bitmap: seq<byte>, base: nat): (r: set<nat>) {
    set p: nat | base <= p < base + 8 * |bitmap| && HasBit(bitmap, base, p)
  }

  predicate HasBit(bitmap: seq<byte>, base: nat, p: nat) {
    base <= p < base + 8 * |bitmap| && Bit(bitmap[(p - base) / 8], (p - base) % 8)
  }

  /** The loop of the source over bytes and bits. */
  method CollectBits(bitmap: seq<byte>, base: nat, start: set<nat>) returns (members: set<nat>)
    ensures members == start + BitMembers(bitmap, base)
  {
    hide Bit;
    members := start;
    for offset := 0 to |bitmap|
      invariant members == start + set p: nat | base <= p < base + 8 * offset && HasBit(bitmap, base, p)
    {
      for bit := 0 to 8
        invariant members == start + set p: nat | base <= p < base + 8 * offset + bit && HasBit(bitmap, base, p)
      {
        var page := base + offset * 8 + bit;
        assert (page - base) / 8 == offset && (page - base) % 8 == bit;
        if Bit(bitmap[offset], bit) {
          members := members + {page};
        }
      }
    }
  }

  function References(raw: seq<byte>): (r: seq<nat>)
    requires |raw| == 133
    ensures |r| == 33
  {
    seq(33, i requires 0 <= i < 33 => U32(raw, 1 + 4 * i))
  }

  const HEADER: seq<byte> := [5, 1, 0, 0]

  /** The bitmap of one indirect slot; an empty slot has no members. */
  function SlotMembers(data: seq<byte>, spot: Locator, slot: nat, reference: nat): (r: Result<set<nat>>) {
    if reference == 0 then Accepted({})
    else if reference == spot.page then Rejected
    else
      var image :- PageOf(data, reference);
      if image[..4] != HEADER then Rejected else Accepted(BitMembers(image[4..], slot * 16352))
  }

  function IndirectMembers(data: seq<byte>, spot: Locator, references: seq<nat>): (r: Result<set<nat>>) {
    if references == [] then Accepted({})
    else
      var n := |references| - 1;
      var earlier :- IndirectMembers(data, spot, references[..n]);
      var last :- SlotMembers(data, spot, n, references[n]);
      Accepted(earlier + last)
  }

  /** No reference follows a zero one. */
  predicate ZerosLast(references: seq<nat>) {
    forall i, j :: 0 <= i < j < |references| && references[i] == 0 ==> references[j] == 0
  }

  /** Nonzero references come first and are distinct. */
  predicate ReferencesAccepted(references: seq<nat>) {
    && ZerosLast(references)
    && (forall i, j :: 0 <= i < j < |references| && references[i] != 0 ==> references[i] != references[j])
  }

  /** A decoded map: the first page it represents, how many pages it represents, and its members. */
  datatype Map = Map(start: nat, extent: nat, references: seq<nat>, members: set<nat>)

  function CountActive(references: seq<nat>): (n: nat) {
    if references == [] then 0
    else CountActive(references[..|references| - 1]) + (if references[|references| - 1] != 0 then 1 else 0)
  }

  function ReadMap(data: seq<byte>, spot: Locator): (r: Result<Map>) {
    var raw :- LocatorRow(data, spot);
    if raw == [] then Rejected
    else if raw[0] == 0 then
      if |raw| < 5 then Rejected
      else Accepted(Map(U32(raw, 1), (|raw| - 5) * 8, [], BitMembers(raw[5..], U32(raw, 1))))
    else if raw[0] != 1 || |raw| != 133 || !ReferencesAccepted(References(raw)) then Rejected
    else
      var members :- IndirectMembers(data, spot, References(raw));
      Accepted(Map(0, CountActive(References(raw)) * 16352, References(raw), members))
  }

  // ----- Members read from the bytes -----

  /** The little-endian word at an offset of a map row. */
  function WordOf(raw: seq<byte>, offset: nat): (n: nat)
    requires offset + 4 <= |raw|
  {
    raw[offset] as int + 0x100 * raw[offset + 1] as int + 0x1_0000 * raw[offset + 2] as int
    + 0x100_0000 * raw[offset + 3] as int
  }

  /** Page `base + k` is bit `k % 8` of byte `k / 8`, counted from the lowest bit. */
  predicate BitSet(bitmap: seq<byte>, k: nat) {
    k < 8 * |bitmap| && bitmap[k / 8] / [1, 2, 4, 8, 16, 32, 64, 128][k % 8] % 2 == 1
  }

  lemma BitMembersByBytes(bitmap: seq<byte>, base: nat, p: nat)
    ensures p in BitMembers(bitmap, base) <==> p >= base && BitSet(bitmap, p - base)
  {
    hide Bit;
    if base <= p < base + 8 * |bitmap| {
      BitValue(bitmap[(p - base) / 8], (p - base) % 8);
    }
  }

  /** The members of an inline map. */
  lemma InlineMapByBytes(data: seq<byte>, spot: Locator, p: nat)
    requires ReadMap(data, spot).Accepted? && LocatorRow(data, spot).value[0] == 0
    ensures var raw, m := LocatorRow(data, spot).value, ReadMap(data, spot).value;
            && |raw| >= 5 && m.start == WordOf(raw, 1) && m.extent == 8 * (|raw| - 5) && m.references == []
            && (p in m.members <==> p >= m.start && BitSet(raw[5..], p - m.start))
  {
    hide LocatorRow, BitMembers, BitSet;
    var raw := LocatorRow(data, spot).value;
    BitMembersByBytes(raw[5..], U32(raw, 1), p);
  }

  lemma {:induction false} IndirectByBytes(data: seq<byte>, spot: Locator, references: seq<nat>, p: nat)
    requires IndirectMembers(data, spot, references).Accepted?
    ensures p in IndirectMembers(data, spot, references).value <==>
            && p / 16352 < |references| && references[p / 16352] != 0
            && PageOf(data, references[p / 16352]).Accepted?
            && BitSet(PageOf(data, references[p / 16352]).value[4..], p % 16352)
  {
    hide PageOf, BitMembers, BitSet;
    if references != [] {
      var n := |references| - 1;
      IndirectByBytes(data, spot, references[..n], p);
      if references[n] != 0 {
        var bitmap := PageOf(data, references[n]).value[4..];
        BitMembersByBytes(bitmap, n * 16352, p);
        SlotOfPage(bitmap, n, p);
      }
    }
  }

  lemma SlotOfPage(bitmap: seq<byte>, slot: nat, p: nat)
    requires |bitmap| == 2044
    ensures p >= slot * 16352 && BitSet(bitmap, p - slot * 16352) <==> p / 16352 == slot && BitSet(bitmap, p % 16352)
  {
  }

  /** The members of an indirect map: slot `s` covers 16352 pages from `16352 * s` on. */
  lemma IndirectMapByBytes(data: seq<byte>, spot: Locator, p: nat)
    requires ReadMap(data, spot).Accepted? && LocatorRow(data, spot).value[0] != 0
    ensures var raw, m := LocatorRow(data, spot).value, ReadMap(data, spot).value;
            && raw[0] == 1 && |raw| == 133 && m.start == 0 && m.extent % 16352 == 0
            && (p in m.members <==>
                  && p < 33 * 16352
                  && var reference := WordOf(raw, 1 + 4 * (p / 16352));
                     reference != 0 && PageOf(data, reference).Accepted?
                     && BitSet(PageOf(data, reference).value[4..], p % 16352))
            && (p < 33 ==> (WordOf(raw, 1 + 4 * p) != 0 <==> p < m.extent / 16352))
  {
    hide LocatorRow, IndirectMembers, PageOf, BitSet, CountActive;
    var raw := LocatorRow(data, spot).value;
    var references := References(raw);
    IndirectByBytes(data, spot, references, p);
    PackedIsPrefix(references);
    ActiveSize(references);
    assert CountActive(references) * 16352 / 16352 == CountActive(references);
    if p < 33 {
      assert references[p] == WordOf(raw, 1 + 4 * p);
      assert references[p] == 0 <==> p >= |Active(references)|;
    }
  }

  /** A map row is a row of a page tagged 1 whose two flag bits are clear. */
  lemma LocatorRowByBytes(data: seq<byte>, spot: Locator, raw: seq<byte>)
    ensures LocatorRow(data, spot) == Accepted(raw) <==>
            && PageOf(data, spot.page).Accepted?
            && var image := PageOf(data, spot.page).value;
               var slots := Directory(image);
               && image[0] == 1 && slots.Accepted? && spot.row < |slots.value| && 10 + 2 * |slots.value| <= PAGE
               && image[11 + 2 * spot.row] < 64
               && 0 <= slots.value[spot.row].start <= slots.value[spot.row].end <= PAGE
               && raw == image[slots.value[spot.row].start..slots.value[spot.row].end]
  {
    hide RowAt, SlotAccepted, SlotAt;
    if PageOf(data, spot.page).Accepted? {
      var image := PageOf(data, spot.page).value;
      if DirectoryAccepted(image) && spot.row < Count(image) {
        RowBytes(image, spot.row);
        SlotFlags(image, spot.row);
      }
    }
  }

  lemma {:induction false} IndirectAccepted(data: seq<byte>, spot: Locator, references: seq<nat>)
    ensures IndirectMembers(data, spot, references).Accepted? <==>
            forall s :: 0 <= s < |references| && references[s] != 0 ==> IsBitmap(data, spot, references[s])
  {
    hide PageOf, BitMembers;
    if references != [] {
      var n := |references| - 1;
      IndirectAccepted(data, spot, references[..n]);
      if references[n] != 0 && PageOf(data, references[n]).Accepted? {
        BitmapHeader(PageOf(data, references[n]).value);
      }
    }
  }

  /** Another page of the file that starts with the bitmap header. */
  ghost predicate IsBitmap(data: seq<byte>, spot: Locator, page: nat) {
    && page != spot.page && PageOf(data, page).Accepted?
    && var image := PageOf(data, page).value;
       image[0] == 5 && image[1] == 1 && image[2] == 0 && image[3] == 0
  }

  lemma BitmapHeader(image: Image)
    ensures image[..4] == HEADER <==> image[0] == 5 && image[1] == 1 && image[2] == 0 && image[3] == 0
  {
    var first := image[..4];
    assert first == [image[0], image[1], image[2], image[3]];
    assert first[0] == image[0] && first[1] == image[1] && first[2] == image[2] && first[3] == image[3];
  }

  /** Which rows are maps: inline ones of five bytes or more, and indirect ones over distinct bitmap pages. */
  lemma MapAcceptedExactly(data: seq<byte>, spot: Locator)
    ensures ReadMap(data, spot).Accepted? <==>
            && LocatorRow(data, spot).Accepted?
            && var raw := LocatorRow(data, spot).value;
               || (|raw| >= 5 && raw[0] == 0)
               || (&& |raw| == 133 && raw[0] == 1
                   && (forall i, j :: 0 <= i < j < 33 && ReferenceAt(raw, i) == 0 ==> ReferenceAt(raw, j) == 0)
                   && (forall i, j :: 0 <= i < j < 33 && ReferenceAt(raw, i) != 0 ==>
                         ReferenceAt(raw, i) != ReferenceAt(raw, j))
                   && (forall i :: 0 <= i < 33 && ReferenceAt(raw, i) != 0 ==>
                         IsBitmap(data, spot, ReferenceAt(raw, i))))
  {
    hide LocatorRow, IndirectMembers, IsBitmap, BitMembers, CountActive;
    if LocatorRow(data, spot).Accepted? {
      var raw := LocatorRow(data, spot).value;
      if |raw| == 133 && raw[0] == 1 {
        var references := References(raw);
        IndirectAccepted(data, spot, references);
        assert forall i :: 0 <= i < 33 ==> references[i] == ReferenceAt(raw, i);
      }
    }
  }

  /** The page named by slot `i` of an indirect map row. */
  function ReferenceAt(raw: seq<byte>, i: int): (n: nat)
    requires |raw| == 133 && 0 <= i < 33
  {
    WordOf(raw, 1 + 4 * i)
  }

  // ----- The loops of `map_record` -----

  /** The nonzero references in order. */
  function Active(references: seq<nat>): (r: seq<nat>)
    ensures |r| <= |references| && 0 !in r
  {
    if references == [] then []
    else
      var n := |references| - 1;
      Active(references[..n]) + (if references[n] != 0 then [references[n]] else [])
  }

  lemma {:induction false} ActiveSize(references: seq<nat>)
    ensures |Active(references)| == CountActive(references)
  {
    if references != [] {
      ActiveSize(references[..|references| - 1]);
    }
  }

  lemma {:induction false} PackedIsPrefix(references: seq<nat>)
    requires ZerosLast(references)
    ensures references[..|Active(references)|] == Active(references)
    ensures forall i :: 0 <= i < |references| ==> (references[i] == 0 <==> i >= |Active(references)|)
  {
    if references != [] {
      var n := |references| - 1;
      var rest, last := references[..n], references[n];
      assert references == rest + [last] && forall i :: 0 <= i < n ==> rest[i] == references[i];
      PackedIsPrefix(rest);
      if last != 0 {
        CountAtLeast(rest, n);
        ActiveSize(rest);
      }
    }
  }

  lemma PrefixIsPacked(references: seq<nat>, active: seq<nat>)
    requires active == Active(references) && references[..|active|] == active
    ensures ZerosLast(references)
  {
    hide Active;
    ActiveSize(references);
    forall k: nat | |active| <= k < |references| ensures references[k] == 0 {
      AllCounted(references, |active|, k);
    }
    assert forall i :: 0 <= i < |active| ==> references[i] == active[i];
  }

  lemma {:induction false} AllCounted(references: seq<nat>, n: nat, k: nat)
    requires n <= k < |references| && CountActive(references) <= n && forall i :: 0 <= i < n ==> references[i] != 0
    ensures references[k] == 0
  {
    var m := |references| - 1;
    CountAtLeast(references[..m], n);
    if k < m {
      AllCounted(references[..m], n, k);
    }
  }

  lemma {:induction false} CountAtLeast(references: seq<nat>, n: nat)
    requires n <= |references| && forall i :: 0 <= i < n ==> references[i] != 0
    ensures CountActive(references) >= n
  {
    if n < |references| {
      CountAtLeast(references[..|references| - 1], n);
    } else if n > 0 {
      CountAtLeast(references[..|references| - 1], n - 1);
    }
  }

  /** The check of the source on sizes and prefix is the check on positions. */
  lemma ReferenceChecks(references: seq<nat>)
    ensures NoRepeats(Active(references)) && references[..|Active(references)|] == Active(references)
            <==> ReferencesAccepted(references)
  {
    hide Active;
    var active := Active(references);
    if references[..|active|] == active {
      PrefixIsPacked(references, active);
    }
    if ZerosLast(references) {
      PackedIsPrefix(references);
      assert forall i :: 0 <= i < |active| ==> references[i] == active[i];
    }
  }

  /** `map_record` up to its end-of-file laws. */
  method LoadMap(data: seq<byte>, spot: Locator) returns (r: Result<Map>)
    ensures r == ReadMap(data, spot)
  {
    hide LocatorRow, BitMembers, ReferencesAccepted, SlotMembers, Active, CountActive, IndirectMembers, References;
    var row := LocatorRow(data, spot);
    if row.Rejected? || row.value == [] {
      return Rejected;
    }
    var raw := row.value;
    var members;
    if raw[0] == 0 {
      if |raw| < 5 {
        return Rejected;
      }
      members := CollectBits(raw[5..], U32(raw, 1), {});
      assert {} + BitMembers(raw[5..], U32(raw, 1)) == BitMembers(raw[5..], U32(raw, 1));
      return Accepted(Map(U32(raw, 1), (|raw| - 5) * 8, [], members));
    }
    if raw[0] != 1 || |raw| != 133 {
      return Rejected;
    }
    var references := References(raw);
    var active := Active(references);
    ReferenceChecks(references);
    ElementsSize(active);
    ActiveSize(references);
    if |active| != |Elements(active)| || references[..|active|] != active {
      return Rejected;
    }
    var indirect := LoadSlots(data, spot, references);
    if indirect.Rejected? {
      return Rejected;
    }
    return Accepted(Map(0, |active| * 16352, references, indirect.value));
  }

  method LoadSlots(data: seq<byte>, spot: Locator, references: seq<nat>) returns (r: Result<set<nat>>)
    ensures r == IndirectMembers(data, spot, references)
  {
    hide PageOf, BitMembers;
    var members: set<nat> := {};
    for slot := 0 to |references|
      invariant IndirectMembers(data, spot, references[..slot]) == Accepted(members)
    {
      assert references[..slot + 1][..slot] == references[..slot];
      var reference := references[slot];
      if reference != 0 {
        var page := PageOf(data, reference);
        if reference == spot.page || page.Rejected? || page.value[..4] != HEADER {
          SlotRejected(data, spot, references, slot);
          return Rejected;
        }
        members := CollectBits(page.value[4..], slot * 16352, members);
      } else {
        assert members + {} == members;
      }
    }
    assert references[..|references|] == references;
    return Accepted(members);
  }

  lemma {:induction false} SlotRejected(data: seq<byte>, spot: Locator, references: seq<nat>, slot: nat)
    requires slot < |references| && IndirectMembers(data, spot, references[..slot + 1]).Rejected?
    ensures IndirectMembers(data, spot, references).Rejected?
    decreases |references|
  {
    hide SlotMembers;
    if slot + 1 < |references| {
      assert references[..|references| - 1][..slot + 1] == references[..slot + 1];
      SlotRejected(data, spot, references[..|references| - 1], slot);
    } else {
      assert references[..slot + 1] == references;
    }
  }

  function Inside(m: Map, pages: nat): (r: set<nat>) {
    set p | p in m.members && p < pages
  }

  function Beyond(m: Map, pages: nat): (r: set<nat>) {
    set p | p in m.members && p >= pages
  }

  predicate InRange(low: nat, p: nat, high: nat) {
    low <= p < high
  }

  function Range(low: nat, high: nat): (r: set<nat>) {
    set p: nat | low <= p < high && InRange(low, p, high)
  }

  /** The global map starts at page 0 and every page it represents beyond the end of the file is free. */
  predicate GlobalAccepted(m: Map, pages: nat) {
    m.start == 0 && Beyond(m, pages) == Range(pages, m.start + m.extent)
  }

  predicate RoleAccepted(m: Map, pages: nat) {
    Beyond(m, pages) == {}
  }

  // ----- Editing one byte of a row -----

  /** Where byte `k` of a row lives in the file. */
  function RowOffset(data: seq<byte>, spot: Locator, k: nat): (n: nat)
    requires LocatorRow(data, spot).Accepted?
  {
    spot.page * PAGE + Floor(PageOf(data, spot.page).value, spot.row + 1) + k
  }

  lemma SameDirectory(image: Image, after: Image)
    requires DirectoryAccepted(image) && Count(after) == Count(image)
    requires forall i: nat :: i < Count(image) ==> WordAt(after, i) == WordAt(image, i)
    ensures DirectoryAccepted(after)
    ensures forall n: nat :: n <= Count(image) ==> Floor(after, n) == Floor(image, n)
  {
    hide WordAt, Count;
    forall n: nat | n <= Count(image) ensures Floor(after, n) == Floor(image, n) {
      SameWordsSameFloor(image, after, n);
    }
    forall i: nat | i < Count(after) ensures SlotAccepted(after, Count(after), i) {
      assert SlotAccepted(image, Count(image), i);
    }
  }

  /** Changing a byte inside one row changes that byte of that row and no other row. */
  lemma RowByteEdit(image: Image, row: nat, k: nat, b: byte)
    requires DirectoryAccepted(image) && row < Count(image) && k < |RowAt(image, row).data|
    ensures Floor(image, row + 1) + k < PAGE
    ensures var after := image[Floor(image, row + 1) + k := b];
            && DirectoryAccepted(after) && Count(after) == Count(image) && after[0] == image[0]
            && RowAt(after, row) == RowAt(image, row).(data := RowAt(image, row).data[k := b])
            && (forall i: nat :: i < Count(image) && i != row ==> RowAt(after, i) == RowAt(image, i))
            && (forall n: nat :: n <= Count(image) ==> Floor(after, n) == Floor(image, n))
  {
    hide Floor, SlotAccepted;
    FloorDecreases(image, row, row + 1);
    FloorDecreases(image, row + 1, Count(image));
    FloorDecreases(image, 0, row);
    var byteAt := Floor(image, row + 1) + k;
    var after := image[byteAt := b];
    assert byteAt >= 10 + 2 * Count(image);
    assert Count(after) == Count(image);
    SameDirectory(image, after);
    assert after[Floor(image, row + 1)..Floor(image, row)] == image[Floor(image, row + 1)..Floor(image, row)][k := b];
    forall i: nat | i < Count(image) && i != row ensures RowAt(after, i) == RowAt(image, i) {
      OtherRowApart(image, row, i);
      assert after[Floor(image, i + 1)..Floor(image, i)] == image[Floor(image, i + 1)..Floor(image, i)];
    }
  }

  lemma OtherRowApart(image: Image, row: nat, i: nat)
    requires DirectoryAccepted(image) && row < Count(image) && i < Count(image) && i != row
    ensures Floor(image, i + 1) <= Floor(image, i) <= PAGE
    ensures Floor(image, i) <= Floor(image, row + 1) || Floor(image, row) <= Floor(image, i + 1)
  {
    hide Floor;
    FloorDecreases(image, i, i + 1);
    FloorDecreases(image, 0, i);
    if i < row {
      FloorDecreases(image, i + 1, row);
    } else {
      FloorDecreases(image, row + 1, i);
    }
  }

  /** The file after writing `b` at byte `k` of a row. */
  function RowEdited(data: seq<byte>, spot: Locator, k: nat, b: byte): (r: seq<byte>)
    requires LocatorRow(data, spot).Accepted? && RowOffset(data, spot, k) < |data|
    ensures |r| == |data|
  {
    data[RowOffset(data, spot, k) := b]
  }

  lemma PageEdited(data: seq<byte>, page: nat, byteAt: nat, b: byte, q: nat)
    requires PageOf(data, page).Accepted? && byteAt < PAGE
    ensures page * PAGE + byteAt < |data|
    ensures PageOf(data[page * PAGE + byteAt := b], q)
            == if q == page then Accepted(PageOf(data, page).value[byteAt := b]) else PageOf(data, q)
  {
    var after := data[page * PAGE + byteAt := b];
    if PageOf(data, q).Accepted? && q != page {
      assert after[q * PAGE..(q + 1) * PAGE] == data[q * PAGE..(q + 1) * PAGE];
    }
  }

  /** A row edit changes one byte of its own row, no other row of any page, and no page that is not a map page. */
  lemma RowEditEffect(data: seq<byte>, spot: Locator, k: nat, b: byte)
    requires LocatorRow(data, spot).Accepted? && k < |LocatorRow(data, spot).value|
    ensures RowOffset(data, spot, k) < |data|
    ensures LocatorRow(RowEdited(data, spot, k, b), spot) == Accepted(LocatorRow(data, spot).value[k := b])
    ensures forall w: Locator :: w != spot ==> LocatorRow(RowEdited(data, spot, k, b), w) == LocatorRow(data, w)
    ensures forall q: nat :: PageOf(data, q).Accepted? && PageOf(data, q).value[0] != 1 ==>
              PageOf(RowEdited(data, spot, k, b), q) == PageOf(data, q)
    ensures forall w: Locator, j: nat :: LocatorRow(data, w).Accepted? ==>
              LocatorRow(RowEdited(data, spot, k, b), w).Accepted?
              && RowOffset(RowEdited(data, spot, k, b), w, j) == RowOffset(data, w, j)
  {
    hide PageOf, Floor, RowAt, SlotAccepted;
    var image := PageOf(data, spot.page).value;
    RowByteEdit(image, spot.row, k, b);
    var byteAt := Floor(image, spot.row + 1) + k;
    PageEdited(data, spot.page, byteAt, b, 0);
    forall q: nat ensures PageOf(RowEdited(data, spot, k, b), q)
                          == if q == spot.page then Accepted(image[byteAt := b]) else PageOf(data, q)
    {
      PageEdited(data, spot.page, byteAt, b, q);
    }
  }

  // ----- Editing one bit of an inline map -----

  /** The map row is inline, represents `page`, and its bit is not yet `on`. */
  predicate FlipAdmitted(data: seq<byte>, spot: Locator, page: nat, on: bool) {
    var row := LocatorRow(data, spot);
    row.Accepted? &&
    var raw := row.value;
    && |raw| >= 5 && raw[0] == 0
    && 0 <= page - U32(raw, 1) < 8 * (|raw| - 5)
    && Bit(raw[5 + (page - U32(raw, 1)) / 8], (page - U32(raw, 1)) % 8) != on
  }

  /** The bit of `page` within its map. */
  function Relative(data: seq<byte>, spot: Locator, page: nat): (n: nat)
    requires LocatorRow(data, spot).Accepted? && |LocatorRow(data, spot).value| >= 5
    requires page >= U32(LocatorRow(data, spot).value, 1)
  {
    page - U32(LocatorRow(data, spot).value, 1)
  }

  /** The file offset and bit that the source edits. */
  function FlipOffset(data: seq<byte>, spot: Locator, page: nat): (n: nat)
    requires LocatorRow(data, spot).Accepted? && |LocatorRow(data, spot).value| >= 5
    requires page >= U32(LocatorRow(data, spot).value, 1)
  {
    RowOffset(data, spot, 5 + Relative(data, spot, page) / 8)
  }

  function FlipByte(data: seq<byte>, offset: nat, bit: nat, on: bool): (r: seq<byte>)
    requires offset < |data| && bit < 8
    ensures |r| == |data|
  {
    data[offset := PutByteBit(data[offset], bit, on)]
  }

  /** The file with the bit of `page` changed in one map. */
  function Flipped(data: seq<byte>, spot: Locator, page: nat, on: bool): (r: seq<byte>)
    requires FlipAdmitted(data, spot, page, on)
  {
    var raw := LocatorRow(data, spot).value;
    var k := 5 + Relative(data, spot, page) / 8;
    RowEditEffect(data, spot, k, raw[k]);
    RowEdited(data, spot, k, PutByteBit(raw[k], Relative(data, spot, page) % 8, on))
  }

  lemma RowByteAt(data: seq<byte>, spot: Locator, k: nat)
    requires LocatorRow(data, spot).Accepted? && k < |LocatorRow(data, spot).value|
    ensures RowOffset(data, spot, k) < |data| && data[RowOffset(data, spot, k)] == LocatorRow(data, spot).value[k]
  {
    hide Floor, SlotAccepted;
    var image := PageOf(data, spot.page).value;
    FloorDecreases(image, spot.row, spot.row + 1);
    FloorDecreases(image, 0, spot.row);
  }

  /** The edit of the source at its file offset is the edit of the map. */
  lemma FlipIsByteEdit(data: seq<byte>, spot: Locator, page: nat, on: bool)
    requires FlipAdmitted(data, spot, page, on)
    ensures FlipOffset(data, spot, page) < |data|
    ensures FlipByte(data, FlipOffset(data, spot, page), Relative(data, spot, page) % 8, on)
            == Flipped(data, spot, page, on)
  {
    hide LocatorRow, RowOffset, PutByteBit;
    RowByteAt(data, spot, 5 + Relative(data, spot, page) / 8);
  }

  lemma HasBitAfter(bitmap: seq<byte>, base: nat, page: nat, on: bool, p: nat)
    requires base <= page < base + 8 * |bitmap|
    ensures var k := (page - base) / 8;
            HasBit(bitmap[k := PutByteBit(bitmap[k], (page - base) % 8, on)], base, p)
            <==> if p == page then on else HasBit(bitmap, base, p)
  {
    hide Bit;
    var k := (page - base) / 8;
    if base <= p < base + 8 * |bitmap| && (p - base) / 8 == k && p != page {
      assert (p - base) % 8 != (page - base) % 8;
    }
  }

  lemma MembersAfter(bitmap: seq<byte>, base: nat, page: nat, on: bool)
    requires base <= page < base + 8 * |bitmap|
    ensures var k := (page - base) / 8;
            BitMembers(bitmap[k := PutByteBit(bitmap[k], (page - base) % 8, on)], base)
            == if on then BitMembers(bitmap, base) + {page} else BitMembers(bitmap, base) - {page}
  {
    hide HasBit, BitMembers, PutByteBit;
    var k := (page - base) / 8;
    var after := bitmap[k := PutByteBit(bitmap[k], (page - base) % 8, on)];
    var members, now := BitMembers(bitmap, base), BitMembers(after, base);
    forall p: nat ensures p in now <==> if p == page then on else p in members {
      HasBitAfter(bitmap, base, page, on, p);
      MemberHasBit(bitmap, base, p);
      MemberHasBit(after, base, p);
    }
    if on {
      assert now == members + {page};
    } else {
      assert now == members - {page};
    }
  }

  lemma MemberHasBit(bitmap: seq<byte>, base: nat, p: nat)
    ensures p in BitMembers(bitmap, base) <==> HasBit(bitmap, base, p)
  {
  }

  function WithMember(m: Map, page: nat, on: bool): (r: Map) {
    m.(members := if on then m.members + {page} else m.members - {page})
  }

  /** The edited map gains or loses exactly the one page. */
  lemma FlippedMap(data: seq<byte>, spot: Locator, page: nat, on: bool)
    requires FlipAdmitted(data, spot, page, on)
    ensures ReadMap(data, spot).Accepted? && ReadMap(data, spot).value.references == []
    ensures ReadMap(Flipped(data, spot, page, on), spot) == Accepted(WithMember(ReadMap(data, spot).value, page, on))
    ensures (page in ReadMap(data, spot).value.members) != on
  {
    hide LocatorRow, Bit, RowEdited, BitMembers;
    var raw := LocatorRow(data, spot).value;
    var rel := Relative(data, spot, page);
    var k := 5 + rel / 8;
    RowEditEffect(data, spot, k, PutByteBit(raw[k], rel % 8, on));
    var after := raw[k := PutByteBit(raw[k], rel % 8, on)];
    assert after[5..] == raw[5..][rel / 8 := PutByteBit(raw[5..][rel / 8], rel % 8, on)];
    MembersAfter(raw[5..], U32(raw, 1), page, on);
    MemberIsBit(raw[5..], U32(raw, 1), page);
  }

  lemma MemberIsBit(bitmap: seq<byte>, base: nat, page: nat)
    requires base <= page < base + 8 * |bitmap|
    ensures page in BitMembers(bitmap, base) <==> Bit(bitmap[(page - base) / 8], (page - base) % 8)
  {
  }

  /** Bitmap pages have a tag of their own, so indirect members only change with their row or these pages. */
  lemma {:induction false} IndirectKept(data: seq<byte>, after: seq<byte>, spot: Locator, references: seq<nat>)
    requires IndirectMembers(data, spot, references).Accepted?
    requires forall q: nat :: PageOf(data, q).Accepted? && PageOf(data, q).value[0] == 5 ==>
               PageOf(after, q) == PageOf(data, q)
    ensures IndirectMembers(after, spot, references) == IndirectMembers(data, spot, references)
  {
    hide PageOf, BitMembers;
    if references != [] {
      var n := |references| - 1;
      IndirectKept(data, after, spot, references[..n]);
      if references[n] != 0 {
        var image := PageOf(data, references[n]).value;
        assert image[0] == image[..4][0];
      }
    }
  }

  lemma MapKept(data: seq<byte>, after: seq<byte>, w: Locator)
    requires ReadMap(data, w).Accepted? && LocatorRow(after, w) == LocatorRow(data, w)
    requires forall q: nat :: PageOf(data, q).Accepted? && PageOf(data, q).value[0] == 5 ==>
               PageOf(after, q) == PageOf(data, q)
    ensures ReadMap(after, w) == ReadMap(data, w)
  {
    hide PageOf, LocatorRow, IndirectMembers, BitMembers;
    var raw := LocatorRow(data, w).value;
    if raw[0] != 0 {
      IndirectKept(data, after, w, References(raw));
    }
  }

  /** Every other map is untouched. */
  lemma OtherMapsKept(data: seq<byte>, spot: Locator, page: nat, on: bool, w: Locator)
    requires FlipAdmitted(data, spot, page, on) && w != spot && ReadMap(data, w).Accepted?
    ensures ReadMap(Flipped(data, spot, page, on), w) == ReadMap(data, w)
  {
    hide PageOf, LocatorRow, RowEdited, ReadMap;
    var raw := LocatorRow(data, spot).value;
    var k := 5 + Relative(data, spot, page) / 8;
    RowEditEffect(data, spot, k, PutByteBit(raw[k], Relative(data, spot, page) % 8, on));
    MapKept(data, Flipped(data, spot, page, on), w);
  }

  /** An edit elsewhere neither moves nor changes what a second edit sees. */
  lemma FlipsCommute(data: seq<byte>, spot: Locator, page: nat, on: bool, w: Locator, turn: bool)
    requires FlipAdmitted(data, spot, page, on) && w != spot && FlipAdmitted(data, w, page, turn)
    ensures FlipAdmitted(Flipped(data, spot, page, on), w, page, turn)
    ensures Relative(Flipped(data, spot, page, on), w, page) == Relative(data, w, page)
    ensures FlipOffset(Flipped(data, spot, page, on), w, page) == FlipOffset(data, w, page)
  {
    hide PageOf, LocatorRow, RowEdited, RowOffset, Bit;
    var raw := LocatorRow(data, spot).value;
    var k := 5 + Relative(data, spot, page) / 8;
    RowEditEffect(data, spot, k, PutByteBit(raw[k], Relative(data, spot, page) % 8, on));
  }

  lemma {:induction false} PagesAppended(data: seq<byte>, extra: seq<byte>, q: nat)
    requires PageOf(data, q).Accepted?
    ensures PageOf(data + extra, q) == PageOf(data, q)
  {
    assert (data + extra)[q * PAGE..(q + 1) * PAGE] == data[q * PAGE..(q + 1) * PAGE];
  }

  /** Growing the file leaves every map readable and unchanged. */
  lemma MapAppended(data: seq<byte>, extra: seq<byte>, w: Locator)
    requires ReadMap(data, w).Accepted?
    ensures ReadMap(data + extra, w) == ReadMap(data, w)
  {
    hide PageOf, ReadMap, RowOf;
    forall q: nat | PageOf(data, q).Accepted? ensures PageOf(data + extra, q) == PageOf(data, q) {
      PagesAppended(data, extra, q);
    }
    MapHasPage(data, w);
    MapKept(data, data + extra, w);
  }

  lemma MapHasPage(data: seq<byte>, w: Locator)
    requires ReadMap(data, w).Accepted?
    ensures PageOf(data, w.page).Accepted?
  {
  }

  // ----- Appending one data page -----

  const GLOBAL := Locator(1, 0)

  predicate AppendAdmitted(before: seq<byte>, owned: Locator, available: Locator) {
    && FlipAdmitted(before, GLOBAL, PageCount(before), false)
    && FlipAdmitted(before, owned, PageCount(before), true)
    && FlipAdmitted(before, available, PageCount(before), true)
  }

  /** The three bit edits, at offsets read from the original file, then the new page. */
  function Appended(before: seq<byte>, owned: Locator, available: Locator, encoded: seq<byte>, root: nat)
    : (r: seq<byte>)
    requires AppendAdmitted(before, owned, available) && |encoded| <= 2036 && root < 0x1_0000_0000
    ensures |r| == |before| + PAGE && r[|before|..] == NewPage(encoded, root)
  {
    var page := PageCount(before);
    FlipIsByteEdit(before, GLOBAL, page, false);
    FlipIsByteEdit(before, owned, page, true);
    FlipIsByteEdit(before, available, page, true);
    var first := FlipByte(before, FlipOffset(before, GLOBAL, page), Relative(before, GLOBAL, page) % 8, false);
    var second := FlipByte(first, FlipOffset(before, owned, page), Relative(before, owned, page) % 8, true);
    FlipByte(second, FlipOffset(before, available, page), Relative(before, available, page) % 8, true)
    + NewPage(encoded, root)
  }

  /** The source's loop over the three roles: offsets and bits from the original, edits on the copy. */
  method AppendDataPage(before: seq<byte>, owned: Locator, available: Locator, encoded: seq<byte>, root: nat)
    returns (r: Result<seq<byte>>)
    requires encoded != []
    ensures r.Accepted? <==> AppendAdmitted(before, owned, available) && |encoded| <= 2036 && root < 0x1_0000_0000
    ensures r.Accepted? ==> r.value == Appended(before, owned, available, encoded, root)
  {
    hide LocatorRow, FlipByte, NewPage, Relative, FlipOffset, FlipAdmitted;
    var page := PageCount(before);
    var roles := [(GLOBAL, false), (owned, true), (available, true)];
    var expected := before;
    for i := 0 to 3
      invariant forall k :: 0 <= k < i ==> FlipAdmitted(before, roles[k].0, page, roles[k].1)
      invariant expected == EditsAt(before, roles[..i], page)
    {
      var (spot, on) := roles[i];
      if !FlipAdmitted(before, spot, page, on) {
        assert !FlipAdmitted(before, roles[i].0, page, roles[i].1);
        return Rejected;
      }
      assert roles[..i + 1] == roles[..i] + [roles[i]];
      expected := EditAt(expected, before, spot, page, on);
    }
    assert FlipAdmitted(before, roles[0].0, page, roles[0].1) && FlipAdmitted(before, roles[1].0, page, roles[1].1)
        && FlipAdmitted(before, roles[2].0, page, roles[2].1);
    if |encoded| > 2036 || root >= 0x1_0000_0000 {
      return Rejected;
    }
    assert roles[..3][..2] == roles[..2] && roles[..2][..1] == roles[..1] && roles[..1][..0] == roles[..0];
    return Accepted(expected + NewPage(encoded, root));
  }

  /** The edits of a list of roles, each placed by the original file. */
  ghost function EditsAt(original: seq<byte>, roles: seq<(Locator, bool)>, page: nat): (r: seq<byte>)
    requires forall k :: 0 <= k < |roles| ==> FlipAdmitted(original, roles[k].0, page, roles[k].1)
    ensures |r| == |original|
  {
    if roles == [] then original
    else
      var n := |roles| - 1;
      EditAt(EditsAt(original, roles[..n], page), original, roles[n].0, page, roles[n].1)
  }

  /** One edit of the copy at the place found in the original. */
  function EditAt(copy: seq<byte>, original: seq<byte>, spot: Locator, page: nat, on: bool): (r: seq<byte>)
    requires FlipAdmitted(original, spot, page, on) && |copy| == |original|
    ensures |r| == |copy|
  {
    FlipIsByteEdit(original, spot, page, on);
    FlipByte(copy, FlipOffset(original, spot, page), Relative(original, spot, page) % 8, on)
  }

  ghost predicate DistinctSpots(owned: Locator, available: Locator) {
    GLOBAL != owned && GLOBAL != available && owned != available
  }

  /** For three different maps the edits are three independent map edits. */
  lemma AppendedIsFlips(before: seq<byte>, owned: Locator, available: Locator, encoded: seq<byte>, root: nat)
    requires AppendAdmitted(before, owned, available) && DistinctSpots(owned, available)
    requires |encoded| <= 2036 && root < 0x1_0000_0000
    ensures var page := PageCount(before);
            var first := Flipped(before, GLOBAL, page, false);
            && FlipAdmitted(first, owned, page, true)
            && var second := Flipped(first, owned, page, true);
               && FlipAdmitted(second, available, page, true)
               && Appended(before, owned, available, encoded, root)
                  == Flipped(second, available, page, true) + NewPage(encoded, root)
  {
    hide LocatorRow, RowOffset, FlipByte, Flipped, NewPage, Relative, FlipOffset, FlipAdmitted;
    var page := PageCount(before);
    FlipsCommute(before, GLOBAL, page, false, owned, true);
    FlipsCommute(before, GLOBAL, page, false, available, true);
    var first := Flipped(before, GLOBAL, page, false);
    FlipsCommute(first, owned, page, true, available, true);
    var second := Flipped(first, owned, page, true);
    FlipIsByteEdit(before, GLOBAL, page, false);
    FlipIsByteEdit(first, owned, page, true);
    FlipIsByteEdit(second, available, page, true);
  }

  /** What the append does to each map. */
  lemma AppendedMap(before: seq<byte>, owned: Locator, available: Locator, encoded: seq<byte>, root: nat, w: Locator)
    requires AppendAdmitted(before, owned, available) && DistinctSpots(owned, available)
    requires |encoded| <= 2036 && root < 0x1_0000_0000 && ReadMap(before, w).Accepted?
    ensures var m := ReadMap(before, w).value;
            ReadMap(Appended(before, owned, available, encoded, root), w)
            == Accepted(if w == GLOBAL then WithMember(m, PageCount(before), false)
                        else if w == owned || w == available then WithMember(m, PageCount(before), true)
                        else m)
  {
    hide ReadMap, Flipped, FlipAdmitted, NewPage, Appended, WithMember;
    var page := PageCount(before);
    AppendedIsFlips(before, owned, available, encoded, root);
    var first := Flipped(before, GLOBAL, page, false);
    var second := Flipped(first, owned, page, true);
    if w == GLOBAL {
      FlippedMap(before, GLOBAL, page, false);
    } else {
      OtherMapsKept(before, GLOBAL, page, false, w);
    }
    if w == owned {
      FlippedMap(first, owned, page, true);
    } else {
      OtherMapsKept(first, owned, page, true, w);
    }
    if w == available {
      FlippedMap(second, available, page, true);
    } else {
      OtherMapsKept(second, available, page, true, w);
    }
    MapAppended(Flipped(second, available, page, true), NewPage(encoded, root), w);
  }

  // ----- Page classification -----

  /** One owning role: a table, an index or a long-value column. Indexes have no availability map. */
  datatype Role = Role(owned: Locator, available: Result<Locator>)

  datatype Catalog = Catalog(definitions: set<nat>, roles: seq<Role>)

  ghost predicate IsLocator(c: Catalog, w: Locator) {
    w == GLOBAL || exists k :: 0 <= k < |c.roles| && (w == c.roles[k].owned || c.roles[k].available == Accepted(w))
  }

  /** Every map is named once. */
  ghost predicate LocatorsDistinct(c: Catalog) {
    && (forall k :: 0 <= k < |c.roles| ==> c.roles[k].owned != GLOBAL && c.roles[k].available != Accepted(GLOBAL))
    && (forall k :: 0 <= k < |c.roles| ==> c.roles[k].available != Accepted(c.roles[k].owned))
    && (forall j, k :: 0 <= j < k < |c.roles| ==>
          && c.roles[j].owned != c.roles[k].owned
          && c.roles[j].available != Accepted(c.roles[k].owned)
          && c.roles[k].available != Accepted(c.roles[j].owned)
          && (c.roles[j].available.Accepted? ==> c.roles[j].available != c.roles[k].available))
  }

  /** The pages a map claims inside the file. */
  function MapPages(data: seq<byte>, w: Locator): (r: set<nat>) {
    var m := ReadMap(data, w);
    if m.Accepted? then Inside(m.value, PageCount(data)) else {}
  }

  function MapReferences(data: seq<byte>, w: Locator): (r: seq<nat>) {
    var m := ReadMap(data, w);
    if m.Accepted? then m.value.references else []
  }

  ghost predicate Owns(data: seq<byte>, c: Catalog, k: nat, page: nat) {
    k < |c.roles| && page in MapPages(data, c.roles[k].owned)
  }

  /** Definition pages, map pages and bitmap pages. */
  ghost predicate IsMetadata(data: seq<byte>, c: Catalog, page: nat) {
    || page == 0 || page == 1 || page in c.definitions
    || (exists w: Locator :: IsLocator(c, w) && (w.page == page || (page != 0 && page in MapReferences(data, w))))
  }

  /** Every map is readable, global and role maps obey their end-of-file laws, and availability is a subset. */
  ghost predicate MapsAccepted(data: seq<byte>, c: Catalog) {
    && (forall w: Locator :: IsLocator(c, w) ==> ReadMap(data, w).Accepted?)
    && GlobalAccepted(ReadMap(data, GLOBAL).value, PageCount(data))
    && (forall w: Locator :: IsLocator(c, w) && w != GLOBAL ==> RoleAccepted(ReadMap(data, w).value, PageCount(data)))
    && (forall k :: 0 <= k < |c.roles| && c.roles[k].available.Accepted? ==>
          MapPages(data, c.roles[k].available.value) <= MapPages(data, c.roles[k].owned))
  }

  /** No bitmap page serves two slots. */
  ghost predicate ReferencesDistinct(data: seq<byte>, c: Catalog) {
    forall v: Locator, w: Locator, p: nat ::
      IsLocator(c, v) && IsLocator(c, w) && v != w && p != 0 && p in MapReferences(data, v) ==>
        p !in MapReferences(data, w)
  }

  /** Every page of the file is free, metadata or owned by one role, and only one of these. */
  ghost predicate Partitioned(data: seq<byte>, c: Catalog) {
    && (forall page: nat :: page < PageCount(data) ==>
          page in MapPages(data, GLOBAL) || IsMetadata(data, c, page) || exists k: nat :: Owns(data, c, k, page))
    && (forall page: nat :: IsMetadata(data, c, page) ==> page < PageCount(data) && page !in MapPages(data, GLOBAL))
    && (forall page: nat, k: nat :: Owns(data, c, k, page) ==>
          page !in MapPages(data, GLOBAL) && !IsMetadata(data, c, page))
    && (forall page: nat, j: nat, k: nat :: Owns(data, c, j, page) && Owns(data, c, k, page) ==> j == k)
  }

  ghost predicate ValidAllocation(data: seq<byte>, c: Catalog) {
    |data| % PAGE == 0 && LocatorsDistinct(c) && MapsAccepted(data, c) && ReferencesDistinct(data, c)
    && Partitioned(data, c)
  }

  /** One map before and after the append, seen through the larger file. */
  ghost predicate MapGrew(before: seq<byte>, after: seq<byte>, w: Locator, gains: bool) {
    && MapReferences(after, w) == MapReferences(before, w)
    && MapPages(after, w) == if gains then MapPages(before, w) + {PageCount(before)} else MapPages(before, w)
  }

  lemma GlobalGrows(m: Map, page: nat)
    requires GlobalAccepted(m, page) && page in m.members
    ensures GlobalAccepted(WithMember(m, page, false), page + 1)
    ensures Inside(WithMember(m, page, false), page + 1) == Inside(m, page)
  {
    var after := WithMember(m, page, false);
    var limit := m.start + m.extent;
    assert Beyond(after, page + 1) == Beyond(m, page) - {page};
    assert Range(page + 1, limit) == Range(page, limit) - {page};
  }

  lemma RoleGrows(m: Map, page: nat)
    requires RoleAccepted(m, page)
    ensures RoleAccepted(m, page + 1) && RoleAccepted(WithMember(m, page, true), page + 1)
    ensures Inside(m, page + 1) == Inside(m, page)
    ensures Inside(WithMember(m, page, true), page + 1) == Inside(m, page) + {page}
  {
    forall p | p in m.members ensures p < page {
      assert p >= page ==> p in Beyond(m, page);
    }
  }

  lemma PagesAfterAppend(before: seq<byte>, owned: Locator, available: Locator, encoded: seq<byte>, root: nat)
    requires |before| % PAGE == 0 && AppendAdmitted(before, owned, available)
    requires |encoded| <= 2036 && root < 0x1_0000_0000
    ensures var after := Appended(before, owned, available, encoded, root);
            && |after| % PAGE == 0 && PageCount(after) == PageCount(before) + 1
            && PageOf(after, PageCount(before)) == Accepted(NewPage(encoded, root))
  {
    hide LocatorRow, RowOffset, NewPage, Relative, FlipOffset, FlipAdmitted, Appended;
    var after := Appended(before, owned, available, encoded, root);
    assert |after| == |before| + PAGE;
    assert after[|before|..] == NewPage(encoded, root);
    var n := PageCount(before);
    assert |before| == n * PAGE && |after| == (n + 1) * PAGE;
    assert after[n * PAGE..(n + 1) * PAGE] == after[|before|..];
  }

  /** The change to every map of the catalog. */
  lemma CatalogMapGrew(before: seq<byte>, c: Catalog, k: nat, encoded: seq<byte>, root: nat, w: Locator)
    requires ValidAllocation(before, c) && k < |c.roles| && c.roles[k].available.Accepted?
    requires AppendAdmitted(before, c.roles[k].owned, c.roles[k].available.value)
    requires |encoded| <= 2036 && root < 0x1_0000_0000 && IsLocator(c, w)
    ensures var after := Appended(before, c.roles[k].owned, c.roles[k].available.value, encoded, root);
            && ReadMap(after, w).Accepted?
            && (if w == GLOBAL then GlobalAccepted(ReadMap(after, w).value, PageCount(after))
                else RoleAccepted(ReadMap(after, w).value, PageCount(after)))
            && MapGrew(before, after, w, w == c.roles[k].owned || c.roles[k].available == Accepted(w))
  {
    hide ReadMap, Appended, AppendAdmitted, GlobalAccepted, RoleAccepted, WithMember, Inside, PageCount, Partitioned,
         ReferencesDistinct;
    var owned, available := c.roles[k].owned, c.roles[k].available.value;
    var m, page := ReadMap(before, w).value, PageCount(before);
    assert DistinctSpots(owned, available);
    AppendedMap(before, owned, available, encoded, root, w);
    PagesAfterAppend(before, owned, available, encoded, root);
    SameReferences(m, page);
    if w == GLOBAL {
      GlobalHasPage(before, owned, available);
      GlobalGrows(m, page);
    } else {
      RoleGrows(m, page);
    }
  }

  lemma SameReferences(m: Map, page: nat)
    ensures WithMember(m, page, true).references == WithMember(m, page, false).references == m.references
  {
  }

  lemma GlobalHasPage(before: seq<byte>, owned: Locator, available: Locator)
    requires AppendAdmitted(before, owned, available)
    ensures ReadMap(before, GLOBAL).Accepted? && PageCount(before) in ReadMap(before, GLOBAL).value.members
  {
    hide ReadMap, FlipAdmitted;
    FlippedMap(before, GLOBAL, PageCount(before), false);
  }

  /**
   * Appending a data page keeps the allocation valid: the new page joins exactly the owned and available
   * maps of its table, no other page changes hands, and the tail beyond the new end of file is still free.
   */
  lemma AppendKeepsAllocation(before: seq<byte>, c: Catalog, k: nat, encoded: seq<byte>, root: nat)
    requires ValidAllocation(before, c) && k < |c.roles| && c.roles[k].available.Accepted?
    requires AppendAdmitted(before, c.roles[k].owned, c.roles[k].available.value)
    requires |encoded| <= 2036 && root < 0x1_0000_0000
    ensures var after := Appended(before, c.roles[k].owned, c.roles[k].available.value, encoded, root);
            && ValidAllocation(after, c)
            && PageCount(after) == PageCount(before) + 1
            && (forall w: Locator :: IsLocator(c, w) ==>
                  MapGrew(before, after, w, w == c.roles[k].owned || c.roles[k].available == Accepted(w)))
  {
    hide ReadMap, Appended, AppendAdmitted, GlobalAccepted, RoleAccepted, MapPages, MapReferences, PageCount;
    var after := Appended(before, c.roles[k].owned, c.roles[k].available.value, encoded, root);
    PagesAfterAppend(before, c.roles[k].owned, c.roles[k].available.value, encoded, root);
    forall w: Locator | IsLocator(c, w)
      ensures ReadMap(after, w).Accepted?
      ensures if w == GLOBAL then GlobalAccepted(ReadMap(after, w).value, PageCount(after))
              else RoleAccepted(ReadMap(after, w).value, PageCount(after))
      ensures MapGrew(before, after, w, w == c.roles[k].owned || c.roles[k].available == Accepted(w))
    {
      CatalogMapGrew(before, c, k, encoded, root, w);
    }
    GrownMapsAccepted(before, after, c, k);
    GrownReferences(before, after, c, k);
    GrownPartition(before, after, c, k);
  }

  /** The catalog's maps changed as an append changes them. */
  ghost predicate Grew(before: seq<byte>, after: seq<byte>, c: Catalog, k: nat) {
    && k < |c.roles| && c.roles[k].available.Accepted? && LocatorsDistinct(c)
       && PageCount(after) == PageCount(before) + 1
    && (forall w: Locator :: IsLocator(c, w) ==>
          && ReadMap(after, w).Accepted?
          && (if w == GLOBAL then GlobalAccepted(ReadMap(after, w).value, PageCount(after))
              else RoleAccepted(ReadMap(after, w).value, PageCount(after)))
          && MapGrew(before, after, w, w == c.roles[k].owned || c.roles[k].available == Accepted(w)))
  }

  lemma GrownMapsAccepted(before: seq<byte>, after: seq<byte>, c: Catalog, k: nat)
    requires Grew(before, after, c, k) && MapsAccepted(before, c)
    ensures MapsAccepted(after, c)
  {
    hide ReadMap, GlobalAccepted, RoleAccepted, MapPages, MapReferences, PageCount;
    assert IsLocator(c, GLOBAL);
    forall j | 0 <= j < |c.roles| && c.roles[j].available.Accepted?
      ensures MapPages(after, c.roles[j].available.value) <= MapPages(after, c.roles[j].owned)
    {
      assert IsLocator(c, c.roles[j].available.value) && IsLocator(c, c.roles[j].owned);
    }
  }

  lemma GrownReferences(before: seq<byte>, after: seq<byte>, c: Catalog, k: nat)
    requires Grew(before, after, c, k) && ReferencesDistinct(before, c)
    ensures ReferencesDistinct(after, c)
    ensures forall page: nat :: IsMetadata(after, c, page) <==> IsMetadata(before, c, page)
  {
    hide ReadMap, GlobalAccepted, RoleAccepted, MapPages, MapReferences, PageCount;
  }

  lemma GrownOwner(before: seq<byte>, after: seq<byte>, c: Catalog, k: nat, j: nat, page: nat)
    requires Grew(before, after, c, k)
    ensures Owns(after, c, j, page) <==> Owns(before, c, j, page) || (j == k && page == PageCount(before))
  {
    hide ReadMap, GlobalAccepted, RoleAccepted, MapPages, MapReferences, PageCount;
    if j < |c.roles| {
      assert IsLocator(c, c.roles[j].owned);
    }
  }

  lemma OldPagesInside(data: seq<byte>, w: Locator, page: nat)
    requires page in MapPages(data, w)
    ensures page < PageCount(data)
  {
  }

  lemma GrownPartition(before: seq<byte>, after: seq<byte>, c: Catalog, k: nat)
    requires Grew(before, after, c, k) && ReferencesDistinct(before, c) && Partitioned(before, c)
    ensures Partitioned(after, c)
  {
    hide ReadMap, GlobalAccepted, RoleAccepted, MapPages, MapReferences, PageCount, IsMetadata, Owns;
    GrownReferences(before, after, c, k);
    assert IsLocator(c, GLOBAL);
    assert MapPages(after, GLOBAL) == MapPages(before, GLOBAL);
    var n := PageCount(before);
    forall page: nat, j: nat
      ensures Owns(after, c, j, page) <==> Owns(before, c, j, page) || (j == k && page == n)
      ensures Owns(before, c, j, page) ==> page < n
    {
      GrownOwner(before, after, c, k, j, page);
      OwnedInside(before, c, j, page);
    }
    forall page: nat | page in MapPages(before, GLOBAL) ensures page < n {
      OldPagesInside(before, GLOBAL, page);
    }
    forall page: nat | page < PageCount(after)
      ensures page in MapPages(after, GLOBAL) || IsMetadata(after, c, page) || exists j: nat :: Owns(after, c, j, page)
    {
      if page == n {
        assert Owns(after, c, k, page);
      } else if j: nat :| Owns(before, c, j, page) {
        assert Owns(after, c, j, page);
      }
    }
  }

  lemma OwnedInside(data: seq<byte>, c: Catalog, j: nat, page: nat)
    ensures Owns(data, c, j, page) ==> page < PageCount(data)
  {
    hide ReadMap, Inside;
    if Owns(data, c, j, page) {
      OldPagesInside(data, c.roles[j].owned, page);
    }
  }
}
