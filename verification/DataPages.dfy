/**
 * Slotted data pages: the directory decoder (`directory` in oracle/windows-dao/structure.py) and the
 * in-place row insertion and deletion of the page patchers (oracle/windows-dao/registry/indexed_rows.py
 * and indexed_boundary.py).
 *
 * A page is 2048 bytes: free count at 2, owner at 4, slot count at 8, one little-endian word per slot
 * from 10 on and row bytes packed downward from the end. Masks are written as division and remainder:
 * `w & 0x1fff` is `w % 0x2000`, and an `|` of disjoint fields is a sum.
 */
module DataPages {
  import opened Bytes

  const PAGE := 2048

  type Image = s: seq<byte> | |s| == PAGE witness seq(PAGE, i => 0)

  /** Page `number` of a file image, rejected outside the image. */
  function PageOf(data: seq<byte>, number: int): (r: Result<Image>) {
    if 0 <= number && (number + 1) * PAGE <= |data| then Accepted(data[number * PAGE..(number + 1) * PAGE])
    else Rejected
  }

  /** A row locator. */
  datatype Locator = Locator(page: nat, row: nat)

  function PageCount(data: seq<byte>): (n: nat) {
    |data| / PAGE
  }

  datatype Slot = Slot(start: nat, end: nat, hidden: bool, overflow: bool)

  function Count(image: Image): (n: nat) {
    U16(image, 8)
  }

  function WordAt(image: Image, i: nat): (w: nat)
    requires 12 + 2 * i <= PAGE
    ensures w < 0x1_0000
  {
    U16(image, 10 + 2 * i)
  }

  // ----- The directory -----

  /** Where the rows of the first `n` slots end: the start of the last one that has a start. */
  function Floor(image: Image, n: nat): (r: nat)
    requires 10 + 2 * n <= PAGE
  {
    if n == 0 then PAGE
    else if WordAt(image, n - 1) == 0xc000 then Floor(image, n - 1)
    else WordAt(image, n - 1) % 0x2000
  }

  /** Slot `i` is a bare tombstone or an unreserved word whose row lies between the directory and its predecessor. */
  predicate SlotAccepted(image: Image, count: nat, i: nat)
    requires 10 + 2 * count <= PAGE && i < count
  {
    var word := WordAt(image, i);
    || word == 0xc000
    || ((word / 0x2000) % 2 == 0 && 10 + 2 * count <= word % 0x2000 <= Floor(image, i))
  }

  function SlotAt(image: Image, i: nat): (s: Slot)
    requires 12 + 2 * i <= PAGE
  {
    var word := WordAt(image, i);
    Slot(Floor(image, i + 1), Floor(image, i), word / 0x8000 == 1, (word / 0x4000) % 2 == 1)
  }

  predicate DirectoryAccepted(image: Image) {
    10 + 2 * Count(image) <= PAGE && forall i: nat :: i < Count(image) ==> SlotAccepted(image, Count(image), i)
  }

  function Directory(image: Image): (r: Result<seq<Slot>>) {
    if DirectoryAccepted(image) then Accepted(seq(Count(image), i requires 0 <= i < Count(image) => SlotAt(image, i)))
    else Rejected
  }

  /** `directory`: one pass that carries the previous start. */
  method ReadDirectory(image: Image) returns (r: Result<seq<Slot>>)
    ensures r == Directory(image)
  {
    var count := Count(image);
    if 10 + 2 * count > PAGE {
      return Rejected;
    }
    var rows: seq<Slot>, previous := [], PAGE;
    for ordinal := 0 to count
      invariant previous == Floor(image, ordinal)
      invariant |rows| == ordinal && forall i :: 0 <= i < ordinal ==> rows[i] == SlotAt(image, i)
      invariant forall i: nat :: i < ordinal ==> SlotAccepted(image, count, i)
    {
      var word := WordAt(image, ordinal);
      if word == 0xc000 {
        rows := rows + [Slot(previous, previous, true, true)];
      } else {
        var start := word % 0x2000;
        if (word / 0x2000) % 2 == 1 || !(10 + 2 * count <= start <= previous) {
          assert !SlotAccepted(image, count, ordinal);
          return Rejected;
        }
        rows := rows + [Slot(start, previous, word / 0x8000 == 1, (word / 0x4000) % 2 == 1)];
        previous := start;
      }
    }
    assert rows == Directory(image).value;
    return Accepted(rows);
  }

  /** The second byte of a directory word carries its top bits. */
  lemma WordBytes(image: Image, i: nat)
    requires 12 + 2 * i <= PAGE
    ensures WordAt(image, i) / 0x8000 == 1 <==> image[11 + 2 * i] >= 128
    ensures WordAt(image, i) / 0x4000 % 2 == 1 <==> image[11 + 2 * i] as int / 64 % 2 == 1
    ensures WordAt(image, i) % 0x2000 == image[10 + 2 * i] as int + 256 * (image[11 + 2 * i] as int % 32)
    ensures WordAt(image, i) == 0xc000 <==> image[10 + 2 * i] == 0 && image[11 + 2 * i] == 192
  {
    var low, high := image[10 + 2 * i] as int, image[11 + 2 * i] as int;
    assert WordAt(image, i) == low + 256 * high;
    assert high == 32 * (high / 32) + high % 32;
    assert low + 256 * high == 0x2000 * (high / 32) + (low + 256 * (high % 32));
  }

  /**
   * Slot `i` as the bytes of its word spell it: the top bit hides it, the next one marks an overflow link, the third
   * is reserved, and the low thirteen bits are the start of a row that ends where the slot before it starts.
   */
  ghost predicate SlotSpelled(image: Image, slots: seq<Slot>, i: nat)
    requires i < |slots| && 10 + 2 * |slots| <= PAGE
  {
    var low, high := image[10 + 2 * i] as int, image[11 + 2 * i] as int;
    && slots[i].end == (if i == 0 then PAGE else slots[i - 1].start)
    && (slots[i].hidden <==> high >= 128)
    && (slots[i].overflow <==> high / 64 % 2 == 1)
    && if low == 0 && high == 192 then slots[i].start == slots[i].end
       else high / 32 % 2 == 0 && slots[i].start == low + 256 * (high % 32)
            && 10 + 2 * |slots| <= slots[i].start <= slots[i].end
  }

  /** A directory is accepted exactly when its words spell it, slot by slot. */
  lemma DirectoryExactly(image: Image, slots: seq<Slot>)
    ensures Directory(image) == Accepted(slots) <==>
            && |slots| == image[8] as int + 256 * image[9] as int && 10 + 2 * |slots| <= PAGE
            && forall i: nat :: i < |slots| ==> SlotSpelled(image, slots, i)
  {
    hide WordAt, SlotAccepted, SlotSpelled, Floor;
    if |slots| == Count(image) && 10 + 2 * |slots| <= PAGE {
      if Directory(image) == Accepted(slots) {
        forall i: nat | i < |slots| ensures SlotSpelled(image, slots, i) {
          AcceptedSlotSpelled(image, slots, i);
        }
      }
      if forall i: nat :: i < |slots| ==> SlotSpelled(image, slots, i) {
        forall i: nat | i < |slots| ensures slots[i] == SlotAt(image, i) && SlotAccepted(image, |slots|, i) {
          SpelledSlot(image, slots, i);
        }
        assert slots == seq(Count(image), k requires 0 <= k < Count(image) => SlotAt(image, k));
      }
    }
  }

  lemma AcceptedSlotSpelled(image: Image, slots: seq<Slot>, i: nat)
    requires Directory(image) == Accepted(slots) && i < |slots|
    ensures 10 + 2 * |slots| <= PAGE && SlotSpelled(image, slots, i)
  {
    hide WordAt;
    WordBytes(image, i);
    WordThirdBit(image, i);
    assert SlotAccepted(image, |slots|, i);
  }

  lemma WordThirdBit(image: Image, i: nat)
    requires 12 + 2 * i <= PAGE
    ensures WordAt(image, i) / 0x2000 % 2 == image[11 + 2 * i] as int / 32 % 2
  {
  }

  /** Spelled slots are the ones the directory pass computes. */
  lemma {:induction false} SpelledSlot(image: Image, slots: seq<Slot>, i: nat)
    requires |slots| == Count(image) && 10 + 2 * |slots| <= PAGE && i < |slots|
    requires forall k: nat :: k < |slots| ==> SlotSpelled(image, slots, k)
    ensures slots[i] == SlotAt(image, i) && SlotAccepted(image, |slots|, i) && slots[i].start == Floor(image, i + 1)
  {
    hide WordAt;
    WordBytes(image, i);
    WordThirdBit(image, i);
    assert SlotSpelled(image, slots, i);
    if i > 0 {
      SpelledSlot(image, slots, i - 1);
    }
  }

  /** A row is the bytes between the ends of its slot, under the flags of its slot. */
  lemma RowBytes(image: Image, i: nat)
    requires Directory(image).Accepted? && i < |Directory(image).value|
    ensures i < Count(image)
    ensures var slot := Directory(image).value[i];
            && slot.start <= slot.end <= PAGE
            && RowAt(image, i) == Row(image[slot.start..slot.end], slot.hidden, slot.overflow)
  {
    hide WordAt, SlotAccepted;
    FloorDecreases(image, i, i + 1);
    FloorDecreases(image, 0, i);
  }

  lemma SlotFlags(image: Image, i: nat)
    requires Directory(image).Accepted? && i < |Directory(image).value|
    ensures 12 + 2 * i <= PAGE
    ensures Directory(image).value[i].hidden <==> image[11 + 2 * i] >= 128
    ensures Directory(image).value[i].overflow <==> image[11 + 2 * i] as int / 64 % 2 == 1
  {
    hide SlotAccepted, SlotAt, Floor;
    var slots := Directory(image).value;
    DirectoryExactly(image, slots);
    assert SlotSpelled(image, slots, i);
  }

  lemma {:induction false} FloorDecreases(image: Image, i: nat, j: nat)
    requires DirectoryAccepted(image) && i <= j <= Count(image)
    ensures 10 + 2 * Count(image) <= Floor(image, j) <= Floor(image, i) <= PAGE
    decreases j
  {
    if i < j {
      FloorDecreases(image, i, j - 1);
      assert SlotAccepted(image, Count(image), j - 1);
    } else if j > 0 {
      FloorDecreases(image, j - 1, j - 1);
      assert SlotAccepted(image, Count(image), j - 1);
    }
  }

  // ----- The abstract page: a sequence of rows -----

  datatype Row = Row(data: seq<byte>, hidden: bool, overflow: bool)

  const TOMBSTONE := Row([], true, true)

  function Lowest(image: Image): (n: nat)
    requires 10 + 2 * Count(image) <= PAGE
  {
    Floor(image, Count(image))
  }

  /** An accepted, nonempty directory without bare 0xc000 words and with a true free count. */
  predicate WellFormed(image: Image) {
    && DirectoryAccepted(image)
    && 0 < Count(image)
    && (forall i: nat :: i < Count(image) ==> WordAt(image, i) != 0xc000)
    && U16(image, 2) == Lowest(image) - 10 - 2 * Count(image)
  }

  function RowAt(image: Image, i: nat): (r: Row)
    requires DirectoryAccepted(image) && i < Count(image)
  {
    FloorDecreases(image, i, i + 1);
    var slot := SlotAt(image, i);
    Row(image[slot.start..slot.end], slot.hidden, slot.overflow)
  }

  /** What the page stores, slot by slot. */
  function Rows(image: Image): (r: seq<Row>)
    requires DirectoryAccepted(image)
    ensures |r| == Count(image)
    ensures forall i :: 0 <= i < |r| ==> r[i] == RowAt(image, i)
  {
    seq(Count(image), i requires 0 <= i < Count(image) => RowAt(image, i))
  }

  // ----- Insertion -----

  predicate InsertAdmitted(image: Image, row: seq<byte>) {
    && DirectoryAccepted(image)
    && 0 < Count(image) < 256
    && U16(image, 2) == Lowest(image) - 10 - 2 * Count(image)
    && Lowest(image) - |row| >= 10 + 2 * (Count(image) + 1)
  }

  function InsertedByte(image: Image, row: seq<byte>, i: nat): (b: byte)
    requires InsertAdmitted(image, row) && i < PAGE
  {
    var slot, lowest := Count(image), Lowest(image);
    var start, free := lowest - |row|, U16(image, 2) - |row| - 2;
    FloorDecreases(image, 0, slot);
    if i == 2 then free % 256
    else if i == 3 then free / 256
    else if i == 8 then (slot + 1) % 256
    else if i == 9 then (slot + 1) / 256
    else if i == 10 + 2 * slot then start % 256
    else if i == 11 + 2 * slot then start / 256
    else if start <= i < lowest then row[i - start]
    else image[i]
  }

  /** The page after appending `row`: its bytes, its word, the slot count and the free count. */
  function Inserted(image: Image, row: seq<byte>): (r: Image)
    requires InsertAdmitted(image, row)
  {
    seq(PAGE, i requires 0 <= i < PAGE => InsertedByte(image, row, i))
  }

  lemma InsertedHeader(image: Image, row: seq<byte>)
    requires InsertAdmitted(image, row)
    ensures var after := Inserted(image, row);
            && Count(after) == Count(image) + 1
            && U16(after, 2) == U16(image, 2) - |row| - 2
            && WordAt(after, Count(image)) == Lowest(image) - |row|
            && (forall i: nat :: i < Count(image) ==> WordAt(after, i) == WordAt(image, i))
            && after[..2] == image[..2] && after[4..8] == image[4..8]
  {
    FloorDecreases(image, 0, Count(image));
  }

  lemma {:induction false} SameWordsSameFloor(image: Image, after: Image, n: nat)
    requires 10 + 2 * n <= PAGE
    requires forall i: nat :: i < n ==> WordAt(after, i) == WordAt(image, i)
    ensures Floor(after, n) == Floor(image, n)
  {
    if n > 0 {
      SameWordsSameFloor(image, after, n - 1);
    }
  }

  lemma InsertedDirectory(image: Image, row: seq<byte>)
    requires InsertAdmitted(image, row)
    ensures var after := Inserted(image, row);
            && DirectoryAccepted(after)
            && Lowest(after) == Lowest(image) - |row|
            && (forall n: nat :: n <= Count(image) ==> Floor(after, n) == Floor(image, n))
  {
    hide Inserted, WordAt, Count;
    var after, count := Inserted(image, row), Count(image);
    InsertedHeader(image, row);
    forall n: nat | n <= count ensures Floor(after, n) == Floor(image, n) {
      SameWordsSameFloor(image, after, n);
    }
    FloorDecreases(image, 0, count);
    forall i: nat | i < Count(after) ensures SlotAccepted(after, Count(after), i) {
      if i < count {
        assert SlotAccepted(image, count, i);
        FloorDecreases(image, i + 1, count);
      }
    }
  }

  lemma InsertedBytes(image: Image, row: seq<byte>)
    requires InsertAdmitted(image, row)
    ensures forall i :: Lowest(image) <= i < PAGE ==> Inserted(image, row)[i] == image[i]
    ensures Lowest(image) <= PAGE
    ensures Inserted(image, row)[Lowest(image) - |row|..Lowest(image)] == row
  {
    FloorDecreases(image, 0, Count(image));
  }

  lemma InsertedRow(image: Image, row: seq<byte>, i: nat)
    requires InsertAdmitted(image, row) && DirectoryAccepted(Inserted(image, row)) && i < Count(image)
    requires Count(Inserted(image, row)) == Count(image) + 1
    ensures RowAt(Inserted(image, row), i) == RowAt(image, i)
  {
    hide Inserted, Floor;
    InsertedHeader(image, row);
    InsertedDirectory(image, row);
    InsertedBytes(image, row);
    FloorDecreases(image, i, i + 1);
    FloorDecreases(image, i + 1, Count(image));
    var slot := SlotAt(image, i);
    assert SlotAt(Inserted(image, row), i) == slot;
    assert Inserted(image, row)[slot.start..slot.end] == image[slot.start..slot.end];
  }

  /** Insertion appends exactly one ordinary row and keeps every other row. */
  lemma InsertRefines(image: Image, row: seq<byte>)
    requires WellFormed(image) && InsertAdmitted(image, row)
    ensures var after := Inserted(image, row);
            && WellFormed(after)
            && Rows(after) == Rows(image) + [Row(row, false, false)]
            && after[..2] == image[..2] && after[4..8] == image[4..8]
  {
    hide Inserted, WordAt;
    var after, count := Inserted(image, row), Count(image);
    InsertedHeader(image, row);
    InsertedDirectory(image, row);
    InsertedBytes(image, row);
    FloorDecreases(image, 0, count);
    forall i | 0 <= i < count ensures RowAt(after, i) == RowAt(image, i) {
      InsertedRow(image, row, i);
    }
    assert SlotAt(after, count) == Slot(Lowest(image) - |row|, Lowest(image), false, false);
    assert RowAt(after, count) == Row(row, false, false);
  }

  // ----- Deletion with compaction -----

  predicate DeleteAdmitted(image: Image, slot: nat) {
    && DirectoryAccepted(image)
    && 0 < Count(image)
    && U16(image, 2) == Lowest(image) - 10 - 2 * Count(image)
    && slot < Count(image)
    && SlotAt(image, slot).start < SlotAt(image, slot).end
  }

  /** The rewritten word of slot `n >= slot`: a tombstone at the removed row's end, or a start moved up. */
  function MovedWord(image: Image, slot: nat, n: nat, length: nat): (w: nat)
    requires 12 + 2 * n <= PAGE && slot <= n
  {
    var word := WordAt(image, n);
    if n == slot then Floor(image, slot) + 0xc000
    else (word / 0x1000) * 0x1000 + (word % 0x1000 + length)
  }

  /** Adding to the offset of a word leaves its flags alone while the offset stays on the page. */
  lemma MoveFields(word: nat, length: nat)
    requires word < 0x1_0000 && (word / 0x2000) % 2 == 0 && word % 0x2000 + length <= PAGE
    ensures var moved := (word / 0x1000) * 0x1000 + (word % 0x1000 + length);
            && moved < 0x1_0000 && moved % 0x2000 == word % 0x2000 + length
            && moved / 0x8000 == word / 0x8000 && (moved / 0x4000) % 2 == (word / 0x4000) % 2
            && (moved / 0x2000) % 2 == 0
  {
    var flags := word / 0x2000;
    assert word == flags * 0x2000 + word % 0x2000;
    assert (word / 0x1000) * 0x1000 + word % 0x1000 == word;
  }

  lemma TombstoneFields(end: nat)
    requires 0 < end <= PAGE
    ensures var word := end + 0xc000;
            && word < 0x1_0000 && word % 0x2000 == end && word / 0x8000 == 1
            && (word / 0x4000) % 2 == 1 && (word / 0x2000) % 2 == 0
  {
  }

  /** The number of bytes the deleted row occupied. */
  function RemovedLength(image: Image, slot: nat): (n: nat)
    requires DeleteAdmitted(image, slot)
  {
    Floor(image, slot) - Floor(image, slot + 1)
  }

  /** The rewritten words: tombstone in the slot, later starts moved up with their flags. */
  lemma MovedWordFields(image: Image, slot: nat, n: nat)
    requires DeleteAdmitted(image, slot) && slot <= n < Count(image) && (n == slot || WordAt(image, n) != 0xc000)
    ensures var length := RemovedLength(image, slot);
            var moved := MovedWord(image, slot, n, length);
            && moved < 0x1_0000 && (moved / 0x2000) % 2 == 0
            && moved % 0x2000 == Floor(image, n + 1) + length
            && moved % 0x2000 > 0
            && (n == slot ==> moved / 0x8000 == 1 && (moved / 0x4000) % 2 == 1)
            && (n > slot ==> moved / 0x8000 == WordAt(image, n) / 0x8000
                             && (moved / 0x4000) % 2 == (WordAt(image, n) / 0x4000) % 2)
  {
    hide WordAt;
    FloorDecreases(image, 0, slot);
    FloorDecreases(image, slot, slot + 1);
    if n > slot {
      assert SlotAccepted(image, Count(image), n);
      FloorDecreases(image, slot + 1, n);
      FloorDecreases(image, n, n + 1);
      MoveFields(WordAt(image, n), RemovedLength(image, slot));
    } else {
      TombstoneFields(Floor(image, slot));
    }
  }

  lemma MovedWordFits(image: Image, slot: nat, n: nat)
    requires DeleteAdmitted(image, slot) && slot <= n < Count(image)
    ensures MovedWord(image, slot, n, RemovedLength(image, slot)) < 0x1_0000
  {
    hide WordAt;
    FloorDecreases(image, 0, slot);
    FloorDecreases(image, slot, slot + 1);
    if n > slot {
      assert SlotAccepted(image, Count(image), n);
      FloorDecreases(image, slot + 1, n);
      MoveFields(WordAt(image, n), RemovedLength(image, slot));
    }
  }

  function DeletedByte(image: Image, slot: nat, i: nat): (b: byte)
    requires DeleteAdmitted(image, slot) && i < PAGE
  {
    var count, lowest, end, length := Count(image), Lowest(image), Floor(image, slot), RemovedLength(image, slot);
    var free := U16(image, 2) + length;
    FloorDecreases(image, 0, slot);
    FloorDecreases(image, slot + 1, count);
    if i == 2 then free % 256
    else if i == 3 then free / 256
    else if 10 + 2 * slot <= i < 10 + 2 * count then
      var n := (i - 10) / 2;
      MovedWordFits(image, slot, n);
      var word := MovedWord(image, slot, n, length);
      if i % 2 == 0 then word % 256 else word / 256
    else if lowest + length <= i < end then image[i - length]
    else image[i]
  }

  /** The page after deleting slot `slot`: lower rows moved up, words rewritten, free count raised. */
  function Deleted(image: Image, slot: nat): (r: Image)
    requires DeleteAdmitted(image, slot)
  {
    seq(PAGE, i requires 0 <= i < PAGE => DeletedByte(image, slot, i))
  }

  lemma DeletedHeader(image: Image, slot: nat)
    requires DeleteAdmitted(image, slot)
    ensures var after := Deleted(image, slot);
            && Count(after) == Count(image)
            && U16(after, 2) == U16(image, 2) + RemovedLength(image, slot)
            && (forall i: nat :: i < slot ==> WordAt(after, i) == WordAt(image, i))
            && after[..2] == image[..2] && after[4..8] == image[4..8]
  {
    hide Floor;
    FloorDecreases(image, 0, slot);
    FloorDecreases(image, slot + 1, Count(image));
  }

  lemma DeletedWordBytes(image: Image, slot: nat, n: nat)
    requires DeleteAdmitted(image, slot) && slot <= n < Count(image)
    ensures var word := MovedWord(image, slot, n, RemovedLength(image, slot));
            && word < 0x1_0000
            && DeletedByte(image, slot, 10 + 2 * n) == word % 256
            && DeletedByte(image, slot, 11 + 2 * n) == word / 256
  {
    hide Floor, MovedWord, SlotAccepted;
    MovedWordFits(image, slot, n);
    assert (10 + 2 * n - 10) / 2 == n && (11 + 2 * n - 10) / 2 == n;
  }

  lemma DeletedWord(image: Image, slot: nat, n: nat)
    requires DeleteAdmitted(image, slot) && slot <= n < Count(image)
    ensures WordAt(Deleted(image, slot), n) == MovedWord(image, slot, n, RemovedLength(image, slot))
  {
    hide Floor, MovedWord, DeletedByte;
    DeletedWordBytes(image, slot, n);
  }

  /** Bytes outside the rewritten words. */
  lemma DeletedElsewhere(image: Image, slot: nat, i: nat)
    requires DeleteAdmitted(image, slot) && i < PAGE && !(10 + 2 * slot <= i < 10 + 2 * Count(image))
    ensures var length := RemovedLength(image, slot);
            var free := U16(image, 2) + length;
            DeletedByte(image, slot, i) ==
              if i == 2 then free % 256 else if i == 3 then free / 256
              else if Lowest(image) + length <= i < Floor(image, slot) then image[i - length] else image[i]
  {
    hide Floor, SlotAccepted;
  }

  lemma DeletedMoves(image: Image, slot: nat)
    requires DeleteAdmitted(image, slot)
    ensures forall i :: Floor(image, slot) <= i < PAGE ==> Deleted(image, slot)[i] == image[i]
    ensures var length := RemovedLength(image, slot);
            && Lowest(image) + length <= Floor(image, slot) <= PAGE
            && forall i :: Lowest(image) + length <= i < Floor(image, slot) ==>
                 Deleted(image, slot)[i] == image[i - length]
  {
    hide Floor, WordAt, MovedWord, SlotAccepted;
    FloorDecreases(image, 0, slot);
    FloorDecreases(image, slot + 1, Count(image));
  }

  /** No slot after `slot` and before `n` is a bare tombstone. */
  predicate NoBareBetween(image: Image, slot: nat, n: nat)
    requires 10 + 2 * n <= PAGE
  {
    forall i: nat :: slot < i < n ==> WordAt(image, i) != 0xc000
  }

  /** Above the removed row nothing moves; its own slot closes up and the rest move by its length. */
  lemma {:induction false} DeletedFloor(image: Image, slot: nat, n: nat)
    requires DeleteAdmitted(image, slot) && n <= Count(image) && NoBareBetween(image, slot, n)
    ensures Floor(Deleted(image, slot), n)
            == if n <= slot then Floor(image, n) else Floor(image, n) + RemovedLength(image, slot)
  {
    hide Deleted, WordAt, MovedWord;
    if n > 0 {
      DeletedHeader(image, slot);
      DeletedFloor(image, slot, n - 1);
      if n - 1 >= slot {
        DeletedWord(image, slot, n - 1);
        MovedWordFields(image, slot, n - 1);
      }
    }
  }

  lemma DeletedSlot(image: Image, slot: nat, i: nat)
    requires DeleteAdmitted(image, slot) && i < Count(image) && NoBareBetween(image, slot, Count(image))
    ensures SlotAccepted(Deleted(image, slot), Count(image), i)
    ensures WordAt(Deleted(image, slot), i) == 0xc000 ==> i < slot && WordAt(image, i) == 0xc000
    ensures var before, after := SlotAt(image, i), SlotAt(Deleted(image, slot), i);
            if i == slot then after == Slot(before.end, before.end, true, true)
            else var up := if i < slot then 0 else RemovedLength(image, slot);
                 after == Slot(before.start + up, before.end + up, before.hidden, before.overflow)
  {
    hide Deleted, WordAt, Floor, MovedWord;
    DeletedHeader(image, slot);
    DeletedFloor(image, slot, i);
    DeletedFloor(image, slot, i + 1);
    FloorDecreases(image, i, i + 1);
    FloorDecreases(image, slot, slot + 1);
    assert SlotAccepted(image, Count(image), i);
    if i >= slot {
      DeletedWord(image, slot, i);
      MovedWordFields(image, slot, i);
      FloorDecreases(image, i + 1, Count(image));
    }
  }

  lemma DirectoryFits(image: Image)
    requires DirectoryAccepted(image)
    ensures 10 + 2 * Count(image) <= PAGE
  {
  }

  lemma FloorStep(image: Image, i: nat)
    requires 12 + 2 * i <= PAGE && WordAt(image, i) != 0xc000
    ensures Floor(image, i + 1) == WordAt(image, i) % 0x2000
  {
  }

  lemma DeletedRow(image: Image, slot: nat, i: nat)
    requires DeleteAdmitted(image, slot) && i < Count(image) && NoBareBetween(image, slot, Count(image))
    requires DirectoryAccepted(Deleted(image, slot)) && Count(Deleted(image, slot)) == Count(image)
    ensures RowAt(Deleted(image, slot), i) == if i == slot then TOMBSTONE else RowAt(image, i)
  {
    hide Deleted, WordAt, Floor, SlotAccepted;
    var after := Deleted(image, slot);
    DeletedSlot(image, slot, i);
    FloorDecreases(image, i, i + 1);
    if i != slot {
      var a, b := SlotAt(image, i), SlotAt(after, i);
      DeletedMoves(image, slot);
      FloorDecreases(image, i + 1, Count(image));
      if i < slot {
        FloorDecreases(image, i + 1, slot);
      } else {
        FloorDecreases(image, slot + 1, i);
      }
      assert after[b.start..b.end] == image[a.start..a.end];
    }
  }

  /** The page stores the rows it should: the deleted slot is a tombstone and every other row is kept. */
  ghost predicate DeletedExactly(image: Image, slot: nat)
    requires DeleteAdmitted(image, slot)
  {
    var after := Deleted(image, slot);
    DirectoryAccepted(after) && Rows(after) == Rows(image)[slot := TOMBSTONE]
  }

  lemma DeletedRows(image: Image, slot: nat)
    requires DeleteAdmitted(image, slot) && NoBareBetween(image, slot, Count(image))
    ensures var after := Deleted(image, slot);
            && DeletedExactly(image, slot)
            && U16(after, 2) == Lowest(after) - 10 - 2 * Count(after)
            && (WellFormed(image) ==> WellFormed(after))
  {
    hide Deleted, WordAt, Floor, SlotAccepted, RowAt, SlotAt;
    var after, count := Deleted(image, slot), Count(image);
    DeletedHeader(image, slot);
    DeletedFloor(image, slot, count);
    forall i: nat | i < count
      ensures SlotAccepted(after, count, i) && (WordAt(after, i) == 0xc000 ==> WordAt(image, i) == 0xc000)
    {
      DeletedSlot(image, slot, i);
    }
    FloorDecreases(image, 0, count);
    assert DirectoryAccepted(after);
    forall i | 0 <= i < count ensures RowAt(after, i) == Rows(image)[slot := TOMBSTONE][i] {
      DeletedRow(image, slot, i);
    }
  }

  /** The word rewrite gives a bare tombstone after the deleted slot a start of its own. */
  lemma BareWordFloor(image: Image, slot: nat, n: nat)
    requires DeleteAdmitted(image, slot) && slot < n < Count(image)
    requires NoBareBetween(image, slot, n) && WordAt(image, n) == 0xc000
    ensures Floor(Deleted(image, slot), n + 1) == RemovedLength(image, slot) < Floor(Deleted(image, slot), n)
    ensures Floor(image, n + 1) == Floor(image, n)
  {
    hide Deleted, SlotAccepted, WordAt, Floor;
    var after, length := Deleted(image, slot), RemovedLength(image, slot);
    DeletedFloor(image, slot, n);
    DeletedWord(image, slot, n);
    FloorDecreases(image, slot, slot + 1);
    FloorDecreases(image, 0, slot);
    FloorDecreases(image, n, n);
    assert WordAt(after, n) == 0xc000 + length;
    FloorStep(after, n);
    BareFloor(image, n);
  }

  lemma BareFloor(image: Image, n: nat)
    requires 12 + 2 * n <= PAGE && WordAt(image, n) == 0xc000
    ensures Floor(image, n + 1) == Floor(image, n)
  {
  }

  /** So the slot turns into a row, or the directory is refused. */
  lemma BareWordMoves(image: Image, slot: nat, n: nat)
    requires DeleteAdmitted(image, slot) && slot < n < Count(image)
    requires NoBareBetween(image, slot, n) && WordAt(image, n) == 0xc000
    ensures !DeletedExactly(image, slot)
  {
    hide Deleted, SlotAccepted, WordAt, Floor, DirectoryAccepted;
    var after := Deleted(image, slot);
    DeletedHeader(image, slot);
    BareWordFloor(image, slot, n);
    if DirectoryAccepted(after) {
      FloorDecreases(after, n, n + 1);
      FloorDecreases(image, n, n + 1);
      assert |RowAt(after, n).data| > 0;
      assert |RowAt(image, n).data| == 0;
      assert Rows(image)[slot := TOMBSTONE][n] == RowAt(image, n);
    }
  }

  lemma {:induction false} FirstBare(image: Image, slot: nat, n: nat) returns (k: nat)
    requires 10 + 2 * n <= PAGE && !NoBareBetween(image, slot, n)
    ensures slot < k < n && WordAt(image, k) == 0xc000 && NoBareBetween(image, slot, k)
  {
    hide WordAt;
    if NoBareBetween(image, slot, n - 1) {
      k := n - 1;
    } else {
      k := FirstBare(image, slot, n - 1);
    }
  }

  /**
   * Deletion empties exactly its slot, and every other row keeps its bytes and flags although rows move: this
   * holds exactly when no slot after the deleted one is a bare 0xc000 word, which the word rewrite would shift.
   */
  lemma DeleteRefines(image: Image, slot: nat)
    requires DeleteAdmitted(image, slot)
    ensures DeletedExactly(image, slot) <==> NoBareBetween(image, slot, Count(image))
    ensures NoBareBetween(image, slot, Count(image)) ==>
              var after := Deleted(image, slot);
              && U16(after, 2) == Lowest(after) - 10 - 2 * Count(after)
              && (WellFormed(image) ==> WellFormed(after))
    ensures Deleted(image, slot)[..2] == image[..2] && Deleted(image, slot)[4..8] == image[4..8]
  {
    hide Deleted, WordAt, Floor, DeletedExactly, WellFormed;
    DeletedHeader(image, slot);
    if NoBareBetween(image, slot, Count(image)) {
      DeletedRows(image, slot);
    } else {
      var k := FirstBare(image, slot, Count(image));
      BareWordMoves(image, slot, k);
    }
  }

  /** A page with one eight-byte row and a bare tombstone after it. */
  function BarePage(): (r: Image) {
    [1, 1, 2026 % 256, 2026 / 256, 0, 0, 0, 0, 2, 0, 2040 % 256, 2040 / 256, 0, 0xc0] + seq(PAGE - 14, i => 0)
  }

  lemma BarePageFails()
    ensures DeleteAdmitted(BarePage(), 0) && !DeletedExactly(BarePage(), 0)
  {
    hide Deleted, DeletedExactly;
    var image := BarePage();
    assert Count(image) == 2 && WordAt(image, 0) == 2040 && WordAt(image, 1) == 0xc000 && U16(image, 2) == 2026;
    assert Floor(image, 0) == PAGE && Floor(image, 1) == 2040 && Floor(image, 2) == 2040;
    DeleteRefines(image, 0);
  }

  // ----- Runs of edits refine a sequence of rows with a byte budget -----

  datatype Edit = Insert(row: seq<byte>) | Delete(slot: nat)

  /** One edit of the page; a refused edit changes nothing. */
  function EditPage(image: Image, edit: Edit): (r: Image) {
    match edit
    case Insert(row) => if InsertAdmitted(image, row) then Inserted(image, row) else image
    case Delete(slot) => if DeleteAdmitted(image, slot) then Deleted(image, slot) else image
  }

  function RunPage(image: Image, edits: seq<Edit>): (r: Image) {
    if edits == [] then image else EditPage(RunPage(image, edits[..|edits| - 1]), edits[|edits| - 1])
  }

  /** The bytes of all stored rows. */
  function Used(rows: seq<Row>): (n: nat) {
    if rows == [] then 0 else Used(rows[..|rows| - 1]) + |rows[|rows| - 1].data|
  }

  /** One edit of the row sequence: room is 2048 bytes less header, words and row bytes. */
  function EditRows(rows: seq<Row>, edit: Edit): (r: seq<Row>) {
    match edit
    case Insert(row) =>
      if |rows| < 256 && 10 + 2 * (|rows| + 1) + Used(rows) + |row| <= PAGE then rows + [Row(row, false, false)]
      else rows
    case Delete(slot) =>
      if slot < |rows| && rows[slot].data != [] then rows[slot := TOMBSTONE] else rows
  }

  function RunRows(rows: seq<Row>, edits: seq<Edit>): (r: seq<Row>) {
    if edits == [] then rows else EditRows(RunRows(rows, edits[..|edits| - 1]), edits[|edits| - 1])
  }

  lemma {:induction false} UsedIsStored(image: Image, n: nat)
    requires DirectoryAccepted(image) && n <= Count(image)
    ensures Used(Rows(image)[..n]) == PAGE - Floor(image, n)
  {
    hide WordAt, SlotAccepted;
    if n > 0 {
      UsedIsStored(image, n - 1);
      FloorDecreases(image, n - 1, n);
      assert Rows(image)[..n][..n - 1] == Rows(image)[..n - 1];
      assert Rows(image)[..n][n - 1] == RowAt(image, n - 1);
    }
  }

  /** The free count and the byte budget are the same number, so both models refuse the same edits. */
  lemma EditRefines(image: Image, edit: Edit)
    requires WellFormed(image)
    ensures WellFormed(EditPage(image, edit))
    ensures Rows(EditPage(image, edit)) == EditRows(Rows(image), edit)
    ensures EditPage(image, edit)[..2] == image[..2] && EditPage(image, edit)[4..8] == image[4..8]
  {
    hide Inserted, Deleted, Floor, SlotAccepted, WordAt;
    UsedIsStored(image, Count(image));
    assert Rows(image)[..Count(image)] == Rows(image);
    match edit
    case Insert(row) =>
      if InsertAdmitted(image, row) {
        InsertRefines(image, row);
      }
    case Delete(slot) =>
      if slot < Count(image) {
        FloorDecreases(image, slot, slot + 1);
        assert Rows(image)[slot] == RowAt(image, slot);
      }
      if DeleteAdmitted(image, slot) {
        DeleteRefines(image, slot);
      }
  }

  /**
   * Every run of insertions and deletions keeps the directory acceptable and the free count true, and the
   * page always stores exactly what a plain sequence of rows would.
   */
  lemma {:induction false} RunRefines(image: Image, edits: seq<Edit>)
    requires WellFormed(image)
    ensures WellFormed(RunPage(image, edits))
    ensures Rows(RunPage(image, edits)) == RunRows(Rows(image), edits)
    ensures RunPage(image, edits)[..2] == image[..2] && RunPage(image, edits)[4..8] == image[4..8]
  {
    hide WellFormed, EditPage, EditRows;
    if edits != [] {
      RunRefines(image, edits[..|edits| - 1]);
      EditRefines(RunPage(image, edits[..|edits| - 1]), edits[|edits| - 1]);
    }
  }

  function NewPageByte(encoded: seq<byte>, owner: nat, i: nat): (b: byte)
    requires |encoded| <= 2036 && owner < 0x1_0000_0000 && i < PAGE
  {
    var free, start := 2036 - |encoded|, PAGE - |encoded|;
    if i < 2 then 1
    else if i == 2 then free % 256
    else if i == 3 then free / 256
    else if i == 4 then owner % 256
    else if i == 5 then owner / 256 % 256
    else if i == 6 then owner / 0x1_0000 % 256
    else if i == 7 then owner / 0x100_0000
    else if i == 8 then 1
    else if i == 9 then 0
    else if i == 10 then start % 256
    else if i == 11 then start / 256
    else if i >= start then encoded[i - start]
    else 0
  }

  /** A fresh page for `owner` holding the single row `encoded`. */
  function NewPage(encoded: seq<byte>, owner: nat): (r: Image)
    requires |encoded| <= 2036 && owner < 0x1_0000_0000
  {
    seq(PAGE, i requires 0 <= i < PAGE => NewPageByte(encoded, owner, i))
  }

  /** The bytes below the row of a new page. */
  lemma HeaderBytes(encoded: seq<byte>, owner: nat, image: Image)
    requires |encoded| <= 2036 && owner < 0x1_0000_0000
    requires image[0] == 1 && image[1] == 1
    requires image[2] == (2036 - |encoded|) % 256 && image[3] == (2036 - |encoded|) / 256
    requires image[4] == owner % 256 && image[5] == owner / 256 % 256
    requires image[6] == owner / 0x1_0000 % 256 && image[7] == owner / 0x100_0000
    requires image[8] == 1 && image[9] == 0
    requires image[10] == (PAGE - |encoded|) % 256 && image[11] == (PAGE - |encoded|) / 256
    requires forall i :: 12 <= i < PAGE ==> image[i] == 0
    ensures image[..PAGE - |encoded|] + encoded == NewPage(encoded, owner)
  {
    var made := image[..PAGE - |encoded|] + encoded;
    forall i | 0 <= i < PAGE ensures made[i] == NewPageByte(encoded, owner, i) {
    }
  }

  lemma OwnerBytes(owner: nat)
    requires owner < 0x1_0000_0000
    ensures owner % 0x1_0000 % 256 == owner % 256 && owner % 0x1_0000 / 256 == owner / 256 % 256
    ensures owner / 0x1_0000 / 256 == owner / 0x100_0000
  {
  }

  lemma NewPageHeader(encoded: seq<byte>, owner: nat)
    requires |encoded| <= 2036 && owner < 0x1_0000_0000
    ensures var image := NewPage(encoded, owner);
            && Count(image) == 1 && WordAt(image, 0) == PAGE - |encoded| && U16(image, 2) == 2036 - |encoded|
            && image[..2] == [1, 1] && U32(image, 4) == owner && image[PAGE - |encoded|..PAGE] == encoded
  {
    hide NewPageByte;
    HeaderValues(encoded, owner);
    OwnerWord(owner);
    var image, start := NewPage(encoded, owner), PAGE - |encoded|;
    forall i | 0 <= i < |encoded| ensures image[start + i] == encoded[i] {
      RowByte(encoded, owner, i);
    }
  }

  lemma HeaderValues(encoded: seq<byte>, owner: nat)
    requires |encoded| <= 2036 && owner < 0x1_0000_0000
    ensures NewPageByte(encoded, owner, 0) == 1 && NewPageByte(encoded, owner, 1) == 1
    ensures NewPageByte(encoded, owner, 2) == (2036 - |encoded|) % 256
    ensures NewPageByte(encoded, owner, 3) == (2036 - |encoded|) / 256
    ensures NewPageByte(encoded, owner, 4) == owner % 256 && NewPageByte(encoded, owner, 5) == owner / 256 % 256
    ensures NewPageByte(encoded, owner, 6) == owner / 0x1_0000 % 256
    ensures NewPageByte(encoded, owner, 7) == owner / 0x100_0000
    ensures NewPageByte(encoded, owner, 8) == 1 && NewPageByte(encoded, owner, 9) == 0
    ensures NewPageByte(encoded, owner, 10) == (PAGE - |encoded|) % 256
    ensures NewPageByte(encoded, owner, 11) == (PAGE - |encoded|) / 256
  {
  }

  lemma RowByte(encoded: seq<byte>, owner: nat, i: nat)
    requires |encoded| <= 2036 && owner < 0x1_0000_0000 && i < |encoded|
    ensures NewPageByte(encoded, owner, PAGE - |encoded| + i) == encoded[i]
  {
  }

  lemma OwnerWord(owner: nat)
    requires owner < 0x1_0000_0000
    ensures owner % 256 + 256 * (owner / 256 % 256)
            + 0x1_0000 * (owner / 0x1_0000 % 256 + 256 * (owner / 0x100_0000)) == owner
  {
    OwnerBytes(owner);
  }

  lemma NewPageRows(encoded: seq<byte>, owner: nat)
    requires |encoded| <= 2036 && owner < 0x1_0000_0000
    ensures var image := NewPage(encoded, owner);
            && WellFormed(image) && Rows(image) == [Row(encoded, false, false)]
            && image[..2] == [1, 1] && U32(image, 4) == owner
  {
    hide NewPage, WordAt, Count, U32;
    var image := NewPage(encoded, owner);
    NewPageHeader(encoded, owner);
    assert Floor(image, 0) == PAGE;
    FloorStep(image, 0);
    assert DirectoryAccepted(image);
    assert RowAt(image, 0) == Row(encoded, false, false);
  }

  // ----- In-place edits -----

  /** A data page held in memory and patched in place. */
  class DataPage {
    const image: array<byte>

    ghost predicate Valid() {
      image.Length == PAGE
    }

    /** The page for a row that found no room (one appended data page). */
    constructor (encoded: seq<byte>, owner: nat)
      requires 0 < |encoded| <= 2036 && owner < 0x1_0000_0000
      ensures Valid() && fresh(image)
      ensures image[..] == NewPage(encoded, owner)
    {
      image := new byte[PAGE](i => 0);
      new;
      image[0], image[1] := 1, 1;
      Put16(2, 2036 - |encoded|);
      Put16(4, owner % 0x1_0000);
      Put16(6, owner / 0x1_0000);
      Put16(8, 1);
      Put16(10, PAGE - |encoded|);
      OwnerBytes(owner);
      HeaderBytes(encoded, owner, image[..]);
      PutTail(encoded);
      assert image[..] == NewPage(encoded, owner);
    }

    /** Row bytes at the very end of the page. */
    method PutTail(encoded: seq<byte>)
      requires Valid() && |encoded| <= PAGE
      modifies image
      ensures image[..] == old(image[..])[..PAGE - |encoded|] + encoded
    {
      forall k | PAGE - |encoded| <= k < PAGE {
        image[k] := encoded[k - (PAGE - |encoded|)];
      }
    }

    method Put16(offset: nat, value: nat)
      requires Valid() && offset + 2 <= PAGE && value < 0x1_0000
      modifies image
      ensures image[offset] == value % 256 && image[offset + 1] == value / 256
      ensures forall i :: 0 <= i < PAGE && i != offset && i != offset + 1 ==> image[i] == old(image[i])
    {
      image[offset], image[offset + 1] := value % 256, value / 256;
    }

    /** The page header checks shared by both edits; the result is the slot count and the lowest row start. */
    method Inspect(owner: nat) returns (r: Result<(nat, nat)>)
      requires Valid()
      ensures var before := image[..];
              && (r.Accepted? <==>
                  && before[..2] == [1, 1] && U32(before, 4) == owner && DirectoryAccepted(before)
                  && 0 < Count(before) && U16(before, 2) == Lowest(before) - 10 - 2 * Count(before))
              && (r.Accepted? ==> r.value == (Count(before), Lowest(before)))
    {
      hide Floor, WordAt, SlotAccepted;
      var before: Image := image[..];
      var directory := ReadDirectory(before);
      if directory.Rejected? || before[..2] != [1, 1] || U32(before, 4) != owner || directory.value == [] {
        return Rejected;
      }
      var count := |directory.value|;
      var lowest := directory.value[count - 1].start;
      if U16(before, 2) != lowest - 10 - 2 * count {
        return Rejected;
      }
      return Accepted((count, lowest));
    }

    /** Appends `row` in a new slot when the page belongs to `owner` and has room. */
    method Insert(row: seq<byte>, owner: nat) returns (r: Result<nat>)
      requires Valid()
      modifies image
      ensures var before := old(image[..]);
              && (r.Accepted? <==> before[..2] == [1, 1] && U32(before, 4) == owner && InsertAdmitted(before, row))
              && (r.Accepted? ==> r.value == Count(before) && image[..] == Inserted(before, row))
              && (r.Rejected? ==> image[..] == before)
    {
      hide Floor, WordAt, SlotAccepted, U32, DirectoryAccepted;
      var before: Image := image[..];
      var header := Inspect(owner);
      if header.Rejected? {
        return Rejected;
      }
      var (slot, lowest) := header.value;
      if slot >= 256 || lowest - |row| < 10 + 2 * (slot + 1) {
        return Rejected;
      }
      FloorDecreases(before, 0, slot);
      var start := lowest - |row|;
      forall k | start <= k < lowest {
        image[k] := row[k - start];
      }
      Put16(10 + 2 * slot, start);
      Put16(8, slot + 1);
      Put16(2, lowest - 10 - 2 * slot - |row| - 2);
      forall i | 0 <= i < PAGE ensures image[i] == InsertedByte(before, row, i) {
      }
      assert image[..] == Inserted(before, row);
      return Accepted(slot);
    }

    /** Rewrites the directory words from the deleted slot on. */
    method RewriteWords(before: Image, slot: nat)
      requires Valid() && DeleteAdmitted(before, slot)
      modifies image
      ensures forall i :: 0 <= i < PAGE ==>
                image[i] == if 10 + 2 * slot <= i < 10 + 2 * Count(before) then DeletedByte(before, slot, i)
                else old(image[i])
    {
      hide Floor, WordAt, SlotAccepted, DirectoryAccepted, DeletedByte, MovedWord;
      DirectoryFits(before);
      for n := slot to Count(before)
        invariant forall i :: 0 <= i < PAGE ==>
                    image[i] == if 10 + 2 * slot <= i < 10 + 2 * n then DeletedByte(before, slot, i) else old(image[i])
      {
        DeletedWordBytes(before, slot, n);
        Put16(10 + 2 * n, MovedWord(before, slot, n, RemovedLength(before, slot)));
      }
    }

    /** Deletes a live slot, moving the rows below it up by its length. */
    method Delete(slot: nat, owner: nat) returns (r: Result<()>)
      requires Valid()
      modifies image
      ensures var before := old(image[..]);
              && (r.Accepted? <==> before[..2] == [1, 1] && U32(before, 4) == owner && DeleteAdmitted(before, slot))
              && (r.Accepted? ==> image[..] == Deleted(before, slot))
              && (r.Rejected? ==> image[..] == before)
    {
      hide Floor, WordAt, SlotAccepted, U32, DirectoryAccepted, DeletedByte, MovedWord;
      var before: Image := image[..];
      var header := Inspect(owner);
      if header.Rejected? {
        return Rejected;
      }
      var (count, lowest) := header.value;
      if slot >= count {
        return Rejected;
      }
      FloorDecreases(before, slot + 1, count);
      var target := SlotAt(before, slot);
      var end, length: int := target.end, target.end - target.start;
      if length <= 0 {
        return Rejected;
      }
      FloorDecreases(before, 0, slot);
      forall k | lowest + length <= k < end {
        image[k] := before[k - length];
      }
      RewriteWords(before, slot);
      Put16(2, U16(before, 2) + length);
      forall i | 0 <= i < PAGE ensures image[i] == DeletedByte(before, slot, i) {
        if !(10 + 2 * slot <= i < 10 + 2 * count) {
          DeletedElsewhere(before, slot, i);
        }
      }
      assert image[..] == Deleted(before, slot);
      return Accepted(());
    }
  }
}
