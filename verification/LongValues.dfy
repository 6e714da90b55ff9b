/**
 * The library's long-value writer (crates/jet3/src/long_value/writer.rs) and its overflow pointer
 * (crates/jet3/src/row/directory.rs) against the two link walks of the independent decoder.
 *
 * A written locator is read back from its four bytes wherever they lie; written inline, single-page and chained
 * values are read back as the payload that was written, over exactly the rows that carry it.
 */
module LongValues {
  import opened Bytes
  import opened DataPages
  import opened Links
  import FieldValues

  const MAX_ROW := 2036
  const MAX_FRAGMENT := 2032
  const MAX_LENGTH := 0xff_ffff

  /** `to_le_bytes`. */
  function LittleEndian(n: nat, width: nat): (r: seq<byte>)
    ensures |r| == width
  {
    FieldValues.Spelled(n, width)
  }

  // ----- Locators -----

  /** The slot byte, then the page; slots are bytes, and pages above three bytes are refused. */
  function EncodedLocator(w: Locator): (r: Result<seq<byte>>)
    ensures r.Accepted? ==> |r.value| == 4
  {
    if w.row < 256 && w.page < 0x100_0000 then Accepted([w.row] + LittleEndian(w.page, 3)) else Rejected
  }

  lemma ThreeBytes(field: seq<byte>)
    requires |field| == 3
    ensures FieldValues.Unsigned(field) == field[0] as int + 0x100 * field[1] as int + 0x1_0000 * field[2] as int
  {
    FieldValues.TwoBytes(field[1..]);
  }

  /** Reading a locator returns the written one, whatever surrounds its bytes. */
  lemma LocatorRoundTrip(before: seq<byte>, w: Locator, after: seq<byte>)
    requires EncodedLocator(w).Accepted?
    ensures LocatorAt(before + EncodedLocator(w).value + after, |before|) == w
  {
    hide FieldValues.Spelled, FieldValues.Unsigned;
    assert Pow256(3) == 0x100_0000;
    var page := LittleEndian(w.page, 3);
    FieldValues.SpelledUnsigned(w.page, 3);
    ThreeBytes(page);
    var raw, n := before + ([w.row] + page) + after, |before|;
    assert raw[n] == w.row && raw[n + 1] == page[0] && raw[n + 2] == page[1] && raw[n + 3] == page[2];
  }

  /** Every four bytes are the spelling of the locator read from them. */
  lemma LocatorSpelled(raw: seq<byte>, offset: nat)
    requires offset + 4 <= |raw|
    ensures EncodedLocator(LocatorAt(raw, offset)) == Accepted(raw[offset..offset + 4])
  {
    hide FieldValues.Spelled, FieldValues.Unsigned;
    var page := raw[offset + 1..offset + 4];
    FieldValues.UnsignedRoundTrip(page);
    ThreeBytes(page);
    assert raw[offset..offset + 4] == [raw[offset]] + page;
  }

  /** An overflow slot is followed to exactly the slot its four bytes name, if that is hidden and of the table. */
  lemma OverflowLinkFollowed(data: seq<byte>, pages: set<nat>, at: Locator, w: Locator)
    requires at.page in pages && SlotOf(data, at).Accepted? && SlotOf(data, at).value.overflow
    requires EncodedLocator(w) == Accepted(SlotOf(data, at).value.data)
    requires SlotOf(data, w).Accepted? ==> !SlotOf(data, w).value.overflow
    ensures Follow(data, pages, at, {})
            == if w.page in pages && SlotOf(data, w).Accepted? && SlotOf(data, w).value.hidden then Accepted([at, w])
               else Rejected
  {
    hide SlotOf, Places, LocatorAt;
    var row := SlotOf(data, at).value;
    LocatorRoundTrip([], w, []);
    assert [] + EncodedLocator(w).value + [] == row.data;
    FollowUnfolds(data, pages, at, {});
    if w.page in pages && SlotOf(data, w).Accepted? && SlotOf(data, w).value.hidden {
      FollowUnfolds(data, pages, w, {} + {at});
      assert [at] + [w] == [at, w];
    }
  }

  // ----- Values -----

  function ControlWord(length: nat, flag: nat, maximum: nat): (r: Result<nat>) {
    if length > maximum then Rejected else Accepted(flag * 0x100_0000 + length)
  }

  /** Header and payload of a value stored in its row. */
  function InlineValue(payload: seq<byte>): (r: Result<seq<byte>>) {
    var word :- ControlWord(|payload|, 0x80, MAX_LENGTH);
    Accepted(LittleEndian(word, 4) + seq(8, i => 0) + payload)
  }

  function IsNull(w: Locator): (r: bool) {
    w.page == 0 && w.row == 0
  }

  /** The header of a value that starts at `target`. */
  function ExternalHeader(length: nat, single: bool, target: Locator): (r: Result<seq<byte>>) {
    if length == 0 then Rejected
    else
      var word :- ControlWord(length, if single then 0x40 else 0, if single then MAX_ROW else MAX_LENGTH);
      if IsNull(target) then Rejected
      else
        var place :- EncodedLocator(target);
        Accepted(LittleEndian(word, 4) + place + seq(4, i => 0))
  }

  /** The payload cut into the largest fragments a row holds and a remainder. */
  function Fragments(payload: seq<byte>): (r: seq<seq<byte>>)
    ensures payload == [] <==> r == []
  {
    if payload == [] then []
    else if |payload| <= MAX_FRAGMENT then [payload]
    else [payload[..MAX_FRAGMENT]] + Fragments(payload[MAX_FRAGMENT..])
  }

  /** One row of a chain: where the next one is, then its fragment. */
  function ChainedRow(fragment: seq<byte>, next: Result<Locator>): (r: Result<seq<byte>>) {
    if fragment == [] || |fragment| > MAX_FRAGMENT then Rejected
    else if next.Rejected? then Accepted([0, 0, 0, 0] + fragment)
    else if IsNull(next.value) then Rejected
    else
      var place :- EncodedLocator(next.value);
      Accepted(place + fragment)
  }

  /** A header's control word read back. */
  lemma HeaderWord(length: nat, flag: byte, rest: seq<byte>)
    requires length <= MAX_LENGTH && |rest| >= 8
    ensures var field := LittleEndian(flag * 0x100_0000 + length, 4) + rest;
            |field| >= 12 && DeclaredLength(field) == length && Flags(field) == flag
  {
    hide FieldValues.Spelled, FieldValues.Unsigned;
    var word := flag * 0x100_0000 + length;
    assert Pow256(4) == 0x1_0000_0000;
    FieldValues.SpelledUnsigned(word, 4);
    var field := LittleEndian(word, 4) + rest;
    FieldValues.WordsUnsigned(field, 0);
    assert field[0..4] == LittleEndian(word, 4);
  }

  /** An inline value is read back from its row alone. */
  lemma InlineRoundTrip(data: seq<byte>, payload: seq<byte>, owned: set<nat>, reached: set<Locator>)
    requires InlineValue(payload).Accepted?
    ensures Payload(data, InlineValue(payload).value, owned, reached) == Accepted((payload, []))
  {
    hide FieldValues.Spelled, DeclaredLength, Flags;
    var rest := seq(8, i => 0) + payload;
    var field := InlineValue(payload).value;
    HeaderWord(|payload|, 0x80, rest);
    assert field == LittleEndian(0x80 * 0x100_0000 + |payload|, 4) + rest;
    assert field[4..8] == FOUR_ZEROS && field[8..12] == FOUR_ZEROS && field[12..] == payload;
  }

  lemma HeaderParts(length: nat, single: bool, target: Locator)
    requires ExternalHeader(length, single, target).Accepted?
    ensures var field := ExternalHeader(length, single, target).value;
            && length > 0 && |field| == 12 && field[8..12] == FOUR_ZEROS && LocatorAt(field, 4) == target
            && DeclaredLength(field) == length && Flags(field) == if single then 0x40 else 0
  {
    hide FieldValues.Spelled, DeclaredLength, Flags, LocatorAt;
    var flag: byte := if single then 0x40 else 0;
    var place := EncodedLocator(target).value;
    var word, rest := LittleEndian(flag * 0x100_0000 + length, 4), place + seq(4, i => 0);
    HeaderWord(length, flag, rest);
    LocatorRoundTrip(word, target, seq(4, i => 0));
    var field := ExternalHeader(length, single, target).value;
    assert field == word + rest && word + rest == word + place + seq(4, i => 0);
  }

  /** A single-page value is exactly the live row its header names, if that row has the declared length. */
  lemma SinglePageRoundTrip(data: seq<byte>, owned: set<nat>, length: nat, target: Locator, value: seq<byte>,
                            chain: seq<Locator>)
    requires ExternalHeader(length, true, target).Accepted?
    ensures Payload(data, ExternalHeader(length, true, target).value, owned, {}) == Accepted((value, chain))
            <==> target.page != 0 && Fragment(data, owned, target) == Accepted(value) && |value| == length
                 && chain == [target]
  {
    hide Fragment, LocatorAt, DeclaredLength, Flags, ExternalHeader;
    HeaderParts(length, true, target);
    var found := Chain(data, owned, true, target, {});
    if target.page != 0 && Fragment(data, owned, target).Accepted? {
      assert found == Accepted([target]);
      assert [target][..0] == [] && Spelled(data, owned, true, []) == [];
      var row := Fragment(data, owned, target).value;
      assert Piece(data, owned, true, target) == row;
      assert Spelled(data, owned, true, [target]) == [] + row == row;
      assert ChainValue(data, owned, true, target, {}, length)
          == if |row| == length then Accepted((row, [target])) else Rejected;
    }
  }

  /** The rows of a chain are stored where the writer put them, each naming the next. */
  ghost predicate ChainStored(data: seq<byte>, owned: set<nat>, fragments: seq<seq<byte>>, places: seq<Locator>)
    requires |fragments| == |places|
  {
    forall i: nat :: i < |places| ==> RowStored(data, owned, fragments, places, i)
  }

  /** The row written for fragment `i`. */
  function RowOf(fragments: seq<seq<byte>>, places: seq<Locator>, i: nat): (r: Result<seq<byte>>)
    requires |fragments| == |places| && i < |places|
  {
    ChainedRow(fragments[i], if i + 1 < |places| then Accepted(places[i + 1]) else Rejected)
  }

  ghost predicate RowStored(data: seq<byte>, owned: set<nat>, fragments: seq<seq<byte>>, places: seq<Locator>, i: nat)
    requires |fragments| == |places| && i < |places|
  {
    var row := RowOf(fragments, places, i);
    places[i].page != 0 && row.Accepted? && Fragment(data, owned, places[i]) == row
  }

  lemma ChainedRowParts(fragment: seq<byte>, next: Result<Locator>)
    requires ChainedRow(fragment, next).Accepted?
    ensures var row := ChainedRow(fragment, next).value;
            && |row| > 4 && row[4..] == fragment
               && LocatorAt(row, 0) == if next.Accepted? then next.value else Locator(0, 0)
  {
    hide FieldValues.Spelled;
    if next.Accepted? {
      LocatorRoundTrip([], next.value, fragment);
      assert [] + EncodedLocator(next.value).value + fragment == ChainedRow(fragment, next).value;
    }
  }

  lemma {:induction false} ChainLinked(data: seq<byte>, owned: set<nat>, fragments: seq<seq<byte>>,
                                       places: seq<Locator>)
    requires |fragments| == |places| > 0 && ChainStored(data, owned, fragments, places)
    ensures Linked(data, owned, false, places[0], places)
    decreases |places|
  {
    hide Fragment, LocatorAt, ChainedRow;
    assert RowStored(data, owned, fragments, places, 0);
    ChainedRowParts(fragments[0], if 1 < |places| then Accepted(places[1]) else Rejected);
    if |places| > 1 {
      forall i: nat | i < |places| - 1 ensures RowStored(data, owned, fragments[1..], places[1..], i) {
        assert RowStored(data, owned, fragments, places, i + 1);
      }
      ChainLinked(data, owned, fragments[1..], places[1..]);
      assert places == [places[0]] + places[1..];
    } else {
      assert places[1..] == [];
    }
  }

  lemma {:induction false} ChainSpelled(data: seq<byte>, owned: set<nat>, fragments: seq<seq<byte>>,
                                        places: seq<Locator>, k: nat)
    requires |fragments| == |places| && ChainStored(data, owned, fragments, places) && k <= |places|
    ensures Spelled(data, owned, false, places[..k]) == Concat(fragments[..k])
  {
    hide Fragment, ChainedRow;
    if k > 0 {
      var n := k - 1;
      ChainSpelled(data, owned, fragments, places, n);
      assert places[..k][..n] == places[..n] && fragments[..k][..n] == fragments[..n];
      assert RowStored(data, owned, fragments, places, n);
      ChainedRowParts(fragments[n], if n + 1 < |places| then Accepted(places[n + 1]) else Rejected);
    }
  }

  lemma {:induction false} FragmentsJoin(payload: seq<byte>)
    ensures Concat(Fragments(payload)) == payload
    ensures forall i :: 0 <= i < |Fragments(payload)| ==> 0 < |Fragments(payload)[i]| <= MAX_FRAGMENT
    decreases |payload|
  {
    if |payload| > MAX_FRAGMENT {
      var rest := Fragments(payload[MAX_FRAGMENT..]);
      FragmentsJoin(payload[MAX_FRAGMENT..]);
      ConcatCons(payload[..MAX_FRAGMENT], rest);
    } else if payload != [] {
      assert [payload][..0] == [] && Concat([payload]) == Concat([]) + payload;
    }
  }

  lemma {:induction false} ConcatCons(first: seq<byte>, rest: seq<seq<byte>>)
    ensures Concat([first] + rest) == first + Concat(rest)
  {
    var all := [first] + rest;
    if rest == [] {
      assert all[..0] == [] && Concat(all) == Concat([]) + first;
    } else {
      var n := |rest| - 1;
      ConcatCons(first, rest[..n]);
      assert all[..n + 1] == [first] + rest[..n];
    }
  }

  /** A chained value is read back as its payload, over exactly the rows it was written to, in order. */
  lemma ChainedRoundTrip(data: seq<byte>, owned: set<nat>, payload: seq<byte>, places: seq<Locator>)
    requires |places| == |Fragments(payload)| && ChainStored(data, owned, Fragments(payload), places)
    requires payload != [] && ExternalHeader(|payload|, false, places[0]).Accepted?
    ensures Payload(data, ExternalHeader(|payload|, false, places[0]).value, owned, {}) == Accepted((payload, places))
  {
    hide Fragment, LocatorAt, ChainedRow, ExternalHeader, DeclaredLength, Flags, Linked, Payload, ChainStored;
    var field := ExternalHeader(|payload|, false, places[0]).value;
    HeaderParts(|payload|, false, places[0]);
    ChainLinked(data, owned, Fragments(payload), places);
    ChainSpelled(data, owned, Fragments(payload), places, |places|);
    assert places[..|places|] == places && Fragments(payload)[..|places|] == Fragments(payload);
    FragmentsJoin(payload);
    PayloadExact(data, field, owned, {}, payload, places);
  }
}
