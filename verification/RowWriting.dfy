/**
 * The library's row writer from column values (`write_row` and `validate` in crates/jet3/src/row/writer.rs and
 * writer_layout.rs, for columns that carry their storage ordinals) against both row readers.
 *
 * Each value sets one bit of the null map and lands at its offset or in its variable slot; the decoder returns
 * the values by column, and the strict reader accepts the row.
 */
module RowWriting {
  import opened Bytes
  import opened RowLayout
  import RowReaders

  // ----- The null map -----

  function At(flags: seq<bool>, i: nat): (on: bool) {
    i < |flags| && flags[i]
  }

  /** The number whose low bits are the flags from `i` on, the first one in the lowest bit. */
  function PackFrom(flags: seq<bool>, i: nat, width: nat): (n: nat)
    ensures n < Pow2(width)
    decreases width
  {
    if width == 0 then 0 else (if At(flags, i) then 1 else 0) + 2 * PackFrom(flags, i + 1, width - 1)
  }

  /** One bit for each flag, eight to a byte. */
  function NullMap(flags: seq<bool>): (r: seq<byte>)
    ensures |r| == (|flags| + 7) / 8
  {
    Pow2Of8();
    seq((|flags| + 7) / 8, k requires 0 <= k => PackFrom(flags, 8 * k, 8))
  }

  lemma {:induction false} PackedBit(flags: seq<bool>, i: nat, width: nat, j: nat)
    ensures Bit(PackFrom(flags, i, width), j) <==> j < width && At(flags, i + j)
    decreases width
  {
    if width == 0 {
      ZeroHasNoBits(j);
    } else if j > 0 {
      PackedBit(flags, i + 1, width - 1, j - 1);
    }
  }

  /** A column is present exactly when its flag is set. */
  lemma NullMapRead(flags: seq<bool>, id: nat)
    requires |flags| < 256
    ensures IsPresent(|flags|, NullMap(flags), id) <==> id < |flags| && flags[id]
  {
    if id < |flags| {
      PackedBit(flags, 8 * (id / 8), 8, id % 8);
    }
  }

  /** A row given by its flags reads back per flag. */
  lemma FlaggedRowRoundTrip(flags: seq<bool>, fixed: seq<byte>, variables: seq<seq<byte>>, columns: seq<Column>,
                            variableHighWater: nat, i: nat)
    requires 0 < |flags| < 256 && |variables| <= 255 && i < |columns|
    ensures var raw := RecordBytes(Record(|flags|, fixed, variables, NullMap(flags)));
            var read, c := Fields(raw, columns, variableHighWater), columns[i];
            read.Accepted? ==>
              && |read.value| == |columns|
              && (c.boolean ==> read.value[i] == Flag(At(flags, c.storageId)))
              && (!c.boolean && !At(flags, c.storageId) ==> read.value[i] == Absent)
              && (!c.boolean && At(flags, c.storageId) ==>
                    match c.storage
                    case Fixed(offset, size) =>
                      offset + size <= |fixed| ==> read.value[i] == Present(fixed[offset..offset + size])
                    case Variable(slot) => slot < |variables| ==> read.value[i] == Present(variables[slot]))
  {
    hide Fields, RecordBytes, IsPresent;
    var r := Record(|flags|, fixed, variables, NullMap(flags));
    NullMapRead(flags, columns[i].storageId);
    RowRoundTrip(r, columns, variableHighWater);
  }

  // ----- Values the writer stores -----

  /** A Boolean has no bytes, a fixed value has its width, and other values go to their slot. */
  predicate ValueFits(c: Column, v: FieldValue) {
    if c.boolean then c.storage.Fixed? && !v.Present?
    else !v.Flag? && (v.Present? && c.storage.Fixed? ==> |v.data| == c.storage.size)
  }

  predicate Overlap(a: Column, b: Column) {
    && !a.boolean && !b.boolean && a.storage.Fixed? && b.storage.Fixed?
    && a.storage.offset < b.storage.offset + b.storage.size && b.storage.offset < a.storage.offset + a.storage.size
  }

  predicate SameSlot(a: Column, b: Column) {
    a.storage.Variable? && b.storage.Variable? && a.storage.slot == b.storage.slot
  }

  /** Storage ids grow, fixed areas and slots are apart, and every value fits its column. */
  predicate Storable(columns: seq<Column>, values: seq<FieldValue>) {
    && |columns| <= 255 && |values| == |columns|
    && (forall i :: 0 <= i < |columns| ==> columns[i].storageId < 255 && ValueFits(columns[i], values[i]))
    && (forall i :: 0 <= i < |columns| && columns[i].storage.Variable? ==> columns[i].storage.slot < 255)
    && (forall i, j :: 0 <= i < j < |columns| ==> columns[i].storageId < columns[j].storageId)
    && (forall i, j :: 0 <= i < j < |columns| ==> !Overlap(columns[i], columns[j]) && !SameSlot(columns[i], columns[j]))
  }

  /** Whether the value sets its bit. */
  function Sets(v: FieldValue): (on: bool) {
    v.Present? || (v.Flag? && v.on)
  }

  function ColumnCount(columns: seq<Column>): (n: nat) {
    if columns == [] then 0 else columns[|columns| - 1].storageId + 1
  }

  /** Some column with this storage id sets its bit. */
  predicate SetsId(columns: seq<Column>, values: seq<FieldValue>, id: nat)
    requires |values| == |columns|
  {
    exists i :: 0 <= i < |columns| && columns[i].storageId == id && Sets(values[i])
  }

  function Flags(columns: seq<Column>, values: seq<FieldValue>): (r: seq<bool>)
    requires |values| == |columns|
    ensures |r| == ColumnCount(columns)
  {
    seq(ColumnCount(columns), id requires 0 <= id => SetsId(columns, values, id))
  }

  /** Rows without variable columns keep at least two fixed bytes. */
  function FixedSize(columns: seq<Column>): (n: nat) {
    var needed := FixedArea(columns);
    if RowReaders.SlotsNeeded(columns) == 0 && needed < 2 then 2 else needed
  }

  function FixedArea(columns: seq<Column>): (n: nat) {
    RowReaders.FixedNeeded(columns)
  }

  /** Byte `p` of the fixed area belongs to a present value. */
  ghost predicate Covered(columns: seq<Column>, values: seq<FieldValue>, p: nat)
    requires |values| == |columns|
  {
    exists i :: 0 <= i < |columns| && !columns[i].boolean && values[i].Present? && InArea(columns[i], p)
  }

  predicate InArea(c: Column, p: nat) {
    c.storage.Fixed? && c.storage.offset <= p < c.storage.offset + c.storage.size
  }

  ghost predicate Filled(columns: seq<Column>, values: seq<FieldValue>, slot: nat)
    requires |values| == |columns|
  {
    exists i :: 0 <= i < |columns| && columns[i].storage == Variable(slot) && values[i].Present?
  }

  /** Where value `i` is in the record. */
  ghost predicate Placed(c: Column, v: FieldValue, fixed: seq<byte>, variables: seq<seq<byte>>) {
    !c.boolean && v.Present? ==>
      match c.storage
      case Fixed(offset, size) => offset + size <= |fixed| && fixed[offset..offset + size] == v.data
      case Variable(slot) => slot < |variables| && variables[slot] == v.data
  }

  /** The record of the values: every present value at its place, zeros and empty slots elsewhere. */
  ghost predicate Written(columns: seq<Column>, values: seq<FieldValue>, r: Record)
    requires |values| == |columns|
  {
    && ColumnCount(columns) < 256 && r.count == ColumnCount(columns)
    && r.presence == NullMap(Flags(columns, values))
    && |r.fixed| == FixedSize(columns) && |r.variables| == RowReaders.SlotsNeeded(columns)
    && (forall i :: 0 <= i < |columns| ==> Placed(columns[i], values[i], r.fixed, r.variables))
    && (forall p: nat :: p < |r.fixed| && !Covered(columns, values, p) ==> r.fixed[p] == 0)
    && (forall slot: nat :: slot < |r.variables| && !Filled(columns, values, slot) ==> r.variables[slot] == [])
  }

  /** A Boolean without a value reads as false. */
  function ReadBack(columns: seq<Column>, values: seq<FieldValue>): (r: seq<FieldValue>)
    requires |values| == |columns|
    ensures |r| == |columns|
  {
    seq(|columns|, i requires 0 <= i < |columns| =>
      if columns[i].boolean && values[i].Absent? then Flag(false) else values[i])
  }

  // ----- Reading the written row -----

  lemma FlagOf(columns: seq<Column>, values: seq<FieldValue>, i: nat)
    requires Storable(columns, values) && i < |columns|
    ensures columns[i].storageId < ColumnCount(columns) <= 255
    ensures Flags(columns, values)[columns[i].storageId] == Sets(values[i])
  {
    var id := columns[i].storageId;
    var n := |columns| - 1;
    assert i < n ==> columns[i].storageId < columns[n].storageId;
    if SetsId(columns, values, id) {
      var k :| 0 <= k < |columns| && columns[k].storageId == id && Sets(values[k]);
      assert k == i;
    }
  }

  lemma WrittenColumn(columns: seq<Column>, values: seq<FieldValue>, r: Record, i: nat)
    requires Storable(columns, values) && Written(columns, values, r) && ValidRecord(r) && i < |columns|
    ensures ColumnFits(r, columns[i]) && StoredValue(r, columns[i]) == ReadBack(columns, values)[i]
  {
    hide IsPresent, Flags, NullMap, Storable;
    StorableAt(columns, values, i);
    FlagOf(columns, values, i);
    NullMapRead(Flags(columns, values), columns[i].storageId);
    assert Placed(columns[i], values[i], r.fixed, r.variables);
  }

  lemma StorableAt(columns: seq<Column>, values: seq<FieldValue>, i: nat)
    requires Storable(columns, values) && i < |columns|
    ensures |values| == |columns| && ValueFits(columns[i], values[i]) && columns[i].storageId < 255
  {
  }

  lemma OneValueEach(columns: seq<Column>, values: seq<FieldValue>)
    requires Storable(columns, values)
    ensures |values| == |columns|
  {
  }

  lemma NoIds()
    ensures forall id: nat :: !SetsId([], [], id)
  {
  }

  lemma SlotsBounded(columns: seq<Column>, values: seq<FieldValue>)
    requires Storable(columns, values)
    ensures RowReaders.SlotsNeeded(columns) <= 255
  {
  }

  lemma WrittenIsValid(columns: seq<Column>, values: seq<FieldValue>, r: Record)
    requires Storable(columns, values) && Written(columns, values, r) && columns != []
    ensures ValidRecord(r) && |values| == |columns|
  {
    SlotsBounded(columns, values);
  }

  /** The decoder returns every value in its own column. */
  lemma WrittenRowReads(columns: seq<Column>, values: seq<FieldValue>, r: Record, variableHighWater: nat)
    requires Storable(columns, values) && Written(columns, values, r) && columns != []
    requires variableHighWater > 0 <==> RowReaders.SlotsNeeded(columns) > 0
    ensures ValidRecord(r)
    ensures RowLayout.Fields(RecordBytes(r), columns, variableHighWater) == Accepted(ReadBack(columns, values))
  {
    hide Storable, Written, RowLayout.Fields, RecordBytes, ColumnFits, StoredValue;
    WrittenIsValid(columns, values, r);
    WrittenSlots(columns, values, r);
    forall i | 0 <= i < |columns|
      ensures ColumnFits(r, columns[i]) && StoredValue(r, columns[i]) == ReadBack(columns, values)[i]
    {
      WrittenColumn(columns, values, r, i);
    }
    AgreeingRowRoundTrip(r, columns, variableHighWater);
    RowRoundTrip(r, columns, variableHighWater);
    assert Fields(RecordBytes(r), columns, variableHighWater).value == ReadBack(columns, values);
  }

  lemma WrittenSlots(columns: seq<Column>, values: seq<FieldValue>, r: Record)
    requires Storable(columns, values) && Written(columns, values, r)
    ensures |r.variables| == RowReaders.SlotsNeeded(columns) && |r.fixed| == FixedSize(columns)
    ensures r.count == ColumnCount(columns)
  {
  }

  // ----- The writer -----

  /** The loop over columns and values: null-map bits and fixed bytes in place, variable values by slot. */
  method PlaceValues(columns: seq<Column>, values: seq<FieldValue>)
    returns (presence: seq<byte>, fixed: seq<byte>, variables: seq<seq<byte>>)
    requires Storable(columns, values)
    ensures presence == NullMap(Flags(columns, values))
    ensures |fixed| == FixedSize(columns) && |variables| == RowReaders.SlotsNeeded(columns)
    ensures forall i :: 0 <= i < |columns| ==> Placed(columns[i], values[i], fixed, variables)
    ensures forall p: nat :: p < |fixed| && !Covered(columns, values, p) ==> fixed[p] == 0
    ensures forall slot: nat :: slot < |variables| && !Filled(columns, values, slot) ==> variables[slot] == []
  {
    presence := PlaceBits(columns, values);
    fixed := PlaceFixed(columns, values);
    variables := PlaceVariables(columns, values);
    forall i | 0 <= i < |columns| ensures Placed(columns[i], values[i], fixed, variables) {
      StorableAt(columns, values, i);
    }
  }

  /** One bit of the null map for every present value. */
  method PlaceBits(columns: seq<Column>, values: seq<FieldValue>) returns (presence: seq<byte>)
    requires Storable(columns, values)
    ensures presence == NullMap(Flags(columns, values))
  {
    hide Bit, PutByteBit, SetsId, Storable, NullMap, Flags;
    OneValueEach(columns, values);
    NoIds();
    var bits := new byte[32](i => 0);
    forall id: nat | id < 256 ensures !Bit(bits[id / 8], id % 8) {
      ZeroHasNoBits(id % 8);
    }
    for i := 0 to |columns|
      invariant forall id: nat :: id < 256 ==>
                  (Bit(bits[id / 8], id % 8) <==> SetsId(columns[..i], values[..i], id))
    {
      StorableAt(columns, values, i);
      var id := columns[i].storageId;
      forall other: nat
        ensures SetsId(columns[..i + 1], values[..i + 1], other)
                <==> SetsId(columns[..i], values[..i], other) || (other == id && Sets(values[i]))
      {
        MoreIds(columns, values, i, other);
      }
      ghost var before := bits[..];
      if Sets(values[i]) {
        bits[id / 8] := PutByteBit(bits[id / 8], id % 8, true);
        forall other: nat | other < 256
          ensures Bit(bits[other / 8], other % 8) <==> other == id || Bit(before[other / 8], other % 8)
        {
          assert other == 8 * (other / 8) + other % 8 && id == 8 * (id / 8) + id % 8;
        }
      }
    }
    assert columns[..|columns|] == columns && values[..|values|] == values;
    CountBounded(columns, values);
    presence := bits[..(ColumnCount(columns) + 7) / 8];
    MapIsNullMap(bits[..], columns, values);
  }

  lemma CountBounded(columns: seq<Column>, values: seq<FieldValue>)
    requires Storable(columns, values)
    ensures ColumnCount(columns) <= 255
    ensures forall id: nat :: SetsId(columns, values, id) ==> id < ColumnCount(columns)
  {
    if columns != [] {
      var n := |columns| - 1;
      forall i | 0 <= i < n ensures columns[i].storageId < columns[n].storageId {
      }
    }
  }

  lemma MoreIds(columns: seq<Column>, values: seq<FieldValue>, i: nat, id: nat)
    requires i < |columns| == |values|
    ensures SetsId(columns[..i + 1], values[..i + 1], id)
            <==> SetsId(columns[..i], values[..i], id) || (id == columns[i].storageId && Sets(values[i]))
  {
    var c, v, d, w := columns[..i + 1], values[..i + 1], columns[..i], values[..i];
    assert c[i] == columns[i] && v[i] == values[i];
    assert forall k :: 0 <= k < i ==> c[k] == d[k] && v[k] == w[k];
    if SetsId(d, w, id) {
      var k :| 0 <= k < |d| && d[k].storageId == id && Sets(w[k]);
      assert c[k].storageId == id && Sets(v[k]);
    }
    if SetsId(c, v, id) {
      var k :| 0 <= k < |c| && c[k].storageId == id && Sets(v[k]);
      assert k < i ==> d[k].storageId == id && Sets(w[k]);
    }
  }

  lemma MapIsNullMap(bits: seq<byte>, columns: seq<Column>, values: seq<FieldValue>)
    requires Storable(columns, values) && |bits| == 32
    requires forall id: nat :: id < 256 ==> (Bit(bits[id / 8], id % 8) <==> SetsId(columns, values, id))
    ensures ColumnCount(columns) <= 255 && bits[..(ColumnCount(columns) + 7) / 8] == NullMap(Flags(columns, values))
  {
    hide Bit, SetsId, Storable, PackFrom;
    OneValueEach(columns, values);
    CountBounded(columns, values);
    var flags := Flags(columns, values);
    forall k | 0 <= k < |NullMap(flags)| ensures bits[k] == NullMap(flags)[k] {
      forall j: nat | j < 8 ensures Bit(bits[k], j) == Bit(NullMap(flags)[k], j) {
        var id := 8 * k + j;
        PackedBit(flags, 8 * k, 8, j);
        assert id / 8 == k && id % 8 == j;
      }
      Pow2Of8();
      BitsDetermine(bits[k], NullMap(flags)[k], 8);
    }
  }

  /** Fixed values over a zero-filled area; areas of different columns are apart. */
  method PlaceFixed(columns: seq<Column>, values: seq<FieldValue>) returns (fixed: seq<byte>)
    requires Storable(columns, values)
    ensures |fixed| == FixedSize(columns)
    ensures forall i :: 0 <= i < |columns| && columns[i].storage.Fixed? ==> Placed(columns[i], values[i], fixed, [])
    ensures forall p: nat :: p < |fixed| && !Covered(columns, values, p) ==> fixed[p] == 0
  {
    hide Storable, FixedSize;
    OneValueEach(columns, values);
    var area := new byte[FixedSize(columns)](i => 0);
    for i := 0 to |columns|
      invariant forall k :: 0 <= k < i && columns[k].storage.Fixed? ==> Placed(columns[k], values[k], area[..], [])
      invariant forall p: nat :: p < area.Length && !Covered(columns, values, p) ==> area[p] == 0
    {
      StorableAt(columns, values, i);
      var c, v := columns[i], values[i];
      if c.storage.Fixed? && !c.boolean && v.Present? {
        FixedRoom(columns, values, i);
        ghost var before := area[..];
        PutAt(area, c.storage.offset, v.data);
        forall k | 0 <= k < i && columns[k].storage.Fixed? ensures Placed(columns[k], values[k], area[..], []) {
          StillPlaced(columns, values, k, i, before, area[..]);
        }
        assert forall p: nat :: InArea(c, p) ==> Covered(columns, values, p);
      }
    }
    fixed := area[..];
  }

  method PutAt(area: array<byte>, offset: nat, data: seq<byte>)
    requires offset + |data| <= area.Length
    modifies area
    ensures area[offset..offset + |data|] == data
    ensures forall p :: 0 <= p < area.Length && !(offset <= p < offset + |data|) ==> area[p] == old(area[p])
  {
    forall p | 0 <= p < |data| {
      area[offset + p] := data[p];
    }
  }

  lemma FixedRoom(columns: seq<Column>, values: seq<FieldValue>, i: nat)
    requires Storable(columns, values) && i < |columns|
    requires columns[i].storage.Fixed? && !columns[i].boolean && values[i].Present?
    ensures columns[i].storage.offset + columns[i].storage.size <= FixedSize(columns)
    ensures |values[i].data| == columns[i].storage.size
  {
    StorableAt(columns, values, i);
    assert columns[i] in columns;
  }

  lemma StillPlaced(columns: seq<Column>, values: seq<FieldValue>, k: nat, i: nat, before: seq<byte>, after: seq<byte>)
    requires Storable(columns, values) && k < i < |columns| && |before| == |after|
    requires columns[i].storage.Fixed? && !columns[i].boolean && columns[k].storage.Fixed?
    requires Placed(columns[k], values[k], before, [])
    requires forall p: nat :: p < |before| ==> InArea(columns[i], p) || after[p] == before[p]
    ensures Placed(columns[k], values[k], after, [])
  {
    assert !Overlap(columns[k], columns[i]);
    StorableAt(columns, values, k);
    if !columns[k].boolean && values[k].Present? {
      var offset, size := columns[k].storage.offset, columns[k].storage.size;
      assert after[offset..offset + size] == before[offset..offset + size];
    }
  }

  /** Variable values by slot; slots without a value stay empty. */
  method PlaceVariables(columns: seq<Column>, values: seq<FieldValue>) returns (variables: seq<seq<byte>>)
    requires Storable(columns, values)
    ensures |variables| == RowReaders.SlotsNeeded(columns)
    ensures forall i :: 0 <= i < |columns| && columns[i].storage.Variable? && values[i].Present? ==>
              columns[i].storage.slot < |variables| && variables[columns[i].storage.slot] == values[i].data
    ensures forall slot: nat :: slot < |variables| && !Filled(columns, values, slot) ==> variables[slot] == []
  {
    hide Storable;
    OneValueEach(columns, values);
    variables := seq(RowReaders.SlotsNeeded(columns), i => []);
    for i := 0 to |columns|
      invariant |variables| == RowReaders.SlotsNeeded(columns)
      invariant forall k :: 0 <= k < i && columns[k].storage.Variable? && values[k].Present? ==>
                  columns[k].storage.slot < |variables| && variables[columns[k].storage.slot] == values[k].data
      invariant forall slot: nat :: slot < |variables| && !Filled(columns, values, slot) ==> variables[slot] == []
    {
      if columns[i].storage.Variable? && values[i].Present? {
        assert columns[i] in columns;
        OtherSlots(columns, values, i);
        assert Filled(columns, values, columns[i].storage.slot);
        variables := variables[columns[i].storage.slot := values[i].data];
      }
    }
  }

  lemma OtherSlots(columns: seq<Column>, values: seq<FieldValue>, i: nat)
    requires Storable(columns, values) && i < |columns|
    ensures forall k :: 0 <= k < i ==> !SameSlot(columns[k], columns[i])
  {
  }

  /** `encode_row`: checks, then writes count, fixed area, variable values, trailer and null map. */
  method EncodeRow(columns: seq<Column>, values: seq<FieldValue>) returns (row: Result<seq<byte>>, ghost r: Record)
    ensures !Storable(columns, values) ==> row.Rejected?
    ensures Storable(columns, values) && columns == [] ==> row == Accepted([0, 0, 0])
    ensures Storable(columns, values) && columns != [] ==>
              && ValidRecord(r) && Written(columns, values, r)
              && row == if |RecordBytes(r)| <= RowReaders.MaximumLength(RowReaders.SlotsNeeded(columns))
                        then Accepted(RecordBytes(r)) else Rejected
  {
    hide NullMap, Flags, WrittenRow;
    r := Record(0, [], [], []);
    if !Storable(columns, values) {
      return Rejected, r;
    }
    if columns == [] {
      return Accepted([0, 0, 0]), r;
    }
    var presence, fixed, variables := PlaceValues(columns, values);
    CountBounded(columns, values);
    SlotsBounded(columns, values);
    var made := Record(ColumnCount(columns), fixed, variables, presence);
    r := made;
    var bytes;
    if variables == [] {
      bytes := RecordData(made) + presence;
    } else {
      bytes := WriteRow(RecordData(made), Offsets(made), presence);
    }
    if |bytes| > RowReaders.MaximumLength(RowReaders.SlotsNeeded(columns)) {
      return Rejected, r;
    }
    return Accepted(bytes), r;
  }

  // ----- The strict reader -----

  function WrittenDefinition(columns: seq<Column>): (d: RowReaders.Definition) {
    RowReaders.Definition(ColumnCount(columns), columns, RowReaders.SlotsNeeded(columns))
  }

  lemma {:induction false} AllStored(columns: seq<Column>, count: byte)
    requires forall c :: c in columns ==> c.storageId < count
    ensures RowReaders.Stored(columns, count) == columns
  {
    if columns != [] {
      var n := |columns| - 1;
      assert columns == columns[..n] + [columns[n]];
      AllStored(columns[..n], count);
    }
  }

  lemma WrittenExpectation(columns: seq<Column>, values: seq<FieldValue>)
    requires Storable(columns, values)
    ensures ColumnCount(columns) <= 255
    ensures var e := RowReaders.Expected(WrittenDefinition(columns), ColumnCount(columns));
            && e.fixedBoundary == 1 + FixedArea(columns) && e.slots == RowReaders.SlotsNeeded(columns)
            && e.maximum == RowReaders.MaximumLength(RowReaders.SlotsNeeded(columns))
  {
    hide RowReaders.Stored, RowReaders.FixedNeeded, RowReaders.SlotsNeeded;
    CountBounded(columns, values);
    SlotsBounded(columns, values);
    forall c | c in columns ensures c.storageId < ColumnCount(columns) {
      var i :| 0 <= i < |columns| && columns[i] == c;
      FlagOf(columns, values, i);
    }
    AllStored(columns, ColumnCount(columns));
  }

  /** A written row is framed by its own data and boundaries. */
  lemma WrittenFraming(r: Record)
    requires ValidRecord(r) && r.variables != []
    ensures var raw := RecordBytes(r);
            && Framing(raw).Accepted? && Bounds(Framing(raw).value) == Offsets(r)
            && Framing(raw).value.end == |RecordData(r)| && ValidBounds(Offsets(r), |RecordData(r)|)
            && raw[..|RecordData(r)|] == RecordData(r)
  {
    hide WrittenRow, Bounds, Framing, Offsets, Concat;
    RecordWritable(r);
    RecordShape(r);
    TrailerRoundTrip(RecordData(r), Offsets(r), r.presence);
  }

  /** The strict reader accepts a written row exactly when it has no more variable slots than columns. */
  lemma WrittenRowValidates(columns: seq<Column>, values: seq<FieldValue>, r: Record)
    requires Storable(columns, values) && Written(columns, values, r) && columns != []
    requires ValidRecord(r) && |RecordBytes(r)| <= RowReaders.MaximumLength(RowReaders.SlotsNeeded(columns))
    ensures RowReaders.StrictLayout(RecordBytes(r), WrittenDefinition(columns)).Accepted?
            <==> RowReaders.SlotsNeeded(columns) <= ColumnCount(columns)
  {
    hide Storable, Written, RecordBytes, RowReaders.Expected, RowReaders.StrictLayout, WrittenRow, Framing, Bounds,
         Offsets, ValidBounds, FixedArea, RowReaders.SlotsNeeded;
    var raw, d := RecordBytes(r), WrittenDefinition(columns);
    WrittenSlots(columns, values, r);
    WrittenExpectation(columns, values);
    RecordShape(r);
    RowReaders.ValidatesExactly(raw, d);
    if r.variables != [] {
      WrittenFraming(r);
      WrittenBytes(r);
      FirstOffset(r);
    }
  }

  lemma FirstOffset(r: Record)
    ensures Offsets(r)[0] == 1 + |r.fixed|
  {
    assert r.variables[..0] == [];
  }

  lemma WrittenBytes(r: Record)
    requires ValidRecord(r) && r.variables != []
    ensures RecordBytes(r) == WrittenRow(RecordData(r), Offsets(r), r.presence)
  {
  }
}
