/**
 * The library's strict row reader (`RowLayout::validate` in crates/jet3/src/row/reader_layout.rs and `field`
 * in crates/jet3/src/row/reader.rs) against the writer and against the independent decoder `fields`.
 */
module RowReaders {
  import opened Bytes
  import opened RowLayout

  /** What the reader uses of a table definition: live columns, and storage counts that include deleted ones. */
  datatype Definition = Definition(storageColumns: nat, columns: seq<Column>, storageVariables: nat)

  datatype Layout = Layout(fixedBoundary: nat, trailer: Trailer, columnCount: byte, variableCount: byte)

  /** The live columns that a row of `count` columns stores. */
  function Stored(columns: seq<Column>, count: byte): (r: seq<Column>)
    ensures forall c :: c in r <==> c in columns && c.storageId < count
  {
    if columns == [] then []
    else
      var rest := Stored(columns[..|columns| - 1], count);
      var last := columns[|columns| - 1];
      if last.storageId < count then rest + [last] else rest
  }

  function FixedNeeded(columns: seq<Column>): (n: nat)
    ensures forall c :: c in columns && !c.boolean && c.storage.Fixed? ==> c.storage.offset + c.storage.size <= n
    ensures n == 0
            || exists c :: c in columns && !c.boolean && c.storage.Fixed? && c.storage.offset + c.storage.size == n
  {
    if columns == [] then 0
    else
      var rest, last := FixedNeeded(columns[..|columns| - 1]), columns[|columns| - 1];
      if !last.boolean && last.storage.Fixed? && last.storage.offset + last.storage.size > rest
      then last.storage.offset + last.storage.size
      else rest
  }

  function SlotsNeeded(columns: seq<Column>): (n: nat)
    ensures forall c :: c in columns && c.storage.Variable? ==> c.storage.slot < n
    ensures n == 0 || exists c :: c in columns && c.storage.Variable? && c.storage.slot + 1 == n
  {
    if columns == [] then 0
    else
      var rest, last := SlotsNeeded(columns[..|columns| - 1]), columns[|columns| - 1];
      if last.storage.Variable? && last.storage.slot + 1 > rest then last.storage.slot + 1 else rest
  }

  function MaximumLength(variables: nat): (n: nat) {
    if variables == 0 then 2003 else 2012
  }

  /** The definition as one row sees it. The number of slots is cast to a byte. */
  datatype Expectation = Expectation(deleted: bool, fixedBoundary: nat, slots: byte, maximum: nat)

  function Expected(d: Definition, count: byte): (e: Expectation) {
    var stored := Stored(d.columns, count);
    var deleted, slots := |stored| < count as int, SlotsNeeded(stored) % 256;
    Expectation(deleted, 1 + FixedNeeded(stored), slots, MaximumLength(if deleted then d.storageVariables else slots))
  }

  /** The checks before any trailer is looked at. */
  predicate Preamble(raw: seq<byte>, d: Definition) {
    && d.storageColumns < 256
    && raw != [] && raw[0] <= d.storageColumns
    && PresenceLength(raw) < |raw| <= Expected(d, raw[0]).maximum
  }

  predicate FixedAreaAccepted(raw: seq<byte>, e: Expectation)
    requires raw != [] && PresenceLength(raw) < |raw|
  {
    var nullStart := |raw| - PresenceLength(raw);
    && e.fixedBoundary <= nullStart
    && (e.deleted || nullStart == e.fixedBoundary || nullStart == if e.fixedBoundary < 3 then 3 else e.fixedBoundary)
  }

  predicate CountAccepted(d: Definition, e: Expectation, columnCount: byte, variableCount: byte) {
    && e.slots <= variableCount && variableCount <= columnCount
    && variableCount <= d.storageVariables
    && (e.deleted || variableCount == e.slots)
  }

  predicate BoundaryAccepted(e: Expectation, actual: nat) {
    e.fixedBoundary <= actual && (e.deleted || actual == e.fixedBoundary)
  }

  /** The trailer as the strict reader locates it; unlike `fields` it first allows an empty row before it. */
  function LocatedTrailer(raw: seq<byte>): (r: Result<Trailer>)
    requires raw != [] && PresenceLength(raw) < |raw|
    ensures r.Accepted? ==> 0 < |r.value.lows| <= 256 && |r.value.jumps| <= |raw|
  {
    var position := |raw| - PresenceLength(raw) - 1;
    var count, jumps := raw[position], (|raw| - 1) / 256;
    var start := position - (count + 1 + jumps);
    if start < 0 then Rejected
    else Accepted(Trailer(start, raw[start..start + count + 1], raw[start + count + 1..position]))
  }

  /** Field `i` starts before it ends and ends before the trailer. */
  predicate FieldOrdered(t: Trailer, i: nat)
    requires i + 1 < |t.lows|
  {
    StrictBound(t, i) <= StrictBound(t, i + 1) <= t.end
  }

  predicate TrailerAccepted(raw: seq<byte>, e: Expectation, t: Trailer)
    requires 0 < |t.lows| <= 256 && |t.jumps| <= |raw|
  {
    && JumpCount(|raw| - |t.jumps|) == |t.jumps|
    && (|t.lows| == 256 ==> t.lows[0] == t.end % 256)
    && BoundaryAccepted(e, StrictBound(t, 0))
    && (forall i :: 0 <= i < |t.lows| - 1 ==> FieldOrdered(t, i))
    && StrictBound(t, |t.lows| - 1) == t.end
    && (forall position: nat :: position < |t.jumps| ==> StrictJump(t, position))
  }

  function StrictLayout(raw: seq<byte>, d: Definition): (r: Result<Layout>) {
    if !Preamble(raw, d) then Rejected
    else
      var e := Expected(d, raw[0]);
      var nullStart := |raw| - PresenceLength(raw);
      if e.slots == 0 then
        if FixedAreaAccepted(raw, e)
        then Accepted(Layout(e.fixedBoundary, Trailer(nullStart, [], []), raw[0], 0))
        else Rejected
      else
        var t :- LocatedTrailer(raw);
        if CountAccepted(d, e, raw[0], raw[nullStart - 1]) && TrailerAccepted(raw, e, t)
        then Accepted(Layout(e.fixedBoundary, t, raw[0], raw[nullStart - 1]))
        else Rejected
  }

  /** The boundary loop of the strict reader: each field is ordered and ends before the trailer. */
  method CheckBounds(t: Trailer) returns (ok: bool)
    requires 0 < |t.lows| <= 256
    ensures ok <==>
            && (forall i :: 0 <= i < |t.lows| - 1 ==> FieldOrdered(t, i))
            && StrictBound(t, |t.lows| - 1) == t.end
  {
    hide StrictBound;
    var start := StrictBound(t, 0);
    for index := 0 to |t.lows| - 1
      invariant start == StrictBound(t, index)
      invariant forall i :: 0 <= i < index ==> FieldOrdered(t, i)
    {
      var end := StrictBound(t, index + 1);
      if start > end || end > t.end {
        assert !FieldOrdered(t, index);
        return false;
      }
      start := end;
    }
    return start == t.end;
  }

  method CheckJumps(t: Trailer) returns (ok: bool)
    requires |t.lows| <= 256
    ensures ok <==> forall position: nat :: position < |t.jumps| ==> StrictJump(t, position)
  {
    hide StrictJump;
    for position := 0 to |t.jumps|
      invariant forall p: nat :: p < position ==> StrictJump(t, p)
    {
      if !StrictJump(t, position) {
        return false;
      }
    }
    return true;
  }

  method ValidateTrailer(raw: seq<byte>, e: Expectation, t: Trailer) returns (ok: bool)
    requires 0 < |t.lows| <= 256 && |t.jumps| <= |raw|
    ensures ok <==> TrailerAccepted(raw, e, t)
  {
    hide StrictBound, StrictJump, FieldOrdered, JumpCount;
    if JumpCount(|raw| - |t.jumps|) != |t.jumps| || (|t.lows| == 256 && t.lows[0] != t.end % 256) {
      return false;
    }
    if !BoundaryAccepted(e, StrictBound(t, 0)) {
      return false;
    }
    ok := CheckBounds(t);
    if ok {
      ok := CheckJumps(t);
    }
  }

  method Validate(raw: seq<byte>, d: Definition) returns (r: Result<Layout>)
    ensures r == StrictLayout(raw, d)
  {
    hide Expected, TrailerAccepted, LocatedTrailer, FixedAreaAccepted, CountAccepted;
    if !Preamble(raw, d) {
      return Rejected;
    }
    var e, nullStart := Expected(d, raw[0]), |raw| - PresenceLength(raw);
    if e.slots == 0 {
      if !FixedAreaAccepted(raw, e) {
        return Rejected;
      }
      return Accepted(Layout(e.fixedBoundary, Trailer(nullStart, [], []), raw[0], 0));
    }
    var located := LocatedTrailer(raw);
    if located.Rejected? || !CountAccepted(d, e, raw[0], raw[nullStart - 1]) {
      return Rejected;
    }
    var ok := ValidateTrailer(raw, e, located.value);
    if !ok {
      return Rejected;
    }
    return Accepted(Layout(e.fixedBoundary, located.value, raw[0], raw[nullStart - 1]));
  }

  // ----- The strict reader accepts exactly what the writer writes -----

  /** The row is the writer's own spelling of its decoded boundaries, and its counts suit the definition. */
  ghost predicate WrittenFor(raw: seq<byte>, d: Definition)
    requires raw != [] && PresenceLength(raw) < |raw|
  {
    && Framing(raw).Accepted?
    && var t, e := Framing(raw).value, Expected(d, raw[0]);
       var bounds := Bounds(t);
       && 1 < |bounds| <= 256
       && CountAccepted(d, e, raw[0], |bounds| - 1)
       && BoundaryAccepted(e, bounds[0])
       && ValidBounds(bounds, t.end)
       && raw == WrittenRow(raw[..t.end], bounds, raw[|raw| - PresenceLength(raw)..])
  }

  lemma LocatedIsFramed(raw: seq<byte>)
    requires raw != [] && PresenceLength(raw) < |raw|
    ensures Framing(raw).Accepted? <==> raw[0] > 0 && LocatedTrailer(raw).Accepted? && LocatedTrailer(raw).value.end > 0
    ensures Framing(raw).Accepted? ==> Framing(raw) == LocatedTrailer(raw)
    ensures LocatedTrailer(raw).Accepted? ==>
              |LocatedTrailer(raw).value.lows| == raw[|raw| - PresenceLength(raw) - 1] as int + 1
  {
  }

  /** A stored variable column is stored below the row's own column count. */
  lemma SlotsMeanColumns(d: Definition, count: byte)
    requires Expected(d, count).slots > 0
    ensures count > 0
  {
    var stored := Stored(d.columns, count);
    var c :| c in stored && c.storage.Variable? && c.storage.slot + 1 == SlotsNeeded(stored);
  }

  /** Boundaries that start after the column count and end at the trailer leave room before it. */
  lemma {:induction false} BoundsLeaveRoom(t: Trailer, i: nat)
    requires 0 < |t.lows| && i < |t.lows|
    requires forall j :: 0 <= j < |t.lows| - 1 ==> StrictBound(t, j) <= StrictBound(t, j + 1)
    ensures StrictBound(t, 0) <= StrictBound(t, i)
  {
    hide StrictBound;
    if i > 0 {
      BoundsLeaveRoom(t, i - 1);
      assert StrictBound(t, i - 1) <= StrictBound(t, i - 1 + 1);
    }
  }

  lemma {:induction false} BoundsBelowEnd(t: Trailer, i: nat)
    requires 0 < |t.lows| && i < |t.lows|
    requires forall j :: 0 <= j < |t.lows| - 1 ==> StrictBound(t, j) <= StrictBound(t, j + 1)
    requires StrictBound(t, |t.lows| - 1) == t.end
    ensures StrictBound(t, i) <= t.end
    decreases |t.lows| - i
  {
    hide StrictBound;
    if i < |t.lows| - 1 {
      BoundsBelowEnd(t, i + 1);
      assert StrictBound(t, i) <= StrictBound(t, i + 1);
    }
  }

  lemma TrailerAcceptedIsStrict(raw: seq<byte>, d: Definition)
    requires Preamble(raw, d) && Expected(d, raw[0]).slots > 0
    ensures var e := Expected(d, raw[0]);
            (LocatedTrailer(raw).Accepted?
             && CountAccepted(d, e, raw[0], raw[|raw| - PresenceLength(raw) - 1])
             && TrailerAccepted(raw, e, LocatedTrailer(raw).value))
            <==>
            (StrictAccepted(raw)
             && CountAccepted(d, e, raw[0], |Framing(raw).value.lows| - 1)
             && BoundaryAccepted(e, StrictBound(Framing(raw).value, 0)))
  {
    hide StrictBound, StrictJump, Framing, LocatedTrailer, JumpCount, Expected;
    LocatedIsFramed(raw);
    SlotsMeanColumns(d, raw[0]);
    FixedBoundaryPositive(d, raw[0]);
    if LocatedTrailer(raw).Accepted? {
      var t := LocatedTrailer(raw).value;
      if StrictBound(t, |t.lows| - 1) == t.end {
        OrderedBounds(t);
      }
    }
  }

  /** Ordered fields that reach the trailer's start are nondecreasing boundaries, and conversely. */
  lemma OrderedBounds(t: Trailer)
    requires 0 < |t.lows| && StrictBound(t, |t.lows| - 1) == t.end
    ensures (forall i :: 0 <= i < |t.lows| - 1 ==> FieldOrdered(t, i)) <==>
            (forall i :: 0 <= i < |t.lows| - 1 ==> StrictBound(t, i) <= StrictBound(t, i + 1))
    ensures (forall i :: 0 <= i < |t.lows| - 1 ==> FieldOrdered(t, i)) ==> StrictBound(t, 0) <= t.end
  {
    hide StrictBound;
    if forall i :: 0 <= i < |t.lows| - 1 ==> FieldOrdered(t, i) {
      forall i | 0 <= i < |t.lows| - 1 ensures StrictBound(t, i) <= StrictBound(t, i + 1) {
        assert FieldOrdered(t, i);
      }
      BoundsLeaveRoom(t, |t.lows| - 1);
    }
    if forall i :: 0 <= i < |t.lows| - 1 ==> StrictBound(t, i) <= StrictBound(t, i + 1) {
      forall i | 0 <= i < |t.lows| - 1 ensures FieldOrdered(t, i) {
        BoundsBelowEnd(t, i + 1);
      }
    }
  }

  lemma FixedBoundaryPositive(d: Definition, count: byte)
    ensures Expected(d, count).fixedBoundary > 0
  {
  }

  /**
   * The strict reader accepts a row exactly when its counts suit the definition and, once a variable column
   * is stored, the row is byte for byte what the writer produces from the boundaries it decodes to.
   */
  lemma ValidatesExactly(raw: seq<byte>, d: Definition)
    ensures StrictLayout(raw, d).Accepted? <==>
            && Preamble(raw, d)
            && var e := Expected(d, raw[0]);
               if e.slots == 0 then FixedAreaAccepted(raw, e) else WrittenFor(raw, d)
  {
    hide StrictBound, StrictJump, Framing, LocatedTrailer, JumpCount, Expected, StrictAccepted, WrittenRow,
         TrailerAccepted;
    if Preamble(raw, d) && Expected(d, raw[0]).slots > 0 {
      TrailerAcceptedIsStrict(raw, d);
      LocatedIsFramed(raw);
      if Framing(raw).Accepted? {
        FirstBound(Framing(raw).value);
        if |Framing(raw).value.lows| > 1 {
          StrictIsCanonical(raw);
        }
      }
      StrictIsFramed(raw);
    }
  }

  lemma FirstBound(t: Trailer)
    requires t.lows != []
    ensures StrictBound(t, 0) == Bounds(t)[0]
  {
  }

  lemma StrictIsFramed(raw: seq<byte>)
    ensures StrictAccepted(raw) ==> Framing(raw).Accepted? && |Framing(raw).value.lows| > 1
  {
  }

  // ----- Acceptance in numbers -----

  /** A column of the row is no longer live. */
  predicate HasDeleted(d: Definition, count: byte) {
    |Stored(d.columns, count)| < count as int
  }

  /**
   * A row in which no live variable column is stored is accepted exactly when every stored fixed column fits, the row
   * is not too long, and, unless a column was deleted, nothing follows the fixed columns but padding to two bytes.
   */
  lemma StrictFixedRows(raw: seq<byte>, d: Definition)
    requires d.storageColumns < 256 && raw != []
    requires SlotsNeeded(Stored(d.columns, raw[0])) == 0
    ensures StrictLayout(raw, d).Accepted? <==>
            && raw[0] <= d.storageColumns
            && var area, needed := |raw| - 1 - (raw[0] as int + 7) / 8, FixedNeeded(Stored(d.columns, raw[0]));
               && needed <= area
               && |raw| <= (if HasDeleted(d, raw[0]) && d.storageVariables > 0 then 2012 else 2003)
               && (HasDeleted(d, raw[0]) || area == needed || (needed < 2 && area == 2))
  {
    hide Stored, SlotsNeeded, FixedNeeded, TrailerAccepted, LocatedTrailer;
  }

  /** The counts and the first boundary that suit the definition. */
  ghost predicate Suits(d: Definition, count: byte, bounds: seq<nat>) {
    var stored, fields := Stored(d.columns, count), |bounds| - 1;
    && SlotsNeeded(stored) <= fields <= count as int && fields <= d.storageVariables
    && 1 + FixedNeeded(stored) <= bounds[0]
    && (!HasDeleted(d, count) ==> fields == SlotsNeeded(stored) && bounds[0] == 1 + FixedNeeded(stored))
  }

  /** The row is what the writer makes of some data and boundaries that suit the definition. */
  ghost predicate MadeFor(raw: seq<byte>, d: Definition, data: seq<byte>, bounds: seq<nat>, presence: seq<byte>) {
    && Writable(data, bounds, presence) && raw == WrittenRow(data, bounds, presence)
    && data[0] <= d.storageColumns && |raw| <= 2012 && Suits(d, data[0], bounds)
  }

  lemma StrictRowIsMade(raw: seq<byte>, d: Definition)
    requires StrictLayout(raw, d).Accepted? && Expected(d, raw[0]).slots > 0
    requires SlotsNeeded(Stored(d.columns, raw[0])) < 256
    ensures exists data, bounds, presence :: MadeFor(raw, d, data, bounds, presence)
  {
    hide Stored, SlotsNeeded, FixedNeeded, StrictBound, StrictJump, JumpCount, WrittenRow, LocatedTrailer,
         TrailerAccepted, Bound;
    ValidatesExactly(raw, d);
    LocatedIsFramed(raw);
    FramingSizes(raw);
    var t := Framing(raw).value;
    var data, presence := raw[..t.end], raw[|raw| - PresenceLength(raw)..];
    assert data[0] == raw[0];
    FirstBound(t);
    assert MadeFor(raw, d, data, Bounds(t), presence);
  }

  lemma MadeFraming(data: seq<byte>, bounds: seq<nat>, presence: seq<byte>)
    requires Writable(data, bounds, presence)
    ensures var raw := WrittenRow(data, bounds, presence);
            && Framing(raw).Accepted? && Framing(raw).value.end == |data| && Bounds(Framing(raw).value) == bounds
  {
    hide WrittenRow, Framing, Bounds, LowBytes, JumpBytes, JumpCount, ValidBounds;
    TrailerRoundTrip(data, bounds, presence);
    FramingExact(data, bounds, presence);
  }

  lemma MadeRowIsStrict(raw: seq<byte>, d: Definition, data: seq<byte>, bounds: seq<nat>, presence: seq<byte>)
    requires MadeFor(raw, d, data, bounds, presence) && d.storageColumns < 256
    requires 0 < SlotsNeeded(Stored(d.columns, data[0])) < 256
    ensures raw != [] && raw[0] == data[0] && StrictLayout(raw, d).Accepted?
  {
    hide Stored, SlotsNeeded, FixedNeeded, Framing, Bounds, WrittenRow, LocatedTrailer, TrailerAccepted, StrictLayout,
         Bound;
    MadeShape(data, bounds, presence);
    MadeFraming(data, bounds, presence);
    WritableBounds(data, bounds, presence);
    ValidatesExactly(raw, d);
    assert raw[..|data|] == data;
  }

  lemma MadeShape(data: seq<byte>, bounds: seq<nat>, presence: seq<byte>)
    requires Writable(data, bounds, presence)
    ensures var raw := WrittenRow(data, bounds, presence);
            && raw != [] && raw[0] == data[0] && data <= raw && |presence| < |raw| && PresenceLength(raw) == |presence|
            && raw[|raw| - |presence|..] == presence
  {
    hide JumpBytes, JumpCount, LowBytes;
    WritableBounds(data, bounds, presence);
    var raw := WrittenRow(data, bounds, presence);
    assert data <= raw;
  }

  /** A row with live variable columns is accepted exactly when the writer makes it with suitable counts. */
  lemma StrictVariableRows(raw: seq<byte>, d: Definition)
    requires d.storageColumns < 256 && raw != []
    requires 0 < SlotsNeeded(Stored(d.columns, raw[0])) < 256
    ensures StrictLayout(raw, d).Accepted? <==>
            exists data, bounds, presence ::
              MadeFor(raw, d, data, bounds, presence) && data != [] && data[0] == raw[0]
  {
    hide Stored, SlotsNeeded, FixedNeeded, StrictLayout, MadeFor;
    if StrictLayout(raw, d).Accepted? {
      StrictRowIsMade(raw, d);
      var data, bounds, presence :| MadeFor(raw, d, data, bounds, presence);
      MadeStart(raw, d, data, bounds, presence);
    }
    if data, bounds, presence :| MadeFor(raw, d, data, bounds, presence) && data != [] && data[0] == raw[0] {
      MadeRowIsStrict(raw, d, data, bounds, presence);
    }
  }

  lemma MadeStart(raw: seq<byte>, d: Definition, data: seq<byte>, bounds: seq<nat>, presence: seq<byte>)
    requires MadeFor(raw, d, data, bounds, presence)
    ensures raw != [] && data != [] && data[0] == raw[0]
  {
    hide WrittenRow;
    MadeShape(data, bounds, presence);
  }

  // ----- Both readers agree -----

  /** `field`: the bytes the strict reader hands out for one column of an accepted row. */
  function StrictField(raw: seq<byte>, l: Layout, c: Column): (r: Result<FieldValue>)
    requires raw != [] && PresenceLength(raw) < |raw|
  {
    var present := IsPresent(raw[0], raw[|raw| - PresenceLength(raw)..], c.storageId);
    if c.boolean then Accepted(Flag(present))
    else if !present then Accepted(Absent)
    else
      match c.storage
      case Fixed(offset, size) => Accepted(Present(Slice(raw, 1 + offset, 1 + offset + size)))
      case Variable(slot) =>
        if slot + 1 < |l.trailer.lows|
        then Accepted(Present(Slice(raw, StrictBound(l.trailer, slot), StrictBound(l.trailer, slot + 1))))
        else Rejected
  }

  lemma AcceptedTrailer(raw: seq<byte>, d: Definition)
    requires StrictLayout(raw, d).Accepted? && Expected(d, raw[0]).slots > 0
    ensures var t, e := StrictLayout(raw, d).value.trailer, Expected(d, raw[0]);
            && DecodedBounds(raw) == Accepted(Bounds(t)) && Bounds(t) != [] && |t.lows| <= 256
            && e.fixedBoundary <= Bounds(t)[0]
            && 0 < d.storageVariables
  {
    hide StrictBound, StrictJump, LocatedTrailer, JumpCount, Expected, WrittenRow, TrailerAccepted, Bound;
    ValidatesExactly(raw, d);
    LocatedIsFramed(raw);
    var t := Framing(raw).value;
    var data, presence := raw[..t.end], raw[|raw| - PresenceLength(raw)..];
    FramingSizes(raw);
    assert data[0] == raw[0];
    TrailerRoundTrip(data, Bounds(t), presence);
  }

  /** A stored fixed column lies below the fixed boundary the definition asks for. */
  lemma StoredFixedFits(d: Definition, count: byte, c: Column)
    requires c in d.columns && !c.boolean && c.storage.Fixed? && c.storageId < count
    ensures 1 + c.storage.offset + c.storage.size <= Expected(d, count).fixedBoundary
  {
    assert c in Stored(d.columns, count);
  }

  lemma FieldsAgree(raw: seq<byte>, d: Definition, c: Column)
    requires StrictLayout(raw, d).Accepted? && c in d.columns
    requires Expected(d, raw[0]).slots > 0
    ensures var l := StrictLayout(raw, d).value;
            && Bounds(l.trailer) != []
            && ReadField(raw, Bounds(l.trailer), Bounds(l.trailer)[0], c) == StrictField(raw, l, c)
  {
    hide StrictLayout, Expected, Slice, PlainBound, DecodedBounds;
    AcceptedTrailer(raw, d);
    StrictLayoutPreamble(raw, d);
    if !c.boolean && c.storage.Fixed? && c.storageId < raw[0] {
      StoredFixedFits(d, raw[0], c);
    }
  }

  lemma StrictLayoutPreamble(raw: seq<byte>, d: Definition)
    requires StrictLayout(raw, d).Accepted?
    ensures raw != [] && PresenceLength(raw) < |raw|
  {
  }

  /** What the decoder returns for every column, as the strict reader would hand it out. */
  ghost predicate AgreesOn(raw: seq<byte>, l: Layout, columns: seq<Column>, read: Result<seq<FieldValue>>)
    requires raw != [] && PresenceLength(raw) < |raw|
  {
    && (read.Accepted? <==> forall i :: 0 <= i < |columns| ==> StrictField(raw, l, columns[i]).Accepted?)
    && (read.Accepted? ==>
          && |read.value| == |columns|
          && forall i :: 0 <= i < |columns| ==> StrictField(raw, l, columns[i]) == Accepted(read.value[i]))
  }

  lemma {:induction false} ReadFieldsAgree(raw: seq<byte>, l: Layout, bounds: seq<nat>, fixedEnd: nat,
                                           columns: seq<Column>)
    requires raw != [] && PresenceLength(raw) < |raw|
    requires forall i :: 0 <= i < |columns| ==>
               ReadField(raw, bounds, fixedEnd, columns[i]) == StrictField(raw, l, columns[i])
    ensures AgreesOn(raw, l, columns, ReadFields(raw, bounds, fixedEnd, columns))
  {
    hide ReadField, StrictField;
    if columns != [] {
      var n := |columns| - 1;
      forall i | 0 <= i < n
        ensures ReadField(raw, bounds, fixedEnd, columns[..n][i]) == StrictField(raw, l, columns[..n][i])
      {
        assert columns[..n][i] == columns[i];
      }
      ReadFieldsAgree(raw, l, bounds, fixedEnd, columns[..n]);
      assert forall i :: 0 <= i < n ==> columns[..n][i] == columns[i];
    }
  }

  /** Rows that store a variable column, and rows of tables that never had one. */
  lemma FramedReadersAgree(raw: seq<byte>, d: Definition)
    requires StrictLayout(raw, d).Accepted? && raw[0] > 0
    requires Expected(d, raw[0]).slots > 0 || d.storageVariables == 0
    ensures PresenceLength(raw) < |raw|
    ensures AgreesOn(raw, StrictLayout(raw, d).value, d.columns, Fields(raw, d.columns, d.storageVariables))
  {
    hide ReadFields, ReadField, StrictField, Expected, DecodedBounds, AgreesOn, Bounds;
    StrictLayoutPreamble(raw, d);
    var l := StrictLayout(raw, d).value;
    if Expected(d, raw[0]).slots > 0 {
      AcceptedTrailer(raw, d);
      forall i | 0 <= i < |d.columns|
        ensures ReadField(raw, Bounds(l.trailer), Bounds(l.trailer)[0], d.columns[i])
                == StrictField(raw, l, d.columns[i])
      {
        FieldsAgree(raw, d, d.columns[i]);
      }
      ReadFieldsAgree(raw, l, Bounds(l.trailer), Bounds(l.trailer)[0], d.columns);
    } else {
      var fixedEnd := |raw| - PresenceLength(raw);
      forall i | 0 <= i < |d.columns|
        ensures ReadField(raw, [], fixedEnd, d.columns[i]) == StrictField(raw, l, d.columns[i])
      {
        FixedOnlyAgrees(raw, d, d.columns[i]);
      }
      ReadFieldsAgree(raw, l, [], fixedEnd, d.columns);
    }
  }

  lemma FixedOnlyAgrees(raw: seq<byte>, d: Definition, c: Column)
    requires StrictLayout(raw, d).Accepted? && Expected(d, raw[0]).slots == 0 && c in d.columns
    ensures PresenceLength(raw) < |raw|
    ensures ReadField(raw, [], |raw| - PresenceLength(raw), c) == StrictField(raw, StrictLayout(raw, d).value, c)
  {
    hide Expected, Slice;
    if !c.boolean && c.storage.Fixed? && c.storageId < raw[0] {
      StoredFixedFits(d, raw[0], c);
    }
  }

  predicate ColumnPresent(raw: seq<byte>, c: Column)
    requires raw != [] && PresenceLength(raw) < |raw|
  {
    !c.boolean && IsPresent(raw[0], raw[|raw| - PresenceLength(raw)..], c.storageId)
  }

  /** A present fixed column ends at the first boundary and a present variable column has its slot. */
  predicate ColumnInside(raw: seq<byte>, c: Column, bounds: seq<nat>, fixedEnd: nat)
    requires raw != [] && PresenceLength(raw) < |raw|
  {
    ColumnPresent(raw, c) ==>
      if c.storage.Fixed? then 1 + c.storage.offset + c.storage.size <= fixedEnd else c.storage.slot + 1 < |bounds|
  }

  /** The decoder accepts the fields exactly when every present column lies inside the boundaries. */
  lemma {:induction false} FieldsReadExactly(raw: seq<byte>, l: Layout, bounds: seq<nat>, fixedEnd: nat,
                                             columns: seq<Column>)
    requires raw != [] && PresenceLength(raw) < |raw|
    ensures var read := ReadFields(raw, bounds, fixedEnd, columns);
            && (read.Accepted? <==> forall i :: 0 <= i < |columns| ==> ColumnInside(raw, columns[i], bounds, fixedEnd))
            && (read.Accepted? ==>
                  && |read.value| == |columns|
                  && forall i :: 0 <= i < |columns| ==>
                       (ColumnPresent(raw, columns[i]) && columns[i].storage.Variable?)
                       || StrictField(raw, l, columns[i]) == Accepted(read.value[i]))
  {
    hide IsPresent, Slice;
    if columns != [] {
      var n := |columns| - 1;
      FieldsReadExactly(raw, l, bounds, fixedEnd, columns[..n]);
      assert forall i :: 0 <= i < n ==> columns[..n][i] == columns[i];
    }
  }

  ghost predicate NoVariablePresent(raw: seq<byte>, columns: seq<Column>)
    requires raw != [] && PresenceLength(raw) < |raw|
  {
    forall i :: 0 <= i < |columns| ==> !(ColumnPresent(raw, columns[i]) && columns[i].storage.Variable?)
  }

  /** The row ends in a trailer whose boundaries leave every present column alone. */
  ghost predicate TrailerFits(raw: seq<byte>, columns: seq<Column>)
    requires raw != [] && PresenceLength(raw) < |raw|
  {
    var bounds := DecodedBounds(raw);
    && bounds.Accepted? && bounds.value != []
    && forall i :: 0 <= i < |columns| ==> ColumnInside(raw, columns[i], bounds.value, bounds.value[0])
  }

  /**
   * A row in which the strict reader looks for no variable column, in a table that once had some: the decoder
   * takes its last bytes for a trailer, accepts exactly when they spell one that leaves every present column
   * alone, and then returns the same fixed fields.
   */
  lemma FixedOnlyReadersAgree(raw: seq<byte>, d: Definition)
    requires StrictLayout(raw, d).Accepted? && Expected(d, raw[0]).slots == 0 && d.storageVariables > 0
    ensures PresenceLength(raw) < |raw|
    ensures var read, l := Fields(raw, d.columns, d.storageVariables), StrictLayout(raw, d).value;
            && (read.Accepted? <==> raw[0] > 0 && TrailerFits(raw, d.columns))
            && ((forall i :: 0 <= i < |d.columns| ==> StrictField(raw, l, d.columns[i]).Accepted?)
                <==> NoVariablePresent(raw, d.columns))
            && (NoVariablePresent(raw, d.columns) ==> (AgreesOn(raw, l, d.columns, read) <==> read.Accepted?))
  {
    hide ReadFields, Expected, DecodedBounds, ColumnInside, IsPresent, Slice;
    StrictLayoutPreamble(raw, d);
    assert StrictLayout(raw, d).value.trailer.lows == [];
    if raw[0] > 0 && DecodedBounds(raw).Accepted? {
      DecodedBoundsNonempty(raw);
      var bounds := DecodedBounds(raw).value;
      FieldsReadExactly(raw, StrictLayout(raw, d).value, bounds, bounds[0], d.columns);
    }
  }

  lemma {:induction false} NothingStored(columns: seq<Column>)
    ensures Stored(columns, 0) == []
  {
    if columns != [] {
      NothingStored(columns[..|columns| - 1]);
    }
  }

  /** Rows of no column at all: the strict reader takes those of one and three bytes, the decoder takes none. */
  lemma ZeroColumnRows(raw: seq<byte>, d: Definition, columns: seq<Column>, highWater: nat)
    requires raw != [] && raw[0] == 0
    ensures StrictLayout(raw, d).Accepted? <==> d.storageColumns < 256 && |raw| in {1, 3}
    ensures Fields(raw, columns, highWater).Rejected?
  {
    NothingStored(d.columns);
    assert Expected(d, 0) == Expectation(false, 1, 0, 2003);
  }

  lemma ZeroColumnFields(raw: seq<byte>, l: Layout, columns: seq<Column>)
    requires raw != [] && raw[0] == 0
    ensures forall i :: 0 <= i < |columns| ==> StrictField(raw, l, columns[i]).Accepted?
  {
  }

  /**
   * The readers agree on a row that the strict reader accepts exactly when it has a column and either stores a
   * variable column, or its table never had one, or the trailer that the decoder looks for is there exactly
   * when the strict reader can hand out every column.
   */
  lemma ReadersAgree(raw: seq<byte>, d: Definition)
    requires StrictLayout(raw, d).Accepted?
    ensures PresenceLength(raw) < |raw|
    ensures AgreesOn(raw, StrictLayout(raw, d).value, d.columns, Fields(raw, d.columns, d.storageVariables))
            <==> && raw[0] > 0
                 && (|| Expected(d, raw[0]).slots > 0 || d.storageVariables == 0
                     || (TrailerFits(raw, d.columns) <==> NoVariablePresent(raw, d.columns)))
  {
    hide Fields, StrictField, Expected, TrailerFits, NoVariablePresent, StrictLayout;
    StrictLayoutPreamble(raw, d);
    if raw[0] == 0 {
      ZeroColumnRows(raw, d, d.columns, d.storageVariables);
      ZeroColumnFields(raw, StrictLayout(raw, d).value, d.columns);
    } else if Expected(d, raw[0]).slots > 0 || d.storageVariables == 0 {
      FramedReadersAgree(raw, d);
    } else {
      FixedOnlyReadersAgree(raw, d);
    }
  }

  /** While every slot number is below 255, as definitions guarantee, a row without slots has no variable field. */
  lemma NoSlotsNoVariables(raw: seq<byte>, d: Definition)
    requires StrictLayout(raw, d).Accepted? && Expected(d, raw[0]).slots == 0
    requires forall i :: 0 <= i < |d.columns| && d.columns[i].storage.Variable? ==> d.columns[i].storage.slot < 255
    ensures PresenceLength(raw) < |raw| && NoVariablePresent(raw, d.columns)
  {
    hide IsPresent, StrictLayout, Stored, SlotsNeeded, FixedNeeded;
    StrictLayoutPreamble(raw, d);
    var stored := Stored(d.columns, raw[0]);
    assert SlotsNeeded(stored) < 256;
    forall i | 0 <= i < |d.columns| ensures !(ColumnPresent(raw, d.columns[i]) && d.columns[i].storage.Variable?) {
      PresentIsStored(raw, d.columns[i]);
      assert d.columns[i].storageId < raw[0] ==> d.columns[i] in stored;
    }
  }

  lemma PresentIsStored(raw: seq<byte>, c: Column)
    requires raw != [] && PresenceLength(raw) < |raw|
    ensures ColumnPresent(raw, c) ==> c.storageId < raw[0]
  {
  }

  /** The shortest row on which the readers part. */
  lemma ZeroColumnsPart(d: Definition)
    requires d.storageColumns < 256
    ensures StrictLayout([0], d).Accepted? && Fields([0], d.columns, d.storageVariables).Rejected?
  {
    ZeroColumnRows([0], d, d.columns, d.storageVariables);
  }

  /** The readers do part: one row that `fields` refuses is accepted by the strict reader. */
  lemma ReadersPart()
    ensures var raw, d := [1, 7, 3, 1], Definition(2, [Column(0, false, Fixed(0, 2))], 1);
            && StrictLayout(raw, d).Accepted?
            && StrictField(raw, StrictLayout(raw, d).value, d.columns[0]) == Accepted(Present([7, 3]))
            && Fields(raw, d.columns, d.storageVariables).Rejected?
  {
    var raw: seq<byte>, d := [1, 7, 3, 1], Definition(2, [Column(0, false, Fixed(0, 2))], 1);
    DeletedVariableColumn();
    assert RecordBytes(Record(1, [7, 3], [], [1])) == raw;
    assert d.columns[..0] == [];
    assert Stored(d.columns, 1) == d.columns;
    assert Expected(d, 1) == Expectation(false, 3, 0, 2003);
    assert raw[3..] == [1] && IsPresent(1, [1], 0);
    assert Slice(raw, 1, 3) == [7, 3];
  }
}
