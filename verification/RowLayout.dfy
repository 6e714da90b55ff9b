/**
 * Stored rows: the variable-field trailer as the Rust writer emits it (crates/jet3/src/row/writer.rs,
 * writer_layout.rs), as the independent decoder reads it (`fields` in oracle/windows-dao/structure.py)
 * and as the strict Rust reader validates it (crates/jet3/src/row/reader_layout.rs).
 *
 * A row is a column count, fixed fields, variable fields, then the low bytes of the field boundaries in
 * reverse, one jump byte per 256-byte block from the highest block down, the variable count and the
 * presence bits. A jump byte names the first boundary that reaches its block, or 255 for none.
 */
module RowLayout {
  import opened Bytes

  // ----- Writing -----

  /** The smallest trailer satisfying length <= 256 * (jumps + 1). */
  function JumpCount(lengthWithoutJumps: nat): (n: nat) {
    if lengthWithoutJumps <= 256 then 0 else (lengthWithoutJumps - 256 + 254) / 255
  }

  /** Nondecreasing boundaries of at most 255 variable fields, ending where the data ends. */
  ghost predicate ValidBounds(bounds: seq<nat>, end: nat) {
    && 0 < |bounds| <= 256
    && (forall i, j :: 0 <= i <= j < |bounds| ==> bounds[i] <= bounds[j])
    && bounds[|bounds| - 1] == end
  }

  function LowBytes(bounds: seq<nat>): (r: seq<byte>)
    ensures |r| == |bounds|
    ensures forall i :: 0 <= i < |bounds| ==> r[i] == bounds[|bounds| - 1 - i] % 256
  {
    seq(|bounds|, i requires 0 <= i < |bounds| => bounds[|bounds| - 1 - i] % 256)
  }

  /** The first ordinal whose boundary reaches `threshold`, or the number of boundaries. */
  function FirstReaching(bounds: seq<nat>, threshold: nat): (r: nat)
    ensures r <= |bounds|
    ensures forall i :: 0 <= i < r ==> bounds[i] < threshold
    ensures r < |bounds| ==> bounds[r] >= threshold
  {
    if bounds == [] || bounds[0] >= threshold then 0 else 1 + FirstReaching(bounds[1..], threshold)
  }

  function JumpByte(bounds: seq<nat>, block: nat): (b: byte)
    requires |bounds| <= 256
  {
    var first := FirstReaching(bounds, 256 * block);
    if first < |bounds| then first else 255
  }

  /** Jump bytes of blocks `blocks` down to 1. */
  function JumpBytes(bounds: seq<nat>, blocks: nat): (r: seq<byte>)
    requires |bounds| <= 256
    ensures |r| == blocks
  {
    if blocks == 0 then [] else [JumpByte(bounds, blocks)] + JumpBytes(bounds, blocks - 1)
  }

  function LengthWithoutJumps(data: seq<byte>, bounds: seq<nat>, presence: seq<byte>): (n: nat) {
    |data| + |bounds| + 1 + |presence|
  }

  /** The complete row around `data`, whose first byte is the column count. */
  function WrittenRow(data: seq<byte>, bounds: seq<nat>, presence: seq<byte>): (r: seq<byte>)
    requires 0 < |bounds| <= 256
  {
    data + LowBytes(bounds) + JumpBytes(bounds, JumpCount(LengthWithoutJumps(data, bounds, presence)))
    + [|bounds| - 1] + presence
  }

  method WriteLowBytes(bounds: seq<nat>) returns (r: seq<byte>)
    ensures r == LowBytes(bounds)
  {
    r := [];
    var ordinal := |bounds|;
    while ordinal > 0
      invariant 0 <= ordinal <= |bounds|
      invariant r == LowBytes(bounds)[..|bounds| - ordinal]
    {
      ordinal := ordinal - 1;
      r := r + [bounds[ordinal] % 256];
    }
  }

  method FindReaching(bounds: seq<nat>, threshold: nat) returns (position: nat)
    ensures position == FirstReaching(bounds, threshold)
  {
    position := 0;
    while position < |bounds| && bounds[position] < threshold
      invariant 0 <= position <= |bounds|
      invariant FirstReaching(bounds, threshold) == position + FirstReaching(bounds[position..], threshold)
    {
      assert bounds[position..][1..] == bounds[position + 1..];
      position := position + 1;
    }
  }

  method WriteJumpBytes(bounds: seq<nat>, jumps: nat) returns (r: seq<byte>)
    requires |bounds| <= 256
    ensures r == JumpBytes(bounds, jumps)
  {
    hide FirstReaching;
    r := [];
    var block := jumps;
    while block > 0
      invariant 0 <= block <= jumps
      invariant r + JumpBytes(bounds, block) == JumpBytes(bounds, jumps)
    {
      var position := FindReaching(bounds, 256 * block);
      var jump: byte := if position < |bounds| then position else 255;
      assert r + JumpBytes(bounds, block) == r + [jump] + JumpBytes(bounds, block - 1);
      r := r + [jump];
      block := block - 1;
    }
  }

  method WriteRow(data: seq<byte>, bounds: seq<nat>, presence: seq<byte>) returns (row: seq<byte>)
    requires 0 < |bounds| <= 256
    ensures row == WrittenRow(data, bounds, presence)
  {
    var lows := WriteLowBytes(bounds);
    var jumps := WriteJumpBytes(bounds, JumpCount(LengthWithoutJumps(data, bounds, presence)));
    row := data + lows + jumps + [|bounds| - 1] + presence;
  }

  // ----- Reading -----

  /** How many jumps apply to boundary `i`. */
  function JumpsUpTo(jumps: seq<byte>, i: nat): (n: nat) {
    if jumps == [] then 0
    else (if jumps[0] != 255 && jumps[0] <= i then 1 else 0) + JumpsUpTo(jumps[1..], i)
  }

  datatype Trailer = Trailer(end: nat, lows: seq<byte>, jumps: seq<byte>)

  function PresenceLength(raw: seq<byte>): (n: nat)
    requires raw != []
  {
    PresenceLengthOf(raw[0])
  }

  function PresenceLengthOf(count: byte): (n: nat) {
    (count as int + 7) / 8
  }

  /** The framing found from the end of the row: presence, variable count, jumps and low bytes. */
  function Framing(raw: seq<byte>): (r: Result<Trailer>) {
    if raw == [] || raw[0] == 0 || |raw| <= PresenceLength(raw) then Rejected
    else
      var position := |raw| - PresenceLength(raw) - 1;
      var count, jumps := raw[position], (|raw| - 1) / 256;
      var end := position - jumps - count - 1;
      if end < 1 then Rejected
      else Accepted(Trailer(end, raw[end..end + count + 1], raw[end + count + 1..position]))
  }

  /** Boundary `i` from its low byte and the jumps at or below it. */
  function PlainBound(t: Trailer, i: nat): (n: nat)
    requires i < |t.lows|
  {
    t.lows[|t.lows| - 1 - i] as int + 256 * JumpsUpTo(t.jumps, i)
  }

  /** As `PlainBound`, but the last of 255 fields ends where the trailer starts. */
  function Bound(t: Trailer, i: nat): (n: nat)
    requires i < |t.lows|
  {
    if |t.lows| == 256 && i == 255 then t.end else PlainBound(t, i)
  }

  function Bounds(t: Trailer): (r: seq<nat>)
    ensures |r| == |t.lows| && forall i :: 0 <= i < |r| ==> r[i] == Bound(t, i)
  {
    seq(|t.lows|, i requires 0 <= i < |t.lows| => Bound(t, i))
  }

  predicate Ascends(s: seq<nat>) {
    forall i :: 0 <= i < |s| - 1 ==> s[i] <= s[i + 1]
  }

  function DecodedBounds(raw: seq<byte>): (r: Result<seq<nat>>) {
    var t :- Framing(raw);
    var bounds := Bounds(t);
    if bounds == [] || bounds[|bounds| - 1] != t.end || !Ascends(bounds) then Rejected else Accepted(bounds)
  }

  // ----- The writer's length is self-consistent -----

  /** Counting the jumps from the finished length gives the number that was written. */
  lemma JumpCountConsistent(n: nat)
    requires n > 0
    ensures (n + JumpCount(n) - 1) / 256 == JumpCount(n)
  {
  }

  // ----- Jump bytes count blocks -----

  /** Below the sentinel's own ordinal a jump byte applies exactly to the boundaries that reach its block. */
  lemma JumpApplies(bounds: seq<nat>, block: nat, i: nat)
    requires |bounds| <= 256 && i < |bounds| && i < 255
    requires forall j, k :: 0 <= j <= k < |bounds| ==> bounds[j] <= bounds[k]
    ensures JumpByte(bounds, block) != 255 && JumpByte(bounds, block) <= i <==> bounds[i] >= 256 * block
  {
    var first := FirstReaching(bounds, 256 * block);
    if first <= i {
      assert bounds[first] <= bounds[i];
    }
  }

  lemma {:induction false} JumpsCountBlocks(bounds: seq<nat>, blocks: nat, i: nat)
    requires |bounds| <= 256 && i < |bounds| && i < 255
    requires forall j, k :: 0 <= j <= k < |bounds| ==> bounds[j] <= bounds[k]
    ensures JumpsUpTo(JumpBytes(bounds, blocks), i) == if bounds[i] / 256 <= blocks then bounds[i] / 256 else blocks
  {
    if blocks > 0 {
      JumpsCountBlocks(bounds, blocks - 1, i);
      JumpApplies(bounds, blocks, i);
    }
  }

  /** Ordinal 255 is the sentinel, so its own jumps are lost and only those of ordinal 254 remain. */
  lemma {:induction false} SentinelLosesJumps(bounds: seq<nat>, blocks: nat)
    requires |bounds| == 256
    ensures JumpsUpTo(JumpBytes(bounds, blocks), 255) == JumpsUpTo(JumpBytes(bounds, blocks), 254)
  {
    if blocks > 0 {
      SentinelLosesJumps(bounds, blocks - 1);
    }
  }

  // ----- Writing then reading -----

  ghost predicate Writable(data: seq<byte>, bounds: seq<nat>, presence: seq<byte>) {
    data != [] && data[0] > 0 && |presence| == (data[0] as int + 7) / 8 && ValidBounds(bounds, |data|)
  }

  lemma WritableBounds(data: seq<byte>, bounds: seq<nat>, presence: seq<byte>)
    requires Writable(data, bounds, presence)
    ensures 0 < |bounds| <= 256
  {
  }

  lemma FramingExact(data: seq<byte>, bounds: seq<nat>, presence: seq<byte>)
    requires Writable(data, bounds, presence)
    ensures var blocks := JumpCount(LengthWithoutJumps(data, bounds, presence));
            && Framing(WrittenRow(data, bounds, presence))
               == Accepted(Trailer(|data|, LowBytes(bounds), JumpBytes(bounds, blocks)))
            && |data| / 256 <= blocks
  {
    hide JumpBytes, JumpCount, ValidBounds, LowBytes;
    WritableBounds(data, bounds, presence);
    var raw := WrittenRow(data, bounds, presence);
    var length := LengthWithoutJumps(data, bounds, presence);
    var blocks := JumpCount(length);
    JumpCountConsistent(length);
    assert raw[0] == data[0] && |raw| == length + blocks;
    var position := |raw| - |presence| - 1;
    assert raw[position] == |bounds| - 1;
    assert raw[|data|..|data| + |bounds|] == LowBytes(bounds);
    assert raw[|data| + |bounds|..position] == JumpBytes(bounds, blocks);
  }

  /** Every list of boundaries of at most 255 variable fields survives the trailer. */
  lemma TrailerRoundTrip(data: seq<byte>, bounds: seq<nat>, presence: seq<byte>)
    requires Writable(data, bounds, presence)
    ensures DecodedBounds(WrittenRow(data, bounds, presence)) == Accepted(bounds)
  {
    hide JumpBytes, JumpCount, WrittenRow, Framing, Bound, LengthWithoutJumps;
    FramingExact(data, bounds, presence);
    var blocks := JumpCount(LengthWithoutJumps(data, bounds, presence));
    var t := Trailer(|data|, LowBytes(bounds), JumpBytes(bounds, blocks));
    forall i | 0 <= i < |bounds| ensures Bound(t, i) == bounds[i] {
      BoundExact(data, bounds, blocks, i);
    }
    assert Bounds(t) == bounds;
  }

  lemma BoundExact(data: seq<byte>, bounds: seq<nat>, blocks: nat, i: nat)
    requires ValidBounds(bounds, |data|) && |data| / 256 <= blocks && i < |bounds|
    ensures Bound(Trailer(|data|, LowBytes(bounds), JumpBytes(bounds, blocks)), i) == bounds[i]
  {
    assert bounds[i] <= bounds[|bounds| - 1];
    if i < 255 {
      JumpsCountBlocks(bounds, blocks, i);
    }
  }

  /** The override is needed exactly when the last of 255 fields crosses into a new 256-byte block. */
  lemma SentinelExactly(data: seq<byte>, bounds: seq<nat>, presence: seq<byte>, i: nat)
    requires Writable(data, bounds, presence) && i < |bounds|
    ensures var t := Framing(WrittenRow(data, bounds, presence)).value;
            && |t.lows| == |bounds|
            && (PlainBound(t, i) != bounds[i] <==> i == 255 && bounds[254] / 256 < bounds[255] / 256)
  {
    hide JumpBytes, JumpCount, WrittenRow, Framing, LengthWithoutJumps, JumpsUpTo;
    FramingExact(data, bounds, presence);
    var blocks := JumpCount(LengthWithoutJumps(data, bounds, presence));
    assert bounds[i] <= bounds[|bounds| - 1];
    if i < 255 {
      JumpsCountBlocks(bounds, blocks, i);
    } else {
      SentinelLosesJumps(bounds, blocks);
      JumpsCountBlocks(bounds, blocks, 254);
      assert bounds[254] <= bounds[255];
    }
  }

  // ----- The strict reader -----

  /** The Rust reader's boundary: ordinal 255 is always the trailer's start. */
  function StrictBound(t: Trailer, i: nat): (n: nat)
    requires i < |t.lows|
  {
    if i == 255 then t.end else PlainBound(t, i)
  }

  predicate StrictJump(t: Trailer, position: nat)
    requires position < |t.jumps| && |t.lows| <= 256
  {
    var threshold, jump := 256 * (|t.jumps| - position), t.jumps[position];
    if jump == 255 then
      t.end < threshold || (|t.lows| == 256 && StrictBound(t, 254) < threshold)
    else
      && jump < |t.lows|
      && StrictBound(t, jump) >= threshold
      && (jump == 0 || StrictBound(t, jump - 1) < threshold)
  }

  /** The trailer checks of `RowLayout::validate` for a row that stores variable fields. */
  predicate StrictAccepted(raw: seq<byte>) {
    var framing := Framing(raw);
    && framing.Accepted?
    && var t := framing.value;
       && 1 < |t.lows|
       && JumpCount(|raw| - |t.jumps|) == |t.jumps|
       && (|t.lows| == 256 ==> t.lows[0] == t.end % 256)
       && (forall i :: 0 <= i < |t.lows| - 1 ==> StrictBound(t, i) <= StrictBound(t, i + 1))
       && StrictBound(t, |t.lows| - 1) == t.end
       && (forall position: nat :: position < |t.jumps| ==> StrictJump(t, position))
  }

  lemma {:induction false} AscendsTransitively(s: seq<nat>, i: nat, j: nat)
    requires Ascends(s) && i <= j < |s|
    ensures s[i] <= s[j]
  {
    if i < j {
      AscendsTransitively(s, i, j - 1);
    }
  }

  lemma {:induction false} JumpBytesAt(bounds: seq<nat>, blocks: nat, position: nat)
    requires |bounds| <= 256 && position < blocks
    ensures JumpBytes(bounds, blocks)[position] == JumpByte(bounds, blocks - position)
  {
    if position > 0 {
      JumpBytesAt(bounds, blocks - 1, position - 1);
    }
  }

  lemma StrictJumpIsWritten(t: Trailer, position: nat)
    requires |t.lows| <= 256 && position < |t.jumps| && StrictJump(t, position)
    requires ValidBounds(Bounds(t), t.end)
    ensures t.jumps[position] == JumpByte(Bounds(t), |t.jumps| - position)
  {
    hide FirstReaching, PlainBound;
    var bounds, threshold := Bounds(t), 256 * (|t.jumps| - position);
    var jump, first := t.jumps[position], FirstReaching(bounds, threshold);
    if jump == 255 {
      assert bounds[|bounds| - 1] == t.end;
      if first < |bounds| {
        assert bounds[first] <= bounds[|bounds| - 1];
      }
    } else {
      assert bounds[jump] == StrictBound(t, jump) >= threshold;
      assert jump > 0 ==> bounds[jump - 1] == StrictBound(t, jump - 1) < threshold;
    }
  }

  /** The strict reader accepts a row exactly when the writer would produce it from the decoded boundaries. */
  lemma StrictIsCanonical(raw: seq<byte>)
    requires Framing(raw).Accepted? && 1 < |Framing(raw).value.lows|
    ensures var t := Framing(raw).value;
            StrictAccepted(raw) <==>
              && ValidBounds(Bounds(t), t.end)
              && raw == WrittenRow(raw[..t.end], Bounds(t), raw[|raw| - PresenceLength(raw)..])
  {
    var t := Framing(raw).value;
    if StrictAccepted(raw) {
      StrictRowIsWritten(raw);
    }
    var data, presence := raw[..t.end], raw[|raw| - PresenceLength(raw)..];
    if ValidBounds(Bounds(t), t.end) && raw == WrittenRow(data, Bounds(t), presence) {
      WrittenRowIsStrict(data, Bounds(t), presence);
    }
  }

  lemma StrictBoundsValid(raw: seq<byte>)
    requires StrictAccepted(raw)
    ensures var t := Framing(raw).value;
            ValidBounds(Bounds(t), t.end) && |t.lows| <= 256 && LowBytes(Bounds(t)) == t.lows
  {
    hide PlainBound, Framing, JumpCount, StrictJump;
    FramingSizes(raw);
    var t := Framing(raw).value;
    var bounds := Bounds(t);
    forall i | 0 <= i < |bounds| - 1 ensures bounds[i] <= bounds[i + 1] {
      assert StrictBound(t, i) <= StrictBound(t, i + 1);
    }
    forall i, j | 0 <= i <= j < |bounds| ensures bounds[i] <= bounds[j] {
      AscendsTransitively(bounds, i, j);
    }
    forall i | 0 <= i < |t.lows| ensures LowBytes(bounds)[i] == t.lows[i] {
      LowOfBound(t, |t.lows| - 1 - i);
    }
  }

  lemma LowOfBound(t: Trailer, i: nat)
    requires i < |t.lows|
    ensures PlainBound(t, i) % 256 == t.lows[|t.lows| - 1 - i]
  {
  }

  lemma FramingSizes(raw: seq<byte>)
    requires Framing(raw).Accepted?
    ensures var t := Framing(raw).value;
            && raw != [] && PresenceLength(raw) < |raw|
            && |t.lows| <= 256 && t.end + |t.lows| + |t.jumps| + 1 + PresenceLength(raw) == |raw|
            && raw == raw[..t.end] + t.lows + t.jumps + [|t.lows| - 1] + raw[|raw| - PresenceLength(raw)..]
  {
  }

  lemma StrictRowIsWritten(raw: seq<byte>)
    requires StrictAccepted(raw)
    ensures var t := Framing(raw).value;
            && ValidBounds(Bounds(t), t.end)
            && raw == WrittenRow(raw[..t.end], Bounds(t), raw[|raw| - PresenceLength(raw)..])
  {
    hide PlainBound, Framing, JumpCount, JumpBytes, JumpByte, StrictJump, ValidBounds, LowBytes;
    var t := Framing(raw).value;
    var bounds := Bounds(t);
    StrictBoundsValid(raw);
    FramingSizes(raw);
    forall position | 0 <= position < |t.jumps| ensures JumpBytes(bounds, |t.jumps|)[position] == t.jumps[position] {
      assert StrictJump(t, position);
      StrictJumpIsWritten(t, position);
      JumpBytesAt(bounds, |t.jumps|, position);
    }
    assert JumpBytes(bounds, |t.jumps|) == t.jumps;
    assert LengthWithoutJumps(raw[..t.end], bounds, raw[|raw| - PresenceLength(raw)..]) == |raw| - |t.jumps|;
  }

  lemma WrittenJumpIsStrict(t: Trailer, bounds: seq<nat>, position: nat)
    requires ValidBounds(bounds, t.end) && |t.lows| == |bounds| && position < |t.jumps|
    requires forall i :: 0 <= i < |bounds| ==> StrictBound(t, i) == bounds[i]
    requires t.jumps[position] == JumpByte(bounds, |t.jumps| - position)
    ensures StrictJump(t, position)
  {
    hide PlainBound;
    var threshold := 256 * (|t.jumps| - position);
    var first := FirstReaching(bounds, threshold);
    if first < |bounds| {
      assert StrictBound(t, first) == bounds[first];
      assert first > 0 ==> StrictBound(t, first - 1) == bounds[first - 1] < threshold;
    } else {
      assert bounds[|bounds| - 1] < threshold;
    }
  }

  lemma WrittenRowIsStrict(data: seq<byte>, bounds: seq<nat>, presence: seq<byte>)
    requires Writable(data, bounds, presence) && 1 < |bounds|
    ensures StrictAccepted(WrittenRow(data, bounds, presence))
  {
    hide Framing, JumpBytes, JumpByte, StrictJump, JumpCount, PlainBound;
    var raw := WrittenRow(data, bounds, presence);
    FramingExact(data, bounds, presence);
    var t := Framing(raw).value;
    forall i | 0 <= i < |bounds| ensures StrictBound(t, i) == bounds[i] {
      BoundExact(data, bounds, |t.jumps|, i);
    }
    forall position: nat | position < |t.jumps| ensures StrictJump(t, position) {
      JumpBytesAt(bounds, |t.jumps|, position);
      WrittenJumpIsStrict(t, bounds, position);
    }
    assert |raw| - |t.jumps| == LengthWithoutJumps(data, bounds, presence);
  }

  // ----- Fields -----

  datatype Storage = Fixed(offset: nat, size: nat) | Variable(slot: nat)

  datatype Column = Column(storageId: nat, boolean: bool, storage: Storage)

  datatype FieldValue = Absent | Flag(on: bool) | Present(data: seq<byte>)

  /** A Python slice of a row: out-of-range ends are clipped. */
  function Slice(raw: seq<byte>, start: nat, end: nat): (r: seq<byte>) {
    if start >= |raw| || end <= start then [] else if end <= |raw| then raw[start..end] else raw[start..]
  }

  predicate IsPresent(count: byte, presence: seq<byte>, storageId: nat)
    requires |presence| == (count as int + 7) / 8
  {
    storageId < count && Bit(presence[storageId / 8], storageId % 8)
  }

  function ReadField(raw: seq<byte>, bounds: seq<nat>, fixedEnd: nat, column: Column): (r: Result<FieldValue>)
    requires raw != [] && PresenceLength(raw) < |raw|
  {
    var present := IsPresent(raw[0], raw[|raw| - PresenceLength(raw)..], column.storageId);
    if column.boolean then Accepted(Flag(present))
    else if !present then Accepted(Absent)
    else
      match column.storage
      case Fixed(offset, size) =>
        if 1 + offset + size <= fixedEnd then Accepted(Present(Slice(raw, 1 + offset, 1 + offset + size))) else Rejected
      case Variable(slot) =>
        if slot + 1 < |bounds| then Accepted(Present(Slice(raw, bounds[slot], bounds[slot + 1]))) else Rejected
  }

  function ReadFields(raw: seq<byte>, bounds: seq<nat>, fixedEnd: nat, columns: seq<Column>)
    : (r: Result<seq<FieldValue>>)
    requires raw != [] && PresenceLength(raw) < |raw|
  {
    if columns == [] then Accepted([])
    else
      var rest :- ReadFields(raw, bounds, fixedEnd, columns[..|columns| - 1]);
      var last :- ReadField(raw, bounds, fixedEnd, columns[|columns| - 1]);
      Accepted(rest + [last])
  }

  /** `fields`: raw field bytes by column. */
  function Fields(raw: seq<byte>, columns: seq<Column>, variableHighWater: nat): (r: Result<seq<FieldValue>>) {
    if raw == [] || raw[0] == 0 || |raw| <= PresenceLength(raw) then Rejected
    else if variableHighWater == 0 then ReadFields(raw, [], |raw| - PresenceLength(raw), columns)
    else
      var bounds :- DecodedBounds(raw);
      ReadFields(raw, bounds, bounds[0], columns)
  }

  method DecodeFields(raw: seq<byte>, columns: seq<Column>, variableHighWater: nat) returns (r: Result<seq<FieldValue>>)
    ensures r == Fields(raw, columns, variableHighWater)
  {
    hide DecodedBounds, ReadField;
    if raw == [] || raw[0] == 0 || |raw| <= PresenceLength(raw) {
      return Rejected;
    }
    var bounds, fixedEnd := [], |raw| - PresenceLength(raw);
    if variableHighWater > 0 {
      var decoded := DecodedBounds(raw);
      if decoded.Rejected? {
        return Rejected;
      }
      DecodedBoundsNonempty(raw);
      bounds, fixedEnd := decoded.value, decoded.value[0];
    }
    var values := [];
    for i := 0 to |columns|
      invariant ReadFields(raw, bounds, fixedEnd, columns[..i]) == Accepted(values)
    {
      var value := ReadField(raw, bounds, fixedEnd, columns[i]);
      assert columns[..i + 1][..i] == columns[..i];
      if value.Rejected? {
        RejectionPersists(raw, bounds, fixedEnd, columns, i);
        return Rejected;
      }
      values := values + [value.value];
    }
    assert columns[..|columns|] == columns;
    return Accepted(values);
  }

  lemma DecodedBoundsNonempty(raw: seq<byte>)
    requires DecodedBounds(raw).Accepted?
    ensures DecodedBounds(raw).value != []
  {
  }

  lemma {:induction false} RejectionPersists(raw: seq<byte>, bounds: seq<nat>, fixedEnd: nat, columns: seq<Column>,
                                             i: nat)
    requires raw != [] && PresenceLength(raw) < |raw| && i < |columns|
    requires ReadField(raw, bounds, fixedEnd, columns[i]).Rejected?
    ensures ReadFields(raw, bounds, fixedEnd, columns).Rejected?
  {
    if i < |columns| - 1 {
      RejectionPersists(raw, bounds, fixedEnd, columns[..|columns| - 1], i);
    }
  }

  // ----- Complete rows -----

  /** A row before encoding: fixed bytes, variable fields by slot, and presence bits. */
  datatype Record = Record(count: byte, fixed: seq<byte>, variables: seq<seq<byte>>, presence: seq<byte>)

  ghost predicate ValidRecord(r: Record) {
    r.count > 0 && |r.presence| == (r.count as int + 7) / 8 && |r.variables| <= 255
  }

  function RecordData(r: Record): (s: seq<byte>) {
    [r.count] + r.fixed + Concat(r.variables)
  }

  /** Where each variable field starts, and where the last one ends. */
  function Offsets(r: Record): (s: seq<nat>)
    ensures |s| == |r.variables| + 1
    ensures forall i :: 0 <= i < |s| ==> s[i] == 1 + |r.fixed| + |Concat(r.variables[..i])|
  {
    seq(|r.variables| + 1, i requires 0 <= i <= |r.variables| => 1 + |r.fixed| + |Concat(r.variables[..i])|)
  }

  /** The stored row; rows without variable fields have no trailer. */
  function RecordBytes(r: Record): (s: seq<byte>)
    requires ValidRecord(r)
  {
    if r.variables == [] then RecordData(r) + r.presence else WrittenRow(RecordData(r), Offsets(r), r.presence)
  }

  predicate ColumnFits(r: Record, c: Column)
    requires ValidRecord(r)
  {
    c.boolean || !IsPresent(r.count, r.presence, c.storageId) ||
    match c.storage
    case Fixed(offset, size) => offset + size <= |r.fixed|
    case Variable(slot) => slot < |r.variables|
  }

  /** What the column stored. */
  function StoredValue(r: Record, c: Column): (v: FieldValue)
    requires ValidRecord(r) && ColumnFits(r, c)
  {
    var present := IsPresent(r.count, r.presence, c.storageId);
    if c.boolean then Flag(present)
    else if !present then Absent
    else
      match c.storage
      case Fixed(offset, size) => Present(r.fixed[offset..offset + size])
      case Variable(slot) => Present(r.variables[slot])
  }

  lemma {:induction false} OffsetsAscend(r: Record, i: nat, j: nat)
    requires i <= j <= |r.variables|
    ensures Offsets(r)[i] <= Offsets(r)[j]
  {
    if i < j {
      OffsetsAscend(r, i, j - 1);
      ConcatPrefix(r.variables, j - 1);
    }
  }

  lemma RecordWritable(r: Record)
    requires ValidRecord(r) && r.variables != []
    ensures Writable(RecordData(r), Offsets(r), r.presence)
  {
    forall i, j | 0 <= i <= j < |Offsets(r)| ensures Offsets(r)[i] <= Offsets(r)[j] {
      OffsetsAscend(r, i, j);
    }
    assert r.variables[..|r.variables|] == r.variables;
  }

  /** The shape of every stored row: its data first and its presence bits last. */
  lemma RecordShape(r: Record)
    requires ValidRecord(r)
    ensures var raw := RecordBytes(r);
            && raw != [] && raw[0] == r.count && PresenceLength(raw) == |r.presence| < |raw|
            && RecordData(r) <= raw && raw[|raw| - |r.presence|..] == r.presence
            && (r.variables == [] ==> |raw| - |r.presence| == 1 + |r.fixed|)
  {
    hide JumpBytes, JumpCount, LowBytes;
    var raw := RecordBytes(r);
    if r.variables != [] {
      RecordWritable(r);
      var blocks := JumpCount(LengthWithoutJumps(RecordData(r), Offsets(r), r.presence));
      assert raw == RecordData(r)
          + (LowBytes(Offsets(r)) + JumpBytes(Offsets(r), blocks) + [|r.variables|] + r.presence);
    }
  }

  lemma FixedSlice(r: Record, raw: seq<byte>, offset: nat, size: nat)
    requires RecordData(r) <= raw && offset + size <= |r.fixed|
    ensures Slice(raw, 1 + offset, 1 + offset + size) == r.fixed[offset..offset + size]
  {
    var data := RecordData(r);
    assert forall i :: 0 <= i < |r.fixed| ==> raw[1 + i] == data[1 + i] == r.fixed[i];
  }

  lemma VariableSlice(r: Record, raw: seq<byte>, slot: nat)
    requires RecordData(r) <= raw && slot < |r.variables|
    ensures Slice(raw, Offsets(r)[slot], Offsets(r)[slot + 1]) == r.variables[slot]
  {
    hide Concat;
    ConcatPrefix(r.variables, slot);
    var base, a, b := 1 + |r.fixed|, Offsets(r)[slot], Offsets(r)[slot + 1];
    var tail := Concat(r.variables);
    assert forall i :: 0 <= i < |tail| ==> raw[base + i] == RecordData(r)[base + i] == tail[i];
    assert raw[a..b] == tail[a - base..b - base];
  }

  /** The boundaries `fields` works with; without variable fields it takes fixed bytes for a trailer. */
  function BoundsRead(r: Record, variableHighWater: nat): (b: Result<seq<nat>>)
    requires ValidRecord(r)
  {
    if variableHighWater == 0 then Accepted([])
    else if r.variables != [] then Accepted(Offsets(r))
    else DecodedBounds(RecordBytes(r))
  }

  /** Where `fields` takes the fixed bytes to end. */
  function FixedEndRead(r: Record, bounds: seq<nat>): (n: nat)
    requires ValidRecord(r)
  {
    if bounds == [] then |RecordBytes(r)| - PresenceLengthOf(r.count) else bounds[0]
  }

  /** A present column must lie inside what the reader takes for fixed bytes or variable fields. */
  predicate ColumnReached(r: Record, bounds: seq<nat>, c: Column)
    requires ValidRecord(r)
  {
    c.boolean || !IsPresent(r.count, r.presence, c.storageId) ||
    match c.storage
    case Fixed(offset, size) => 1 + offset + size <= FixedEndRead(r, bounds)
    case Variable(slot) => slot + 1 < |bounds|
  }

  lemma FieldRoundTrip(r: Record, c: Column, bounds: seq<nat>)
    requires ValidRecord(r)
    requires bounds == [] || r.variables == [] || bounds == Offsets(r)
    ensures RecordBytes(r) != [] && PresenceLength(RecordBytes(r)) < |RecordBytes(r)|
    ensures var read := ReadField(RecordBytes(r), bounds, FixedEndRead(r, bounds), c);
            && (read.Accepted? <==> ColumnReached(r, bounds, c))
            && (read.Accepted? && ColumnFits(r, c) ==> read.value == StoredValue(r, c))
  {
    hide RecordBytes, Bit, Slice, Offsets, RecordData, PresenceLength;
    var raw := RecordBytes(r);
    RecordShape(r);
    match c.storage
    case Fixed(offset, size) =>
      if offset + size <= |r.fixed| {
        FixedSlice(r, raw, offset, size);
      }
    case Variable(slot) =>
      if slot < |r.variables| {
        VariableSlice(r, raw, slot);
      }
  }

  lemma {:induction false} FieldsRoundTripFrom(r: Record, columns: seq<Column>, bounds: seq<nat>)
    requires ValidRecord(r)
    requires bounds == [] || r.variables == [] || bounds == Offsets(r)
    ensures RecordBytes(r) != [] && PresenceLength(RecordBytes(r)) < |RecordBytes(r)|
    ensures var read := ReadFields(RecordBytes(r), bounds, FixedEndRead(r, bounds), columns);
            && (read.Accepted? <==> forall i :: 0 <= i < |columns| ==> ColumnReached(r, bounds, columns[i]))
            && (read.Accepted? ==>
                  && |read.value| == |columns|
                  && forall i :: 0 <= i < |columns| && ColumnFits(r, columns[i]) ==>
                       read.value[i] == StoredValue(r, columns[i]))
  {
    hide RecordBytes, ReadField, ColumnFits, ColumnReached, StoredValue, FixedEndRead, Offsets;
    RecordShape(r);
    if columns != [] {
      var n := |columns| - 1;
      FieldsRoundTripFrom(r, columns[..n], bounds);
      FieldRoundTrip(r, columns[n], bounds);
      assert forall i :: 0 <= i < n ==> columns[..n][i] == columns[i];
    }
  }

  /**
   * Decoding a written row under any high water: the row is accepted exactly when boundaries are found and
   * every present column lies inside them, and then every column that was written returns its own bytes.
   */
  lemma RowRoundTrip(r: Record, columns: seq<Column>, variableHighWater: nat)
    requires ValidRecord(r)
    ensures var read, bounds := Fields(RecordBytes(r), columns, variableHighWater), BoundsRead(r, variableHighWater);
            && (read.Accepted? <==>
                  bounds.Accepted? && forall i :: 0 <= i < |columns| ==> ColumnReached(r, bounds.value, columns[i]))
            && (read.Accepted? ==>
                  && |read.value| == |columns|
                  && forall i :: 0 <= i < |columns| && ColumnFits(r, columns[i]) ==>
                       read.value[i] == StoredValue(r, columns[i]))
  {
    hide ReadFields, DecodedBounds, WrittenRow, ColumnFits, ColumnReached, StoredValue;
    RecordShape(r);
    if variableHighWater == 0 {
      FieldsRoundTripFrom(r, columns, []);
    } else if r.variables != [] {
      RecordWritable(r);
      TrailerRoundTrip(RecordData(r), Offsets(r), r.presence);
      FieldsRoundTripFrom(r, columns, Offsets(r));
    } else if DecodedBounds(RecordBytes(r)).Accepted? {
      DecodedBoundsNonempty(RecordBytes(r));
      FieldsRoundTripFrom(r, columns, DecodedBounds(RecordBytes(r)).value);
    }
  }

  /**
   * When row and table agree on having variable fields, exactly the rows whose present columns were all
   * written are accepted.
   */
  lemma AgreeingRowRoundTrip(r: Record, columns: seq<Column>, variableHighWater: nat)
    requires ValidRecord(r) && (variableHighWater > 0 <==> r.variables != [])
    ensures Fields(RecordBytes(r), columns, variableHighWater).Accepted? <==>
            forall i :: 0 <= i < |columns| ==> ColumnFits(r, columns[i])
  {
    hide Fields, RecordBytes, IsPresent;
    RowRoundTrip(r, columns, variableHighWater);
    RecordShape(r);
    assert r.variables[..0] == [];
    var bounds := BoundsRead(r, variableHighWater).value;
    assert forall c: Column :: ColumnReached(r, bounds, c) <==> ColumnFits(r, c);
  }

  // ----- Rows without variable fields in a table that once had some -----

  /** The last bytes before the presence bits spell a trailer `t`, with the jumps the row's length asks for. */
  ghost predicate EndsInTrailer(r: Record, t: Trailer) {
    var data := [r.count] + r.fixed;
    && 1 <= t.end <= |data|
    && 0 < |t.lows| <= 256
    && data == data[..t.end] + t.lows + t.jumps + [|t.lows| - 1]
    && |t.jumps| == (|r.fixed| + |r.presence|) / 256
    && Bounds(t)[|t.lows| - 1] == t.end
    && Ascends(Bounds(t))
  }

  lemma TrailerIsFramed(r: Record, t: Trailer)
    requires ValidRecord(r) && r.variables == [] && EndsInTrailer(r, t)
    ensures Framing(RecordBytes(r)) == Accepted(t)
  {
    hide Bounds, Ascends, Concat;
    var raw, data := RecordBytes(r), [r.count] + r.fixed;
    var front := data[..t.end];
    RecordShape(r);
    assert raw == data + r.presence by {
      assert RecordData(r) == data;
    }
    TrailerParts(front, t, r.presence, raw);
    assert raw[0] == r.count && |raw| - 1 == |r.fixed| + |r.presence|;
  }

  lemma TrailerParts(front: seq<byte>, t: Trailer, presence: seq<byte>, raw: seq<byte>)
    requires 0 < |t.lows| <= 256 && raw == front + t.lows + t.jumps + [|t.lows| - 1] + presence
    ensures var position := |raw| - |presence| - 1;
            && raw[position] == |t.lows| - 1
            && |front| == position - |t.jumps| - |t.lows|
            && raw[|front|..|front| + |t.lows|] == t.lows
            && raw[|front| + |t.lows|..position] == t.jumps
  {
  }

  lemma FramedIsTrailer(r: Record)
    requires ValidRecord(r) && r.variables == [] && DecodedBounds(RecordBytes(r)).Accepted?
    ensures EndsInTrailer(r, Framing(RecordBytes(r)).value)
  {
    hide Bounds, Ascends;
    var raw, data := RecordBytes(r), [r.count] + r.fixed;
    assert raw == data + r.presence;
    FramingSizes(raw);
    assert data == raw[..|data|];
    var t := Framing(raw).value;
    assert data[..t.end] == raw[..t.end];
  }

  /** Under a positive high water a row without variable fields is read only if its fixed bytes end in a trailer. */
  lemma TrailerInFixedBytes(r: Record, bounds: seq<nat>)
    requires ValidRecord(r) && r.variables == []
    ensures DecodedBounds(RecordBytes(r)) == Accepted(bounds) <==>
            exists t :: EndsInTrailer(r, t) && Bounds(t) == bounds
  {
    hide Bounds, Ascends, Framing, RecordBytes;
    if DecodedBounds(RecordBytes(r)).Accepted? {
      FramedIsTrailer(r);
    }
    forall t | EndsInTrailer(r, t) && Bounds(t) == bounds ensures DecodedBounds(RecordBytes(r)) == Accepted(bounds) {
      TrailerIsFramed(r, t);
    }
  }

  /** So a present fixed column within one byte of the end of such a row is always refused. */
  lemma LastFixedColumnRefused(r: Record, columns: seq<Column>, variableHighWater: nat, i: nat)
    requires ValidRecord(r) && r.variables == [] && variableHighWater > 0 && i < |columns|
    requires !columns[i].boolean && IsPresent(r.count, r.presence, columns[i].storageId)
    requires columns[i].storage.Fixed? && columns[i].storage.offset + columns[i].storage.size + 1 >= |r.fixed|
    ensures Fields(RecordBytes(r), columns, variableHighWater).Rejected?
  {
    hide Fields, DecodedBounds, IsPresent;
    RowRoundTrip(r, columns, variableHighWater);
    var read := BoundsRead(r, variableHighWater);
    if read.Accepted? {
      TrailerInFixedBytes(r, read.value);
      var t :| EndsInTrailer(r, t) && Bounds(t) == read.value;
      AscendsTransitively(read.value, 0, |read.value| - 1);
      assert !ColumnReached(r, read.value, columns[i]);
    }
  }

  /** One Integer column left after the only variable column was deleted: the writer's row is refused. */
  lemma DeletedVariableColumn()
    ensures var r, columns := Record(1, [7, 3], [], [1]), [Column(0, false, Fixed(0, 2))];
            && ValidRecord(r) && ColumnFits(r, columns[0])
            && Fields(RecordBytes(r), columns, 0) == Accepted([Present([7, 3])])
            && Fields(RecordBytes(r), columns, 1).Rejected?
  {
    var r, columns := Record(1, [7, 3], [], [1]), [Column(0, false, Fixed(0, 2))];
    assert IsPresent(1, [1], 0);
    AgreeingRowRoundTrip(r, columns, 0);
    RowRoundTrip(r, columns, 0);
    var read := Fields(RecordBytes(r), columns, 0);
    assert read.Accepted? && |read.value| == 1;
    assert StoredValue(r, columns[0]) == Present(r.fixed[0..2]) && r.fixed[0..2] == [7, 3];
    assert read.value == [Present([7, 3])];
    LastFixedColumnRefused(r, columns, 1, 0);
  }
}
