/**
 * Text keys by position (`general_text` and `_secondary` in oracle/windows-dao/keys.py): which bytes of a value
 * enter its key and where they lie, without the loops that collect, strip and pack them.
 */
module TextKeys {
  import opened Bytes
  import opened KeyEncoding

  // ----- Trailing spaces -----

  lemma {:induction false} SpacesTrimmed(raw: seq<byte>, n: nat)
    ensures TrimSpaces(raw + seq(n, i => 32)) == TrimSpaces(raw)
  {
    var padded := raw + seq(n, i => 32);
    if n == 0 {
      assert padded == raw;
    } else {
      SpacesTrimmed(raw, n - 1);
      assert padded[..|padded| - 1] == raw + seq(n - 1, i => 32);
    }
  }

  /** Values that differ in trailing spaces only have one key. */
  lemma TrailingSpacesIgnored(raw: seq<byte>, n: nat, descending: bool, table: Collation)
    requires ValidCollation(table)
    ensures TextComponent(raw + seq(n, i => 32), descending, table) == TextComponent(raw, descending, table)
  {
    hide TrimSpaces, Collect, StripDefaults, ValidCollation;
    SpacesTrimmed(raw, n);
  }

  // ----- Weights by position -----

  predicate EndsInText(raw: seq<byte>) {
    raw == [] || raw[|raw| - 1] != 32
  }

  predicate Defined(raw: seq<byte>, table: Collation) {
    forall i :: 0 <= i < |raw| ==> raw[i] in table
  }

  /** The primary weights of each byte. */
  function PrimaryParts(raw: seq<byte>, table: Collation): (r: seq<seq<byte>>)
    requires Defined(raw, table)
  {
    seq(|raw|, i requires 0 <= i < |raw| => table[raw[i]].primary)
  }

  /** How many of these weights can carry an accent. */
  function AccentSlots(primary: seq<byte>): (n: nat) {
    if primary == [] then 0
    else AccentSlots(primary[..|primary| - 1]) + (if primary[|primary| - 1] in ACCENTED then 1 else 0)
  }

  /** The explicit nibbles of a weight, or one 2 for every primary weight that can carry an accent. */
  ghost predicate IsSecondary(w: Weight, part: seq<byte>) {
    if w.accents != [] then part == w.accents
    else |part| == AccentSlots(w.primary) && forall j :: 0 <= j < |part| ==> part[j] == 2
  }

  ghost predicate SecondaryParts(raw: seq<byte>, table: Collation, parts: seq<seq<byte>>)
    requires Defined(raw, table)
  {
    |parts| == |raw| && forall i :: 0 <= i < |raw| ==> IsSecondary(table[raw[i]], parts[i])
  }

  lemma {:induction false} DefaultsSnoc(primary: seq<byte>, last: byte)
    ensures Defaults(primary + [last]) == Defaults(primary) + (if last in ACCENTED then [2] else [])
  {
    if primary == [] {
      assert ([] + [last])[1..] == [];
    } else {
      DefaultsSnoc(primary[1..], last);
      assert (primary + [last])[1..] == primary[1..] + [last];
    }
  }

  lemma {:induction false} DefaultsCounted(primary: seq<byte>)
    ensures |Defaults(primary)| == AccentSlots(primary)
    ensures forall j :: 0 <= j < |Defaults(primary)| ==> Defaults(primary)[j] == 2
  {
    if primary != [] {
      var n := |primary| - 1;
      assert primary == primary[..n] + [primary[n]];
      DefaultsCounted(primary[..n]);
      DefaultsSnoc(primary[..n], primary[n]);
    }
  }

  lemma SecondaryIs(w: Weight, part: seq<byte>)
    ensures IsSecondary(w, part) <==> part == SecondaryOf(w)
  {
    DefaultsCounted(w.primary);
  }

  /** Collected weights are the concatenated weights of the bytes. */
  lemma {:induction false} CollectedByPosition(raw: seq<byte>, table: Collation, parts: seq<seq<byte>>)
    requires Defined(raw, table) && SecondaryParts(raw, table, parts)
    ensures Collect(raw, table) == Accepted(Weight(Concat(PrimaryParts(raw, table)), Concat(parts)))
  {
    hide IsSecondary, SecondaryOf;
    if raw != [] {
      var n := |raw| - 1;
      CollectedByPosition(raw[..n], table, parts[..n]);
      assert PrimaryParts(raw, table)[..n] == PrimaryParts(raw[..n], table);
      SecondaryIs(table[raw[n]], parts[n]);
    }
  }

  // ----- The key by position -----

  /** Nibble `j` behind the primary weights: a zero, the first `k` accents, then zeros. */
  function NibbleAt(accents: seq<byte>, k: nat, j: nat): (n: nat)
    requires k <= |accents|
  {
    if 1 <= j <= k then accents[j - 1] else 0
  }

  /** The first `k` accents: up to the last one that is not 2. */
  ghost predicate UpToLastAccent(accents: seq<byte>, k: nat) {
    k <= |accents| && (k > 0 ==> accents[k - 1] != 2) && forall j :: k <= j < |accents| ==> accents[j] == 2
  }

  /** Marker, primary weights, and the accents two to a byte, framed by zeros. */
  ghost predicate TextKeySpelled(key: seq<byte>, primary: seq<byte>, accents: seq<byte>, k: nat) {
    && k <= |accents| && |key| == 1 + |primary| + (k + 3) / 2
    && key[0] == 127 && key[1..1 + |primary|] == primary
    && forall m: nat :: m < (k + 3) / 2 ==>
         key[1 + |primary| + m] == 16 * NibbleAt(accents, k, 2 * m) + NibbleAt(accents, k, 2 * m + 1)
  }

  lemma {:induction false} StrippedUpTo(accents: seq<byte>)
    ensures StripDefaults(accents) <= accents && UpToLastAccent(accents, |StripDefaults(accents)|)
  {
    if accents != [] && accents[|accents| - 1] == 2 {
      StrippedUpTo(accents[..|accents| - 1]);
    }
  }

  lemma {:induction false} PackedAt(nibbles: seq<byte>, m: nat)
    requires |nibbles| % 2 == 0 && (forall i :: 0 <= i < |nibbles| ==> nibbles[i] < 16)
    ensures |Pack(nibbles)| == |nibbles| / 2
    ensures 2 * m < |nibbles| ==> Pack(nibbles)[m] == 16 * nibbles[2 * m] + nibbles[2 * m + 1]
    decreases |nibbles|
  {
    if nibbles != [] {
      PackedAt(nibbles[2..], if m > 0 then m - 1 else 0);
    }
  }

  lemma KeySpelled(primary: seq<byte>, accents: seq<byte>, k: nat)
    requires k <= |accents| && forall i :: 0 <= i < k ==> accents[..k][i] < 16
    ensures TextKeySpelled(TextKey(primary, accents[..k]), primary, accents, k)
  {
    hide Pack;
    var nibbles := Nibbles(accents[..k]);
    var key := TextKey(primary, accents[..k]);
    PackedAt(nibbles, 0);
    forall j: nat | j < |nibbles| ensures nibbles[j] == NibbleAt(accents, k, j) {
    }
    forall m: nat | m < (k + 3) / 2
      ensures key[1 + |primary| + m] == 16 * NibbleAt(accents, k, 2 * m) + NibbleAt(accents, k, 2 * m + 1)
    {
      PackedAt(nibbles, m);
    }
    assert key[1..1 + |primary|] == primary;
  }

  /**
   * The key of a text that does not end in a space: accepted exactly when every byte has weights, and then the
   * marker, all primary weights in order, and the accents in order up to the last one that is not 2, with every byte
   * complemented in a descending column.
   */
  lemma TextKeyExactly(raw: seq<byte>, descending: bool, table: Collation, parts: seq<seq<byte>>)
    requires ValidCollation(table) && EndsInText(raw)
    ensures TextComponent(raw, descending, table).Accepted? <==> Defined(raw, table)
    ensures Defined(raw, table) && SecondaryParts(raw, table, parts) ==>
              exists k, key: seq<byte> ::
                && UpToLastAccent(Concat(parts), k)
                && TextKeySpelled(key, Concat(PrimaryParts(raw, table)), Concat(parts), k)
                && TextComponent(raw, descending, table).value
                   == seq(|key|, i requires 0 <= i < |key| => if descending then 255 - key[i] else key[i])
  {
    hide Collect, StripDefaults, ValidCollation, Concat, Pack, Nibbles, SecondaryParts, TextKeySpelled, UpToLastAccent;
    assert TrimSpaces(raw) == raw;
    if !Defined(raw, table) {
      var i :| 0 <= i < |raw| && raw[i] !in table;
      UndefinedByteRejects(raw, table, i);
    } else {
      SomeParts(raw, table);
      var own := OwnParts(raw, table);
      CollectedByPosition(raw, table, own);
      CollationKeyValid(raw, table);
      if SecondaryParts(raw, table, parts) {
        CollectedByPosition(raw, table, parts);
        var primary, accents := Concat(PrimaryParts(raw, table)), Concat(parts);
        StrippedUpTo(accents);
        var k := |StripDefaults(accents)|;
        assert accents[..k] == StripDefaults(accents);
        NibblesBelow(CollationKey(raw, table).value);
        KeySpelled(primary, accents, k);
        var key := TextKey(primary, accents[..k]);
        DirectedByte(key, descending);
      }
    }
  }

  lemma NibblesBelow(w: Weight)
    requires ValidWeight(w)
    ensures forall i :: 0 <= i < |w.accents| ==> w.accents[i] < 16
  {
  }

  lemma DirectedByte(key: seq<byte>, descending: bool)
    ensures Directed(key, descending)
            == seq(|key|, i requires 0 <= i < |key| => if descending then 255 - key[i] else key[i])
  {
  }

  function OwnParts(raw: seq<byte>, table: Collation): (r: seq<seq<byte>>)
    requires Defined(raw, table)
  {
    seq(|raw|, i requires 0 <= i < |raw| => SecondaryOf(table[raw[i]]))
  }

  /** Every text with weights has its accents. */
  lemma SomeParts(raw: seq<byte>, table: Collation)
    requires Defined(raw, table)
    ensures SecondaryParts(raw, table, OwnParts(raw, table))
  {
    hide IsSecondary, SecondaryOf;
    forall i | 0 <= i < |raw| ensures IsSecondary(table[raw[i]], OwnParts(raw, table)[i]) {
      SecondaryIs(table[raw[i]], OwnParts(raw, table)[i]);
    }
  }
}
