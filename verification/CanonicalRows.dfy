/**
 * Canonical row order of semantic snapshots (`canonicalize_rows` in
 * crates/jet3-testkit/src/semantic_snapshot.rs): rows are sorted by their digest key and equal keys are
 * numbered. Digests and row values are opaque here.
 */
module CanonicalRows {
  import opened Bytes
  import opened Sorting

  datatype Row<V> = Row(key: seq<byte>, ordinal: nat, values: V)

  function KeyOf<V>(row: Row<V>): (k: seq<byte>) {
    row.key
  }

  /** How many of the first `n` rows have the key `k`. */
  function CountKey<V>(rows: seq<Row<V>>, n: nat, k: seq<byte>): (c: nat)
    requires n <= |rows|
  {
    if n == 0 then 0 else CountKey(rows, n - 1, k) + (if rows[n - 1].key == k then 1 else 0)
  }

  /** Every row numbered by the rows with its key before it. */
  function Numbered<V>(rows: seq<Row<V>>): (r: seq<Row<V>>)
    ensures |r| == |rows|
    ensures forall i :: 0 <= i < |r| ==> r[i] == rows[i].(ordinal := CountKey(rows, i, rows[i].key))
  {
    seq(|rows|, i requires 0 <= i < |rows| => rows[i].(ordinal := CountKey(rows, i, rows[i].key)))
  }

  function Canonical<V>(rows: seq<Row<V>>): (r: seq<Row<V>>)
    ensures |r| == |rows|
  {
    SortSorts(rows, KeyOf<V>);
    Numbered(SortBy(rows, KeyOf<V>))
  }

  lemma {:induction false} NoEarlierKey<V>(rows: seq<Row<V>>, n: nat, i: nat)
    requires SortedBy(rows, KeyOf<V>) && n < i < |rows| && rows[n].key != rows[i].key
    ensures CountKey(rows, n + 1, rows[i].key) == 0
  {
    if n > 0 {
      SortedPair(rows, KeyOf<V>, n - 1, n);
      SortedPair(rows, KeyOf<V>, n, i);
      if rows[n - 1].key == rows[i].key {
        LessAsymmetric(rows[n].key, rows[i].key);
      } else {
        NoEarlierKey(rows, n - 1, i);
      }
    }
  }

  /** Sorts the rows in place, then numbers runs of equal keys with one remembered predecessor. */
  method CanonicalizeRows<V>(rows: array<Row<V>>)
    modifies rows
    ensures rows[..] == Canonical(old(rows[..]))
  {
    hide SortBy, CountKey;
    var sorted := SortBy(rows[..], KeyOf<V>);
    SortSorts(rows[..], KeyOf<V>);
    forall i | 0 <= i < rows.Length {
      rows[i] := sorted[i];
    }
    var previous: Result<(seq<byte>, nat)> := Rejected;
    for i := 0 to rows.Length
      invariant previous == if i == 0 then Rejected
                else Accepted((sorted[i - 1].key, CountKey(sorted, i - 1, sorted[i - 1].key)))
      invariant forall k :: 0 <= k < rows.Length ==>
                  rows[k] == if k < i then Numbered(sorted)[k] else sorted[k]
    {
      var row := rows[i];
      var same := previous.Accepted? && previous.value.0 == row.key;
      OrdinalStep(sorted, i);
      var ordinal := if same then previous.value.1 + 1 else 0;
      rows[i] := row.(ordinal := ordinal);
      previous := Accepted((row.key, ordinal));
    }
    assert rows[..] == Numbered(sorted);
  }

  /** In a sorted list the ordinal follows from the previous row alone. */
  lemma OrdinalStep<V>(sorted: seq<Row<V>>, i: nat)
    requires SortedBy(sorted, KeyOf<V>) && i < |sorted|
    ensures CountKey(sorted, i, sorted[i].key)
            == if i > 0 && sorted[i - 1].key == sorted[i].key then CountKey(sorted, i - 1, sorted[i].key) + 1 else 0
  {
    if i > 0 && sorted[i - 1].key != sorted[i].key {
      NoEarlierKey(sorted, i - 1, i);
    }
  }

  // ----- What the numbering promises -----

  lemma {:induction false} CountMonotone<V>(rows: seq<Row<V>>, m: nat, n: nat, k: seq<byte>)
    requires m <= n <= |rows|
    ensures CountKey(rows, m, k) <= CountKey(rows, n, k)
  {
    if m < n {
      CountMonotone(rows, m, n - 1, k);
    }
  }

  lemma LaterOrdinal<V>(sorted: seq<Row<V>>, i: nat, j: nat)
    requires i < j < |sorted| && sorted[i].key == sorted[j].key
    ensures CountKey(sorted, i, sorted[i].key) < CountKey(sorted, j, sorted[j].key)
  {
    CountMonotone(sorted, i + 1, j, sorted[i].key);
  }

  /** Key and ordinal together identify a row. */
  lemma PairsUnique<V>(rows: seq<Row<V>>, i: nat, j: nat)
    requires i < j < |rows| && Canonical(rows)[i].key == Canonical(rows)[j].key
    ensures Canonical(rows)[i].ordinal < Canonical(rows)[j].ordinal
  {
    hide SortBy, CountKey;
    SortSorts(rows, KeyOf<V>);
    LaterOrdinal(SortBy(rows, KeyOf<V>), i, j);
  }

  /** The rows with a key are as many as the count says, and row `i` is the one numbered by its count. */
  lemma {:induction false} WithKeyCounts<V>(rows: seq<Row<V>>, n: nat, k: seq<byte>)
    requires n <= |rows|
    ensures |WithKey(rows[..n], KeyOf<V>, k)| == CountKey(rows, n, k)
    ensures forall i :: 0 <= i < n && rows[i].key == k ==>
              CountKey(rows, i, k) < CountKey(rows, n, k)
              && WithKey(rows[..n], KeyOf<V>, k)[CountKey(rows, i, k)] == rows[i]
  {
    if n > 0 {
      assert rows[..n][..n - 1] == rows[..n - 1];
      WithKeyCounts(rows, n - 1, k);
    }
  }

  /**
   * Rows with one key keep their order: the canonical row with ordinal `o` is the `o`-th input row with its
   * key, apart from its number.
   */
  lemma DuplicatesKeepOrder<V>(rows: seq<Row<V>>, i: nat)
    requires i < |rows|
    ensures var r := Canonical(rows)[i];
            var same := WithKey(rows, KeyOf<V>, r.key);
            r.ordinal < |same| && r == same[r.ordinal].(ordinal := r.ordinal)
  {
    hide SortBy, CountKey, WithKey;
    var sorted := SortBy(rows, KeyOf<V>);
    SortSorts(rows, KeyOf<V>);
    var k := sorted[i].key;
    SortStable(rows, KeyOf<V>, k);
    WithKeyCounts(sorted, |sorted|, k);
    assert sorted[..|sorted|] == sorted;
  }

  lemma {:induction false} OrdinalUsed<V>(rows: seq<Row<V>>, n: nat, k: seq<byte>, ordinal: nat) returns (i: nat)
    requires n <= |rows| && ordinal < CountKey(rows, n, k)
    ensures i < n && rows[i].key == k && CountKey(rows, i, k) == ordinal
  {
    if ordinal < CountKey(rows, n - 1, k) {
      i := OrdinalUsed(rows, n - 1, k, ordinal);
    } else {
      i := n - 1;
    }
  }

  /** The canonical rows with a key carry exactly the ordinals below the number of input rows with that key. */
  lemma OrdinalsComplete<V>(rows: seq<Row<V>>, k: seq<byte>, ordinal: nat)
    ensures ordinal < CountKey(rows, |rows|, k) <==>
            exists i :: 0 <= i < |rows| && Canonical(rows)[i].key == k && Canonical(rows)[i].ordinal == ordinal
  {
    hide SortBy, CountKey, WithKey;
    var sorted := SortBy(rows, KeyOf<V>);
    SortSorts(rows, KeyOf<V>);
    SortStable(rows, KeyOf<V>, k);
    WithKeyCounts(rows, |rows|, k);
    WithKeyCounts(sorted, |sorted|, k);
    assert sorted[..|sorted|] == sorted && rows[..|rows|] == rows;
    if ordinal < CountKey(rows, |rows|, k) {
      var i := OrdinalUsed(sorted, |sorted|, k, ordinal);
      assert Canonical(rows)[i].key == k && Canonical(rows)[i].ordinal == ordinal;
    }
    if i :| 0 <= i < |rows| && Canonical(rows)[i].key == k && Canonical(rows)[i].ordinal == ordinal {
      assert sorted[i].key == k;
    }
  }

  /** A row without its ordinal. */
  function Content<V>(row: Row<V>): (c: (seq<byte>, V)) {
    (row.key, row.values)
  }

  function Label<V>(row: Row<V>): (l: (seq<byte>, nat)) {
    (row.key, row.ordinal)
  }

  /** No row is lost, added or changed except in its ordinal. */
  lemma ContentKept<V>(rows: seq<Row<V>>)
    ensures multiset(Map(Canonical(rows), Content<V>)) == multiset(Map(rows, Content<V>))
  {
    var sorted := SortBy(rows, KeyOf<V>);
    SortSorts(rows, KeyOf<V>);
    MapRearranged(sorted, rows, Content<V>);
    assert Map(Numbered(sorted), Content<V>) == Map(sorted, Content<V>);
  }

  lemma {:induction false} CountFromKeys<V>(a: seq<Row<V>>, b: seq<Row<V>>, n: nat, k: seq<byte>)
    requires Map(a, KeyOf<V>) == Map(b, KeyOf<V>) && n <= |a|
    ensures |a| == |b| && CountKey(a, n, k) == CountKey(b, n, k)
  {
    assert |a| == |Map(a, KeyOf<V>)| == |b|;
    if n > 0 {
      CountFromKeys(a, b, n - 1, k);
      assert Map(a, KeyOf<V>)[n - 1] == Map(b, KeyOf<V>)[n - 1];
    }
  }

  /** The sequence of keys and ordinals does not depend on the order in which rows arrive. */
  lemma OrderIndependent<V>(a: seq<Row<V>>, b: seq<Row<V>>)
    requires multiset(Map(a, Content<V>)) == multiset(Map(b, Content<V>))
    ensures Map(Canonical(a), Label<V>) == Map(Canonical(b), Label<V>)
  {
    var s, t := SortBy(a, KeyOf<V>), SortBy(b, KeyOf<V>);
    SortSorts(a, KeyOf<V>);
    SortSorts(b, KeyOf<V>);
    KeysOfContent(a, b);
    MapRearranged(s, a, KeyOf<V>);
    MapRearranged(t, b, KeyOf<V>);
    SortedKeysAgree(s, t, KeyOf<V>);
    forall i | 0 <= i < |s| ensures Label(Numbered(s)[i]) == Label(Numbered(t)[i]) && |s| == |t| {
      CountFromKeys(s, t, i, s[i].key);
      assert Map(s, KeyOf<V>)[i] == Map(t, KeyOf<V>)[i];
    }
    CountFromKeys(s, t, 0, []);
  }

  lemma KeysOfContent<V>(a: seq<Row<V>>, b: seq<Row<V>>)
    requires multiset(Map(a, Content<V>)) == multiset(Map(b, Content<V>))
    ensures multiset(Map(a, KeyOf<V>)) == multiset(Map(b, KeyOf<V>))
  {
    var first := (c: (seq<byte>, V)) => c.0;
    MapRearranged(Map(a, Content<V>), Map(b, Content<V>), first);
    assert Map(Map(a, Content<V>), first) == Map(a, KeyOf<V>);
    assert Map(Map(b, Content<V>), first) == Map(b, KeyOf<V>);
  }
}
