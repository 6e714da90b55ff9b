/** Stable sorting by a byte-string key, as the snapshot code uses its library sort. */
module Sorting {
  import opened Bytes

  predicate SortedBy<T>(s: seq<T>, key: T -> seq<byte>) {
    forall i :: 0 <= i < |s| - 1 ==> AtMost(key(s[i]), key(s[i + 1]))
  }

  /** A byte string as its own key. */
  function Self(e: seq<byte>): (r: seq<byte>) {
    e
  }

  /** Places `x` after every element whose key is not larger. */
  function Insert<T>(s: seq<T>, x: T, key: T -> seq<byte>): (r: seq<T>) {
    if s == [] || AtMost(key(s[|s| - 1]), key(x)) then s + [x]
    else Insert(s[..|s| - 1], x, key) + [s[|s| - 1]]
  }

  function SortBy<T>(s: seq<T>, key: T -> seq<byte>): (r: seq<T>) {
    if s == [] then [] else Insert(SortBy(s[..|s| - 1], key), s[|s| - 1], key)
  }

  /** The elements with a given key, in order. */
  function WithKey<T>(s: seq<T>, key: T -> seq<byte>, k: seq<byte>): (r: seq<T>) {
    if s == [] then []
    else WithKey(s[..|s| - 1], key, k) + (if key(s[|s| - 1]) == k then [s[|s| - 1]] else [])
  }

  lemma {:induction false} InsertKeeps<T>(s: seq<T>, x: T, key: T -> seq<byte>)
    ensures multiset(Insert(s, x, key)) == multiset(s) + multiset{x}
  {
    if s != [] && !AtMost(key(s[|s| - 1]), key(x)) {
      var n := |s| - 1;
      InsertKeeps(s[..n], x, key);
      assert s == s[..n] + [s[n]];
    }
  }

  lemma InsertLast<T>(s: seq<T>, x: T, key: T -> seq<byte>)
    ensures var r := Insert(s, x, key);
            r != [] && r[|r| - 1] == if s == [] || AtMost(key(s[|s| - 1]), key(x)) then x else s[|s| - 1]
  {
  }

  lemma SortedSnoc<T>(s: seq<T>, x: T, key: T -> seq<byte>)
    requires SortedBy(s, key) && (s == [] || AtMost(key(s[|s| - 1]), key(x)))
    ensures SortedBy(s + [x], key)
  {
  }

  lemma {:induction false} InsertSorts<T>(s: seq<T>, x: T, key: T -> seq<byte>)
    requires SortedBy(s, key)
    ensures SortedBy(Insert(s, x, key), key)
  {
    hide AtMost;
    if s == [] || AtMost(key(s[|s| - 1]), key(x)) {
      SortedSnoc(s, x, key);
    } else {
      var n := |s| - 1;
      InsertSorts(s[..n], x, key);
      InsertLast(s[..n], x, key);
      assert AtMost(key(x), key(s[n])) by {
        Comparable(key(s[n]), key(x));
      }
      SortedSnoc(Insert(s[..n], x, key), s[n], key);
    }
  }

  lemma Comparable(a: seq<byte>, b: seq<byte>)
    requires !AtMost(a, b)
    ensures AtMost(b, a)
  {
    LessTotal(a, b);
  }

  /** Sorting orders the keys and keeps every element. */
  lemma {:induction false} SortSorts<T>(s: seq<T>, key: T -> seq<byte>)
    ensures SortedBy(SortBy(s, key), key) && multiset(SortBy(s, key)) == multiset(s) && |SortBy(s, key)| == |s|
  {
    if s != [] {
      var n := |s| - 1;
      SortSorts(s[..n], key);
      InsertSorts(SortBy(s[..n], key), s[n], key);
      InsertKeeps(SortBy(s[..n], key), s[n], key);
      assert s == s[..n] + [s[n]];
      assert |multiset(SortBy(s, key))| == |SortBy(s, key)| && |multiset(s)| == |s|;
    }
  }

  lemma {:induction false} InsertStable<T>(s: seq<T>, x: T, key: T -> seq<byte>, k: seq<byte>)
    requires SortedBy(s, key)
    ensures WithKey(Insert(s, x, key), key, k) == WithKey(s, key, k) + (if key(x) == k then [x] else [])
  {
    var n := |s| - 1;
    if s == [] || AtMost(key(s[n]), key(x)) {
      assert (s + [x])[..|s|] == s;
    } else {
      InsertStable(s[..n], x, key, k);
      var r := Insert(s[..n], x, key);
      assert (r + [s[n]])[..|r|] == r;
    }
  }

  /** Elements with equal keys keep their order. */
  lemma {:induction false} SortStable<T>(s: seq<T>, key: T -> seq<byte>, k: seq<byte>)
    ensures WithKey(SortBy(s, key), key, k) == WithKey(s, key, k)
  {
    if s != [] {
      var n := |s| - 1;
      SortStable(s[..n], key, k);
      SortSorts(s[..n], key);
      InsertStable(SortBy(s[..n], key), s[n], key, k);
    }
  }

  lemma {:induction false} SortedPair<T>(s: seq<T>, key: T -> seq<byte>, i: nat, j: nat)
    requires SortedBy(s, key) && i <= j < |s|
    ensures AtMost(key(s[i]), key(s[j]))
  {
    if i < j {
      SortedPair(s, key, i, j - 1);
      AtMostTransitive(key(s[i]), key(s[j - 1]), key(s[j]));
    }
  }

  /** Two sorted arrangements of the same elements have the same keys position by position. */
  lemma {:induction false} SortedKeysAgree<T>(a: seq<T>, b: seq<T>, key: T -> seq<byte>)
    requires SortedBy(a, key) && SortedBy(b, key) && multiset(Map(a, key)) == multiset(Map(b, key))
    ensures Map(a, key) == Map(b, key)
  {
    assert |a| == |multiset(Map(a, key))| == |multiset(Map(b, key))| == |b|;
    if a != [] {
      var n := |a| - 1;
      LastIsLargest(a, b, key);
      LastIsLargest(b, a, key);
      if Less(key(a[n]), key(b[n])) {
        LessAsymmetric(key(a[n]), key(b[n]));
      }
      assert Map(a, key) == Map(a[..n], key) + [key(a[n])];
      assert Map(b, key) == Map(b[..n], key) + [key(b[n])];
      assert multiset(Map(a[..n], key)) == multiset(Map(a, key)) - multiset{key(a[n])};
      SortedKeysAgree(a[..n], b[..n], key);
    }
  }

  lemma LastIsLargest<T>(a: seq<T>, b: seq<T>, key: T -> seq<byte>)
    requires |a| == |b| > 0 && SortedBy(b, key) && multiset(Map(a, key)) == multiset(Map(b, key))
    ensures AtMost(key(a[|a| - 1]), key(b[|b| - 1]))
  {
    var last := Map(a, key)[|a| - 1];
    assert last in multiset(Map(a, key));
    assert last in Map(b, key);
    var j :| 0 <= j < |b| && Map(b, key)[j] == last;
    SortedPair(b, key, j, |b| - 1);
  }

  function Map<T, U>(s: seq<T>, f: T -> U): (r: seq<U>)
    ensures |r| == |s| && forall i :: 0 <= i < |s| ==> r[i] == f(s[i])
  {
    seq(|s|, i requires 0 <= i < |s| => f(s[i]))
  }

  function RemoveAt<T>(s: seq<T>, i: nat): (r: seq<T>)
    requires i < |s|
    ensures |r| == |s| - 1
  {
    s[..i] + s[i + 1..]
  }

  lemma RemoveKeeps<T>(s: seq<T>, i: nat)
    requires i < |s|
    ensures multiset(RemoveAt(s, i)) == multiset(s) - multiset{s[i]}
    ensures multiset(s) == multiset(RemoveAt(s, i)) + multiset{s[i]}
  {
    var head, tail := s[..i], s[i + 1..];
    assert s == head + ([s[i]] + tail);
    assert multiset(s) == multiset(head) + (multiset{s[i]} + multiset(tail));
  }

  lemma MapRemove<T, U>(s: seq<T>, i: nat, f: T -> U)
    requires i < |s|
    ensures Map(RemoveAt(s, i), f) == RemoveAt(Map(s, f), i)
  {
  }

  /** Rearranging the elements rearranges their images. */
  lemma {:induction false} MapRearranged<T, U>(a: seq<T>, b: seq<T>, f: T -> U)
    requires multiset(a) == multiset(b)
    ensures multiset(Map(a, f)) == multiset(Map(b, f))
    decreases |a|
  {
    hide RemoveAt;
    assert |a| == |multiset(a)| == |multiset(b)| == |b|;
    if a == [] {
      assert Map(a, f) == Map(b, f);
    } else {
      var n := |a| - 1;
      assert a[n] in multiset(b);
      var j: nat :| j < |b| && b[j] == a[n];
      RemoveKeeps(a, n);
      RemoveKeeps(b, j);
      MapRearranged(RemoveAt(a, n), RemoveAt(b, j), f);
      MapRemove(a, n, f);
      MapRemove(b, j, f);
      RemoveKeeps(Map(a, f), n);
      RemoveKeeps(Map(b, f), j);
    }
  }
}
