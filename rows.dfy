/** Removing table rows by key, `rows.filter(r => key(r) !== k)`, as both admin
    tables do after a successful delete. */
module Rows {

  /** The rows whose key differs from `k`, in their original order. */
  function Without<T>(xs: seq<T>, key: T -> string, k: string): (r: seq<T>)
    ensures |r| <= |xs|
    ensures forall i :: 0 <= i < |r| ==> r[i] in xs && key(r[i]) != k
    ensures forall i :: 0 <= i < |xs| && key(xs[i]) != k ==> xs[i] in r
  {
    if xs == [] then []
    else if key(xs[0]) == k then Without(xs[1..], key, k)
    else [xs[0]] + Without(xs[1..], key, k)
  }

  /** The number of rows whose key is `k`. */
  function KeyCount<T>(xs: seq<T>, key: T -> string, k: string): nat
  {
    if xs == [] then 0
    else (if key(xs[0]) == k then 1 else 0) + KeyCount(xs[1..], key, k)
  }

  /** No two rows share a key. */
  predicate UniqueKeys<T>(xs: seq<T>, key: T -> string)
  {
    forall i, j :: 0 <= i < j < |xs| ==> key(xs[i]) != key(xs[j])
  }

  /** Filtering distributes over concatenation: the kept rows of a list are
      the kept rows of each part, one part after the other, so the filter keeps
      the relative order of everything it keeps. */
  lemma {:induction false} WithoutAppend<T>(a: seq<T>, b: seq<T>, key: T -> string, k: string)
    ensures Without(a + b, key, k) == Without(a, key, k) + Without(b, key, k)
  {
    if a == [] {
      assert a + b == b;
    } else {
      assert (a + b)[1..] == a[1..] + b;
      WithoutAppend(a[1..], b, key, k);
    }
  }

  /** A one-row list is kept whole or dropped whole, by its key alone. */
  lemma WithoutSingle<T>(x: T, key: T -> string, k: string)
    ensures Without([x], key, k) == if key(x) == k then [] else [x]
  {
  }

  /** With no row carrying the key, nothing is removed. */
  lemma {:induction false} WithoutAbsent<T>(xs: seq<T>, key: T -> string, k: string)
    requires forall i :: 0 <= i < |xs| ==> key(xs[i]) != k
    ensures Without(xs, key, k) == xs
  {
    if xs != [] {
      WithoutAbsent(xs[1..], key, k);
      assert [xs[0]] + xs[1..] == xs;
    }
  }

  /** Exactly the rows carrying the key are removed: the length drops by their number. */
  lemma {:induction false} WithoutLength<T>(xs: seq<T>, key: T -> string, k: string)
    ensures |Without(xs, key, k)| == |xs| - KeyCount(xs, key, k)
  {
    if xs != [] {
      WithoutLength(xs[1..], key, k);
    }
  }

  /** With unique keys, a key occurs at most once, and exactly once when some row carries it. */
  lemma {:induction false} UniqueKeyCount<T>(xs: seq<T>, key: T -> string, k: string)
    requires UniqueKeys(xs, key)
    ensures KeyCount(xs, key, k) <= 1
    ensures (exists i :: 0 <= i < |xs| && key(xs[i]) == k) ==> KeyCount(xs, key, k) == 1
  {
    if xs != [] {
      var rest := xs[1..];
      assert UniqueKeys(rest, key) by {
        forall i, j | 0 <= i < j < |rest| ensures key(rest[i]) != key(rest[j]) {
          assert rest[i] == xs[i + 1] && rest[j] == xs[j + 1];
        }
      }
      UniqueKeyCount(rest, key, k);
      if key(xs[0]) == k {
        KeyCountAbsent(rest, key, k);
      } else if exists i :: 0 <= i < |xs| && key(xs[i]) == k {
        var i :| 0 <= i < |xs| && key(xs[i]) == k;
        assert rest[i - 1] == xs[i];
      }
    }
  }

  /** A key that no row carries is counted zero times. */
  lemma {:induction false} KeyCountAbsent<T>(xs: seq<T>, key: T -> string, k: string)
    requires forall i :: 0 <= i < |xs| ==> key(xs[i]) != k
    ensures KeyCount(xs, key, k) == 0
  {
    if xs != [] {
      KeyCountAbsent(xs[1..], key, k);
    }
  }

  /** Deleting a present key from a list with unique keys removes exactly one row. */
  lemma WithoutUniquePresent<T>(xs: seq<T>, key: T -> string, k: string)
    requires UniqueKeys(xs, key)
    requires exists i :: 0 <= i < |xs| && key(xs[i]) == k
    ensures |Without(xs, key, k)| == |xs| - 1
  {
    WithoutLength(xs, key, k);
    UniqueKeyCount(xs, key, k);
  }
}
