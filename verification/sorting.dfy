/**
 * `slice::sort_by(|a, b| key(a).cmp(key(b)))` on string keys, as a stable insertion sort:
 * its result is ordered by key, holds the same elements, and is strictly ordered when
 * no two elements share a key.
 */
module Sorting {
  import opened Text
  import opened Seqs

  /** No element is preceded by one whose key is greater. */
  predicate SortedBy<T>(xs: seq<T>, key: T -> string)
  {
    forall i, j :: 0 <= i < j < |xs| ==> !Below(key(xs[j]), key(xs[i]))
  }

  predicate StrictlySortedBy<T>(xs: seq<T>, key: T -> string)
  {
    forall i, j :: 0 <= i < j < |xs| ==> Below(key(xs[i]), key(xs[j]))
  }

  /** Puts `x` before the first element whose key is not below its own, so ties keep `x` first. */
  function InsertBy<T>(x: T, ys: seq<T>, key: T -> string): (r: seq<T>)
    ensures multiset(r) == multiset{x} + multiset(ys)
    ensures |r| == |ys| + 1
  {
    if ys == [] || !Below(key(ys[0]), key(x)) then [x] + ys
    else
      assert ys == [ys[0]] + ys[1..];
      [ys[0]] + InsertBy(x, ys[1..], key)
  }

  function SortBy<T>(xs: seq<T>, key: T -> string): (r: seq<T>)
    ensures multiset(r) == multiset(xs)
    ensures |r| == |xs|
  {
    if xs == [] then []
    else
      assert xs == [xs[0]] + xs[1..];
      InsertBy(xs[0], SortBy(xs[1..], key), key)
  }

  /** An element of an insertion is the inserted one or was already there. */
  lemma InsertByMember<T>(x: T, ys: seq<T>, key: T -> string, z: T)
    requires z in InsertBy(x, ys, key)
    ensures z == x || z in ys
  {
    assert z in multiset(InsertBy(x, ys, key));
  }

  /** In a sorted list nothing after the head is below it. */
  lemma SortedHead<T>(ys: seq<T>, key: T -> string, z: T)
    requires SortedBy(ys, key) && ys != [] && z in ys[1..]
    ensures !Below(key(z), key(ys[0]))
  {
    var k :| 0 <= k < |ys[1..]| && ys[1..][k] == z;
    assert ys[k + 1] == z;
  }

  /** In a strictly sorted list the head is below everything after it. */
  lemma StrictHead<T>(ys: seq<T>, key: T -> string, z: T)
    requires StrictlySortedBy(ys, key) && ys != [] && z in ys[1..]
    ensures Below(key(ys[0]), key(z))
  {
    var k :| 0 <= k < |ys[1..]| && ys[1..][k] == z;
    assert ys[k + 1] == z;
  }

  /** An element whose key is not above the head's may go in front of a sorted list. */
  lemma SortedFront<T>(x: T, ys: seq<T>, key: T -> string)
    requires SortedBy(ys, key) && ys != [] && !Below(key(ys[0]), key(x))
    ensures SortedBy([x] + ys, key)
  {
    var r := [x] + ys;
    forall j | 1 <= j < |r| ensures !Below(key(r[j]), key(x)) {
      assert r[j] == ys[j - 1];
      if j > 1 {
        NotBelowTransitive(key(x), key(ys[0]), key(ys[j - 1]));
      }
    }
  }

  /** An element whose key is below the head's may go in front of a strictly sorted list. */
  lemma StrictFront<T>(x: T, ys: seq<T>, key: T -> string)
    requires StrictlySortedBy(ys, key) && ys != [] && !Below(key(ys[0]), key(x)) && key(ys[0]) != key(x)
    ensures StrictlySortedBy([x] + ys, key)
  {
    var r := [x] + ys;
    BelowTotal(key(x), key(ys[0]));
    forall j | 1 <= j < |r| ensures Below(key(x), key(r[j])) {
      assert r[j] == ys[j - 1];
      if j > 1 {
        BelowTransitive(key(x), key(ys[0]), key(ys[j - 1]));
      }
    }
  }

  /** Inserting behind a head that is below `x` keeps the head in front of a sorted rest. */
  lemma SortedBehindHead<T>(x: T, ys: seq<T>, key: T -> string)
    requires SortedBy(ys, key) && ys != [] && Below(key(ys[0]), key(x))
    requires SortedBy(InsertBy(x, ys[1..], key), key)
    ensures SortedBy([ys[0]] + InsertBy(x, ys[1..], key), key)
  {
    var rest := InsertBy(x, ys[1..], key);
    var r := [ys[0]] + rest;
    forall j | 1 <= j < |r| ensures !Below(key(r[j]), key(ys[0])) {
      var z := rest[j - 1];
      InsertByMember(x, ys[1..], key, z);
      if z == x {
        BelowAsymmetric(key(ys[0]), key(x));
      } else {
        SortedHead(ys, key, z);
      }
    }
  }

  /** Inserting behind a head that is below `x` keeps the head in front of a strictly sorted rest. */
  lemma StrictBehindHead<T>(x: T, ys: seq<T>, key: T -> string)
    requires StrictlySortedBy(ys, key) && ys != [] && Below(key(ys[0]), key(x))
    requires StrictlySortedBy(InsertBy(x, ys[1..], key), key)
    ensures StrictlySortedBy([ys[0]] + InsertBy(x, ys[1..], key), key)
  {
    var rest := InsertBy(x, ys[1..], key);
    var r := [ys[0]] + rest;
    forall j | 1 <= j < |r| ensures Below(key(ys[0]), key(r[j])) {
      var z := rest[j - 1];
      InsertByMember(x, ys[1..], key, z);
      if z != x {
        StrictHead(ys, key, z);
      }
    }
  }

  lemma {:induction false} InsertBySorted<T>(x: T, ys: seq<T>, key: T -> string)
    requires SortedBy(ys, key)
    ensures SortedBy(InsertBy(x, ys, key), key)
  {
    var r := InsertBy(x, ys, key);
    if ys == [] {
    } else if !Below(key(ys[0]), key(x)) {
      SortedFront(x, ys, key);
    } else {
      InsertBySorted(x, ys[1..], key);
      SortedBehindHead(x, ys, key);
    }
  }

  lemma {:induction false} SortBySorted<T>(xs: seq<T>, key: T -> string)
    ensures SortedBy(SortBy(xs, key), key)
  {
    if xs != [] {
      SortBySorted(xs[1..], key);
      InsertBySorted(xs[0], SortBy(xs[1..], key), key);
    }
  }

  lemma {:induction false} InsertByStrict<T>(x: T, ys: seq<T>, key: T -> string)
    requires StrictlySortedBy(ys, key)
    requires forall y :: y in ys ==> key(y) != key(x)
    ensures StrictlySortedBy(InsertBy(x, ys, key), key)
  {
    var r := InsertBy(x, ys, key);
    if ys == [] {
    } else if !Below(key(ys[0]), key(x)) {
      assert ys[0] in ys;
      StrictFront(x, ys, key);
    } else {
      assert forall y :: y in ys[1..] ==> y in ys;
      InsertByStrict(x, ys[1..], key);
      StrictBehindHead(x, ys, key);
    }
  }

  /** Sorting elements with pairwise distinct keys orders them strictly. */
  lemma {:induction false} SortByStrict<T>(xs: seq<T>, key: T -> string)
    requires DistinctBy(xs, key)
    ensures StrictlySortedBy(SortBy(xs, key), key)
  {
    if xs != [] {
      var rest := SortBy(xs[1..], key);
      assert DistinctBy(xs[1..], key) by {
        forall i, j | 0 <= i < j < |xs| - 1 ensures key(xs[1..][i]) != key(xs[1..][j]) {
          assert xs[1..][i] == xs[i + 1] && xs[1..][j] == xs[j + 1];
        }
      }
      SortByStrict(xs[1..], key);
      forall y | y in rest ensures key(y) != key(xs[0]) {
        assert y in multiset(xs[1..]);
        var k :| 0 <= k < |xs[1..]| && xs[1..][k] == y;
        assert xs[k + 1] == y;
      }
      InsertByStrict(xs[0], rest, key);
    }
  }
}
