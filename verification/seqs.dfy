/** Iterator shapes the core is written with (`filter_map`), as functions on sequences. */
module Seqs {
  import opened Wrappers

  /** The values an `Option` yields when iterated: none or one. */
  function Yield<U>(o: Option<U>): seq<U>
  {
    match o
    case Some(y) => [y]
    case None => []
  }

  /** `xs.iter().filter_map(f).collect()` */
  function FilterMap<T, U>(xs: seq<T>, f: T -> Option<U>): seq<U>
  {
    if xs == [] then [] else Yield(f(xs[0])) + FilterMap(xs[1..], f)
  }

  lemma {:induction false} FilterMapAppend<T, U>(xs: seq<T>, ys: seq<T>, f: T -> Option<U>)
    ensures FilterMap(xs + ys, f) == FilterMap(xs, f) + FilterMap(ys, f)
  {
    if xs == [] {
      assert xs + ys == ys;
    } else {
      assert (xs + ys)[1..] == xs[1..] + ys;
      FilterMapAppend(xs[1..], ys, f);
    }
  }

  lemma FilterMapSnoc<T, U>(xs: seq<T>, x: T, f: T -> Option<U>)
    ensures FilterMap(xs + [x], f) == FilterMap(xs, f) + Yield(f(x))
  {
    FilterMapAppend(xs, [x], f);
    assert [x][1..] == [];
  }

  /** The kept values are exactly the `Some` images of the input, and there are no more of them than inputs. */
  lemma {:induction false} FilterMapSpec<T, U>(xs: seq<T>, f: T -> Option<U>)
    ensures |FilterMap(xs, f)| <= |xs|
    ensures forall y :: y in FilterMap(xs, f) <==> exists i :: 0 <= i < |xs| && f(xs[i]) == Some(y)
  {
    if xs != [] {
      var rest := xs[1..];
      FilterMapSpec(rest, f);
      forall y ensures y in FilterMap(xs, f) <==> exists i :: 0 <= i < |xs| && f(xs[i]) == Some(y) {
        if exists i :: 0 <= i < |xs| && f(xs[i]) == Some(y) {
          var i :| 0 <= i < |xs| && f(xs[i]) == Some(y);
          if i > 0 { assert rest[i - 1] == xs[i]; }
        }
        if y in FilterMap(rest, f) {
          var i :| 0 <= i < |rest| && f(rest[i]) == Some(y);
          assert xs[i + 1] == rest[i];
        }
      }
    }
  }

  /** Taking one element out of the input takes its image, if any, out of the output. */
  lemma FilterMapRemove<T, U>(ys: seq<T>, i: nat, f: T -> Option<U>)
    requires i < |ys|
    ensures multiset(FilterMap(ys, f))
      == multiset(FilterMap(ys[..i] + ys[i + 1..], f)) + multiset(Yield(f(ys[i])))
  {
    Split(ys, i);
    FilterMapAppend(ys[..i] + [ys[i]], ys[i + 1..], f);
    FilterMapSnoc(ys[..i], ys[i], f);
    FilterMapAppend(ys[..i], ys[i + 1..], f);
  }

  /** Rearranging the input rearranges the output: `filter_map` commutes with permutation. */
  lemma {:induction false} FilterMapPermutation<T, U>(xs: seq<T>, ys: seq<T>, f: T -> Option<U>)
    requires multiset(xs) == multiset(ys)
    ensures multiset(FilterMap(xs, f)) == multiset(FilterMap(ys, f))
    decreases |xs|
  {
    if xs != [] {
      var x := xs[0];
      assert x in multiset(ys);
      var i :| 0 <= i < |ys| && ys[i] == x;
      var rest := ys[..i] + ys[i + 1..];
      RemoveAt(xs, 0);
      RemoveAt(ys, i);
      FilterMapPermutation(xs[1..], rest, f);
      FilterMapRemove(ys, i, f);
    }
  }

  lemma Snoc<T>(xs: seq<T>)
    requires xs != []
    ensures xs[..|xs| - 1] + [xs[|xs| - 1]] == xs
  {
  }

  lemma Split<T>(xs: seq<T>, i: nat)
    requires i < |xs|
    ensures xs == xs[..i] + [xs[i]] + xs[i + 1..]
  {
  }

  /** Taking out the element at `i` takes one copy of it out of the multiset. */
  lemma RemoveAt<T>(xs: seq<T>, i: nat)
    requires i < |xs|
    ensures multiset(xs[..i] + xs[i + 1..]) == multiset(xs) - multiset{xs[i]}
    ensures i == 0 ==> xs[..i] + xs[i + 1..] == xs[1..]
  {
    Split(xs, i);
    assert multiset(xs) == multiset(xs[..i]) + multiset{xs[i]} + multiset(xs[i + 1..]);
  }

  lemma TakeSnoc<T>(xs: seq<T>, i: nat)
    requires i < |xs|
    ensures xs[..i + 1] == xs[..i] + [xs[i]]
  {
  }

  /** `xs.into_iter().map(f).collect()` */
  function Map<T, U>(xs: seq<T>, f: T -> U): (r: seq<U>)
    ensures |r| == |xs|
    ensures forall i :: 0 <= i < |xs| ==> r[i] == f(xs[i])
  {
    if xs == [] then [] else [f(xs[0])] + Map(xs[1..], f)
  }

  /** `xs.iter().map(g).sum()` */
  function Sum<T>(xs: seq<T>, g: T -> nat): nat
  {
    if xs == [] then 0 else g(xs[0]) + Sum(xs[1..], g)
  }

  /** The concatenation of `f(c, x)` over the elements `x` of `xs`, in order. */
  function Flat<C, T, L>(c: C, xs: seq<T>, f: (C, T) -> seq<L>): seq<L>
  {
    if xs == [] then [] else f(c, xs[0]) + Flat(c, xs[1..], f)
  }

  lemma {:induction false} FlatAppend<C, T, L>(c: C, xs: seq<T>, ys: seq<T>, f: (C, T) -> seq<L>)
    ensures Flat(c, xs + ys, f) == Flat(c, xs, f) + Flat(c, ys, f)
  {
    if xs == [] {
      assert xs + ys == ys;
    } else {
      assert (xs + ys)[1..] == xs[1..] + ys;
      FlatAppend(c, xs[1..], ys, f);
    }
  }

  lemma FlatSingle<C, T, L>(c: C, x: T, f: (C, T) -> seq<L>)
    ensures Flat(c, [x], f) == f(c, x)
  {
    assert [x][1..] == [];
  }

  /** Replacing one element replaces its part of the concatenation and leaves the rest as it was. */
  lemma FlatUpdate<C, T, L>(c: C, xs: seq<T>, i: nat, y: T, f: (C, T) -> seq<L>)
    requires i < |xs|
    ensures multiset(Flat(c, xs[i := y], f)) + multiset(f(c, xs[i])) == multiset(Flat(c, xs, f)) + multiset(f(c, y))
  {
    var pre, post := xs[..i], xs[i + 1..];
    assert xs == pre + [xs[i]] + post;
    assert xs[i := y] == pre + [y] + post;
    FlatAppend(c, pre + [xs[i]], post, f);
    FlatAppend(c, pre, [xs[i]], f);
    FlatAppend(c, pre + [y], post, f);
    FlatAppend(c, pre, [y], f);
    FlatSingle(c, xs[i], f);
    FlatSingle(c, y, f);
  }

  /** Taking one element out takes its part out of the concatenation. */
  lemma FlatRemove<C, T, L>(c: C, ys: seq<T>, i: nat, f: (C, T) -> seq<L>)
    requires i < |ys|
    ensures multiset(Flat(c, ys, f)) == multiset(Flat(c, ys[..i] + ys[i + 1..], f)) + multiset(f(c, ys[i]))
  {
    Split(ys, i);
    FlatAppend(c, ys[..i] + [ys[i]], ys[i + 1..], f);
    FlatAppend(c, ys[..i], [ys[i]], f);
    FlatAppend(c, ys[..i], ys[i + 1..], f);
    FlatSingle(c, ys[i], f);
  }

  /** Rearranging the elements rearranges the concatenation. */
  lemma {:induction false} FlatPermutation<C, T, L>(c: C, xs: seq<T>, ys: seq<T>, f: (C, T) -> seq<L>)
    requires multiset(xs) == multiset(ys)
    ensures multiset(Flat(c, xs, f)) == multiset(Flat(c, ys, f))
    decreases |xs|
  {
    if xs != [] {
      var x := xs[0];
      assert x in multiset(ys);
      var i :| 0 <= i < |ys| && ys[i] == x;
      var rest := ys[..i] + ys[i + 1..];
      RemoveAt(xs, 0);
      RemoveAt(ys, i);
      FlatPermutation(c, xs[1..], rest, f);
      FlatRemove(c, ys, i, f);
    }
  }

  /** When each element's measure is the length of its part, the sum of measures is the length of the whole. */
  lemma {:induction false} SumIsFlatLength<C, T, L>(c: C, xs: seq<T>, g: T -> nat, f: (C, T) -> seq<L>)
    requires forall x :: x in xs ==> g(x) == |f(c, x)|
    ensures Sum(xs, g) == |Flat(c, xs, f)|
  {
    if xs != [] {
      assert xs[0] in xs;
      assert forall x :: x in xs[1..] ==> x in xs;
      SumIsFlatLength(c, xs[1..], g, f);
    }
  }

  /** Applying `h` to every element and then concatenating `fh` is, up to order, concatenating `f`. */
  lemma {:induction false} FlatMap<C, T, U, L>(c: C, xs: seq<T>, h: T -> U, f: (C, T) -> seq<L>, fh: (C, U) -> seq<L>)
    requires forall x :: x in xs ==> multiset(fh(c, h(x))) == multiset(f(c, x))
    ensures multiset(Flat(c, Map(xs, h), fh)) == multiset(Flat(c, xs, f))
  {
    if xs != [] {
      assert xs[0] in xs;
      assert forall x :: x in xs[1..] ==> x in xs;
      assert Map(xs, h)[1..] == Map(xs[1..], h);
      FlatMap(c, xs[1..], h, f, fh);
    }
  }

  /** The first position whose key is `k`, like a map lookup. */
  function FindBy<T>(xs: seq<T>, key: T -> string, k: string): (r: Option<nat>)
    ensures r.Some? ==> r.value < |xs| && key(xs[r.value]) == k
    ensures r.None? ==> forall i :: 0 <= i < |xs| ==> key(xs[i]) != k
  {
    if xs == [] then None
    else if key(xs[0]) == k then Some(0)
    else match FindBy(xs[1..], key, k)
      case Some(i) => Some(i + 1)
      case None => None
  }

  /** A lookup only sees keys: replacing an element by one with the same key finds the same position. */
  lemma {:induction false} FindByUpdate<T>(xs: seq<T>, key: T -> string, i: nat, y: T, k: string)
    requires i < |xs| && key(y) == key(xs[i])
    ensures FindBy(xs[i := y], key, k) == FindBy(xs, key, k)
  {
    if i == 0 {
      assert xs[i := y][1..] == xs[1..];
    } else {
      assert xs[i := y][1..] == xs[1..][i - 1 := y];
      FindByUpdate(xs[1..], key, i - 1, y, k);
    }
  }

  /** Appending an element makes its key findable at the end, unless an earlier element has it. */
  lemma {:induction false} FindByAppend<T>(xs: seq<T>, key: T -> string, y: T, k: string)
    ensures FindBy(xs + [y], key, k)
      == if FindBy(xs, key, k).Some? then FindBy(xs, key, k) else if key(y) == k then Some(|xs|) else None
  {
    if xs == [] {
      assert [y][1..] == [];
    } else {
      assert (xs + [y])[1..] == xs[1..] + [y];
      FindByAppend(xs[1..], key, y, k);
    }
  }

  /** No two elements share a key: the list is a map from keys to elements. */
  predicate DistinctBy<T>(xs: seq<T>, key: T -> string)
  {
    forall i, j :: 0 <= i < j < |xs| ==> key(xs[i]) != key(xs[j])
  }
}
