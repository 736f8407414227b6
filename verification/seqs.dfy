/** Lists used as enumerations of sets: Go ranges over maps and sets in an
    unspecified order, which the model passes in as a duplicate-free list. */
module Seqs {

  predicate Distinct<T(==)>(xs: seq<T>) {
    forall i, j :: 0 <= i < j < |xs| ==> xs[i] != xs[j]
  }

  lemma DistinctAppend<T>(xs: seq<T>, ys: seq<T>)
    requires Distinct(xs) && Distinct(ys)
    requires forall a, b :: a in xs && b in ys ==> a != b
    ensures Distinct(xs + ys)
  {
    forall i, j | 0 <= i < j < |xs + ys| ensures (xs + ys)[i] != (xs + ys)[j] {
      if j < |xs| {
      } else if i >= |xs| {
        assert (xs + ys)[i] == ys[i - |xs|];
      } else {
        assert (xs + ys)[i] in xs && (xs + ys)[j] in ys;
      }
    }
  }

  function Elements<T>(xs: seq<T>): set<T> {
    set x | x in xs
  }

  lemma InElements<T>(xs: seq<T>, k: nat)
    requires k < |xs|
    ensures xs[k] in Elements(xs)
  {
  }

  lemma ElementsCons<T>(done: set<T>, xs: seq<T>)
    requires xs != []
    ensures done + Elements(xs) == done + {xs[0]} + Elements(xs[1..])
  {
    assert forall x :: x in xs <==> x == xs[0] || x in xs[1..];
  }

  /** Dropping the element at position i from a list without duplicates
      drops exactly that element from its set. */
  lemma DistinctRemove<T>(xs: seq<T>, i: nat)
    requires Distinct(xs) && i < |xs|
    ensures Distinct(xs[..i] + xs[i + 1..])
    ensures Elements(xs[..i] + xs[i + 1..]) == Elements(xs) - {xs[i]}
  {
    var rest := xs[..i] + xs[i + 1..];
    assert forall j :: 0 <= j < |rest| ==> rest[j] == if j < i then xs[j] else xs[j + 1];
    forall y | y in Elements(xs) - {xs[i]} ensures y in Elements(rest) {
      var j :| 0 <= j < |xs| && xs[j] == y;
      if j < i { assert rest[j] == y; } else { assert rest[j - 1] == y; }
    }
  }

  predicate Increasing(xs: seq<int>) {
    forall i, j :: 0 <= i < j < |xs| ==> xs[i] < xs[j]
  }

  function Sum(xs: seq<int>): int {
    if xs == [] then 0 else xs[0] + Sum(xs[1..])
  }

  lemma IncreasingCons(x: int, xs: seq<int>)
    requires Increasing(xs) && forall y :: y in xs ==> x < y
    ensures Increasing([x] + xs)
  {
    forall i, j | 0 <= i < j < |[x] + xs| ensures ([x] + xs)[i] < ([x] + xs)[j] {
      assert ([x] + xs)[j] == xs[j - 1];
      if i == 0 {
        assert xs[j - 1] in xs;
      }
    }
  }

  /** The list with every repeat of an earlier element dropped. */
  function Dedup<T(==)>(xs: seq<T>): (d: seq<T>)
    ensures Distinct(d)
    ensures Elements(d) == Elements(xs)
  {
    if xs == [] then []
    else
      var d := Dedup(xs[..|xs| - 1]);
      var x := xs[|xs| - 1];
      assert xs == xs[..|xs| - 1] + [x];
      assert Elements(xs) == Elements(xs[..|xs| - 1]) + {x};
      if x in d then d
      else
        DistinctAppend(d, [x]);
        d + [x]
  }

  lemma {:induction false} SumAppend(xs: seq<int>, ys: seq<int>)
    ensures Sum(xs + ys) == Sum(xs) + Sum(ys)
    decreases |xs|
  {
    if xs == [] {
      assert xs + ys == ys;
    } else {
      assert (xs + ys)[1..] == xs[1..] + ys;
      SumAppend(xs[1..], ys);
    }
  }

  /** The sum of a list is its element at i plus the sum of the others. */
  lemma SumRemove(xs: seq<int>, i: nat)
    requires i < |xs|
    ensures Sum(xs) == xs[i] + Sum(xs[..i] + xs[i + 1..])
  {
    var a, b := xs[..i], xs[i + 1..];
    var c := [xs[i]] + b;
    assert xs == a + c;
    assert Sum(c) == xs[i] + Sum(b) by {
      assert c[1..] == b;
    }
    SumAppend(a, c);
    SumAppend(a, b);
  }

  /** Two duplicate-free lists of the same elements have the same sum: the
      order a set is ranged over does not change its total. */
  lemma {:induction false} SumOrderFree(xs: seq<int>, ys: seq<int>)
    requires Distinct(xs) && Distinct(ys) && Elements(xs) == Elements(ys)
    ensures Sum(xs) == Sum(ys)
    decreases |xs|
  {
    if xs == [] {
      if ys != [] {
        InElements(ys, 0);
        assert false;
      }
    } else {
      assert xs[0] in Elements(ys);
      var i :| 0 <= i < |ys| && ys[i] == xs[0];
      DistinctRemove(ys, i);
      DistinctRemove(xs, 0);
      assert xs[..0] + xs[1..] == xs[1..];
      SumRemove(ys, i);
      SumOrderFree(xs[1..], ys[..i] + ys[i + 1..]);
    }
  }
}
