/** Stable sorting of records by a byte-string key. */
module Sorting {
  import opened Bytes

  ghost predicate Sorted<T(!new)>(key: T -> Bytes, xs: seq<T>) {
    forall i, j :: 0 <= i < j < |xs| ==> !Less(key(xs[j]), key(xs[i]))
  }

  ghost predicate StrictlySorted<T(!new)>(key: T -> Bytes, xs: seq<T>) {
    forall i, j :: 0 <= i < j < |xs| ==> Less(key(xs[i]), key(xs[j]))
  }

  /** Puts `x` before the first record whose key is not smaller. */
  function Insert<T>(key: T -> Bytes, x: T, xs: seq<T>): seq<T> {
    if xs == [] then [x]
    else if Less(key(xs[0]), key(x)) then [xs[0]] + Insert(key, x, xs[1..])
    else [x] + xs
  }

  /** The library's stable sort. */
  function Sort<T>(key: T -> Bytes, xs: seq<T>): seq<T> {
    if xs == [] then [] else Insert(key, xs[0], Sort(key, xs[1..]))
  }

  /** Some neighbours carry the same key. */
  predicate HasEqualNeighbours<T>(key: T -> Bytes, xs: seq<T>) {
    exists i :: 0 < i < |xs| && key(xs[i - 1]) == key(xs[i])
  }

  lemma {:induction false} InsertSorts<T(!new)>(key: T -> Bytes, x: T, xs: seq<T>)
    requires Sorted(key, xs)
    ensures multiset(Insert(key, x, xs)) == multiset(xs) + multiset{x}
    ensures Sorted(key, Insert(key, x, xs))
  {
    if xs != [] {
      assert xs == [xs[0]] + xs[1..];
      if Less(key(xs[0]), key(x)) {
        InsertSorts(key, x, xs[1..]);
        InsertBelow(key, x, xs);
      } else {
        forall j | 0 <= j < |xs|
          ensures !Less(key(xs[j]), key(x))
        {
          if Less(key(xs[j]), key(x)) {
            LessThrough(key(xs[j]), key(x), key(xs[0]));
          }
        }
      }
    }
  }

  lemma LessThrough(a: Bytes, b: Bytes, c: Bytes)
    requires Less(a, b) && !Less(c, b)
    ensures Less(a, c)
  {
  }

  lemma InsertBelow<T(!new)>(key: T -> Bytes, x: T, xs: seq<T>)
    requires xs != [] && Sorted(key, xs) && Less(key(xs[0]), key(x))
    requires multiset(Insert(key, x, xs[1..])) == multiset(xs[1..]) + multiset{x}
    requires Sorted(key, Insert(key, x, xs[1..]))
    ensures Sorted(key, Insert(key, x, xs))
  {
    var tail := Insert(key, x, xs[1..]);
    forall j | 0 <= j < |tail|
      ensures !Less(key(tail[j]), key(xs[0]))
    {
      assert tail[j] in multiset(tail);
      if tail[j] == x {
        if Less(key(x), key(xs[0])) {
          LessTransitive(key(x), key(xs[0]), key(x));
          LessIrreflexive(key(x));
        }
      } else {
        assert tail[j] in xs[1..];
      }
    }
  }

  /** Sorting permutes and sorts. */
  lemma {:induction false} SortSorts<T(!new)>(key: T -> Bytes, xs: seq<T>)
    ensures multiset(Sort(key, xs)) == multiset(xs)
    ensures Sorted(key, Sort(key, xs))
  {
    if xs != [] {
      SortSorts(key, xs[1..]);
      InsertSorts(key, xs[0], Sort(key, xs[1..]));
      assert xs == [xs[0]] + xs[1..];
    }
  }

  /** In a sorted list, distinct neighbours mean that all keys are distinct. */
  lemma {:induction false} DistinctNeighbours<T(!new)>(key: T -> Bytes, xs: seq<T>)
    requires Sorted(key, xs)
    ensures StrictlySorted(key, xs) <==> !HasEqualNeighbours(key, xs)
  {
    if HasEqualNeighbours(key, xs) {
      var i :| 0 < i < |xs| && key(xs[i - 1]) == key(xs[i]);
      LessIrreflexive(key(xs[i]));
    } else {
      forall i, j | 0 <= i < j < |xs|
        ensures Less(key(xs[i]), key(xs[j]))
      {
        LessTotal(key(xs[i]), key(xs[i + 1]));
        if i + 1 < j && !Less(key(xs[i]), key(xs[j])) {
          LessThrough(key(xs[i]), key(xs[i + 1]), key(xs[j]));
        }
      }
    }
  }

  lemma SortedHead<T(!new)>(key: T -> Bytes, a: seq<T>, b: seq<T>)
    requires StrictlySorted(key, a) && Sorted(key, b) && multiset(a) == multiset(b) && a != [] && b != []
    ensures a[0] == b[0]
  {
    assert b[0] in multiset(a) && a[0] in multiset(b);
    var i :| 0 <= i < |a| && a[i] == b[0];
    var j :| 0 <= j < |b| && b[j] == a[0];
    LessIrreflexive(key(a[0]));
  }

  lemma SortedTail<T(!new)>(key: T -> Bytes, a: seq<T>, b: seq<T>)
    requires StrictlySorted(key, a) && Sorted(key, b) && multiset(a) == multiset(b)
    requires a != [] && b != [] && a[0] == b[0]
    ensures StrictlySorted(key, a[1..]) && Sorted(key, b[1..]) && multiset(a[1..]) == multiset(b[1..])
  {
    assert a == [a[0]] + a[1..] && b == [b[0]] + b[1..];
    assert multiset(a[1..]) == multiset(a) - multiset{a[0]};
    assert multiset(b[1..]) == multiset(b) - multiset{b[0]};
  }

  /** A strictly sorted list is the only sorted arrangement of its elements. */
  lemma {:induction false} SortedUnique<T(!new)>(key: T -> Bytes, a: seq<T>, b: seq<T>)
    requires StrictlySorted(key, a) && Sorted(key, b) && multiset(a) == multiset(b)
    ensures a == b
  {
    assert |a| == |multiset(a)| == |multiset(b)| == |b|;
    if a != [] {
      hide Sorted, StrictlySorted;
      SortedHead(key, a, b);
      SortedTail(key, a, b);
      SortedUnique(key, a[1..], b[1..]);
    }
  }

  /** Sorting does nothing to a strictly sorted list. */
  lemma SortKeepsSorted<T(!new)>(key: T -> Bytes, xs: seq<T>)
    requires StrictlySorted(key, xs)
    ensures Sort(key, xs) == xs
  {
    SortSorts(key, xs);
    SortedUnique(key, xs, Sort(key, xs));
  }

  /** Permuting the input changes neither whether keys collide nor, when they do not, the sorted list. */
  lemma SortPermuted<T(!new)>(key: T -> Bytes, xs: seq<T>, ys: seq<T>)
    requires multiset(xs) == multiset(ys)
    ensures HasEqualNeighbours(key, Sort(key, xs)) <==> HasEqualNeighbours(key, Sort(key, ys))
    ensures !HasEqualNeighbours(key, Sort(key, xs)) ==> Sort(key, xs) == Sort(key, ys)
  {
    SortSorts(key, xs);
    SortSorts(key, ys);
    DistinctNeighbours(key, Sort(key, xs));
    DistinctNeighbours(key, Sort(key, ys));
    if !HasEqualNeighbours(key, Sort(key, xs)) {
      SortedUnique(key, Sort(key, xs), Sort(key, ys));
    } else if !HasEqualNeighbours(key, Sort(key, ys)) {
      SortedUnique(key, Sort(key, ys), Sort(key, xs));
    }
  }

  // ----- Distinct keys -----

  ghost predicate DistinctKeys<T(!new)>(key: T -> Bytes, xs: seq<T>) {
    forall i, j :: 0 <= i < j < |xs| ==> key(xs[i]) != key(xs[j])
  }

  function Without<T>(xs: seq<T>, i: nat): seq<T>
    requires i < |xs|
  {
    xs[..i] + xs[i + 1..]
  }

  lemma WithoutMultiset<T>(xs: seq<T>, j: nat)
    requires j < |xs|
    ensures multiset(xs) == multiset(Without(xs, j)) + multiset{xs[j]}
  {
    assert xs == xs[..j] + [xs[j]] + xs[j + 1..];
  }

  lemma {:induction false} SameOthers<T>(xs: seq<T>, i: nat, ys: seq<T>, p: nat)
    requires multiset(xs) == multiset(ys) && i < |xs| && p < |ys| && xs[i] == ys[p]
    ensures multiset(Without(xs, i)) == multiset(Without(ys, p))
  {
    hide Without;
    WithoutMultiset(xs, i);
    WithoutMultiset(ys, p);
    assert multiset(Without(xs, i)) == multiset(xs) - multiset{xs[i]};
    assert multiset(Without(ys, p)) == multiset(ys) - multiset{ys[p]};
  }

  /** Permuting does not make keys meet. */
  lemma DistinctPermuted<T(!new)>(key: T -> Bytes, xs: seq<T>, ys: seq<T>)
    requires multiset(xs) == multiset(ys) && DistinctKeys(key, ys)
    ensures DistinctKeys(key, xs)
  {
    forall i, j | 0 <= i < j < |xs|
      ensures key(xs[i]) != key(xs[j])
    {
      assert xs[i] in multiset(ys);
      var p :| 0 <= p < |ys| && ys[p] == xs[i];
      SameOthers(xs, i, ys, p);
      assert Without(xs, i)[j - 1] == xs[j] && xs[j] in multiset(Without(xs, i));
      var q :| 0 <= q < |Without(ys, p)| && Without(ys, p)[q] == xs[j];
      assert xs[j] == ys[if q < p then q else q + 1];
    }
  }

  lemma StrictIsDistinct<T(!new)>(key: T -> Bytes, xs: seq<T>)
    requires StrictlySorted(key, xs)
    ensures DistinctKeys(key, xs)
  {
    forall i, j | 0 <= i < j < |xs|
      ensures key(xs[i]) != key(xs[j])
    {
      LessIrreflexive(key(xs[i]));
    }
  }

  /** Sorting records with distinct keys leaves no equal neighbours. */
  lemma DistinctSorts<T(!new)>(key: T -> Bytes, xs: seq<T>)
    requires DistinctKeys(key, xs)
    ensures !HasEqualNeighbours(key, Sort(key, xs))
  {
    SortSorts(key, xs);
    DistinctPermuted(key, Sort(key, xs), xs);
  }
}
