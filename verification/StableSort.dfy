/** The array sort of the runtime, which is stable, for a comparator given as "goes strictly before". */
module StableSort {

  ghost predicate WeakOrder<T(!new)>(before: (T, T) -> bool) {
    && (forall a, b :: before(a, b) ==> !before(b, a))
    && (forall a, b, c :: !before(a, b) && !before(b, c) ==> !before(a, c))
  }

  ghost predicate Sorted<T>(xs: seq<T>, before: (T, T) -> bool) {
    forall i, j :: 0 <= i < j < |xs| ==> !before(xs[j], xs[i])
  }

  /** Places x ahead of the first element it does not come after, so x stays ahead of its equals. */
  function Insert<T>(x: T, xs: seq<T>, before: (T, T) -> bool): (r: seq<T>)
    ensures |r| == |xs| + 1
  {
    if xs == [] then [x]
    else if before(xs[0], x) then [xs[0]] + Insert(x, xs[1..], before)
    else [x] + xs
  }

  function Sort<T>(xs: seq<T>, before: (T, T) -> bool): (r: seq<T>)
    ensures |r| == |xs|
  {
    if xs == [] then [] else Insert(xs[0], Sort(xs[1..], before), before)
  }

  function Filter<T>(xs: seq<T>, keep: T -> bool): (r: seq<T>)
  {
    if xs == [] then [] else (if keep(xs[0]) then [xs[0]] else []) + Filter(xs[1..], keep)
  }

  lemma {:induction false} InsertElements<T>(x: T, xs: seq<T>, before: (T, T) -> bool)
    ensures multiset(Insert(x, xs, before)) == multiset{x} + multiset(xs)
  {
    if xs != [] {
      assert xs == [xs[0]] + xs[1..];
      if before(xs[0], x) {
        InsertElements(x, xs[1..], before);
      }
    }
  }

  lemma {:induction false} SortElements<T>(xs: seq<T>, before: (T, T) -> bool)
    ensures multiset(Sort(xs, before)) == multiset(xs)
  {
    if xs != [] {
      assert xs == [xs[0]] + xs[1..];
      SortElements(xs[1..], before);
      InsertElements(xs[0], Sort(xs[1..], before), before);
    }
  }

  lemma InsertMember<T>(x: T, xs: seq<T>, before: (T, T) -> bool, e: T)
    requires e in Insert(x, xs, before)
    ensures e == x || e in xs
  {
    InsertElements(x, xs, before);
    assert e in multiset(Insert(x, xs, before));
  }

  lemma {:induction false} InsertSorted<T(!new)>(x: T, xs: seq<T>, before: (T, T) -> bool)
    requires WeakOrder(before) && Sorted(xs, before)
    ensures Sorted(Insert(x, xs, before), before)
  {
    if xs != [] && before(xs[0], x) {
      var rest := Insert(x, xs[1..], before);
      InsertSorted(x, xs[1..], before);
      forall j | 0 <= j < |rest|
        ensures !before(rest[j], xs[0])
      {
        InsertMember(x, xs[1..], before, rest[j]);
      }
    }
  }

  lemma {:induction false} SortSorted<T(!new)>(xs: seq<T>, before: (T, T) -> bool)
    requires WeakOrder(before)
    ensures Sorted(Sort(xs, before), before)
  {
    if xs != [] {
      SortSorted(xs[1..], before);
      InsertSorted(xs[0], Sort(xs[1..], before), before);
    }
  }

  /** A list already in order comes back untouched. */
  lemma {:induction false} SortOfSorted<T>(xs: seq<T>, before: (T, T) -> bool)
    requires Sorted(xs, before)
    ensures Sort(xs, before) == xs
  {
    if xs != [] {
      SortOfSorted(xs[1..], before);
      assert xs == [xs[0]] + xs[1..];
      if |xs| > 1 {
        assert !before(xs[1], xs[0]);
      }
    }
  }

  lemma FilterCons<T>(x: T, xs: seq<T>, keep: T -> bool)
    ensures Filter([x] + xs, keep) == (if keep(x) then [x] else []) + Filter(xs, keep)
  {
    assert ([x] + xs)[1..] == xs;
  }

  lemma {:induction false} FilterOfInsert<T(!new)>(x: T, xs: seq<T>, before: (T, T) -> bool, keep: T -> bool)
    requires WeakOrder(before) && Sorted(xs, before)
    ensures Filter(Insert(x, xs, before), keep) ==
            if keep(x) then Insert(x, Filter(xs, keep), before) else Filter(xs, keep)
  {
    if xs == [] {
    } else if before(xs[0], x) {
      FilterOfInsert(x, xs[1..], before, keep);
      FilterCons(xs[0], Insert(x, xs[1..], before), keep);
      if keep(xs[0]) {
        assert ([xs[0]] + Filter(xs[1..], keep))[1..] == Filter(xs[1..], keep);
      } else {
        assert Filter(xs, keep) == Filter(xs[1..], keep);
      }
    } else {
      FilterCons(x, xs, keep);
      InsertAhead(x, xs, before, keep);
    }
  }

  lemma {:induction false} InsertAhead<T(!new)>(x: T, xs: seq<T>, before: (T, T) -> bool, keep: T -> bool)
    requires WeakOrder(before) && Sorted(xs, before)
    requires xs != [] ==> !before(xs[0], x)
    ensures Insert(x, Filter(xs, keep), before) == [x] + Filter(xs, keep)
  {
    if xs != [] && !keep(xs[0]) {
      assert Filter(xs, keep) == Filter(xs[1..], keep);
      if |xs| > 1 {
        assert !before(xs[1], xs[0]);
      }
      InsertAhead(x, xs[1..], before, keep);
    }
  }

  /** Filtering commutes with sorting, so a query may do them in either order. */
  lemma {:induction false} FilterOfSort<T(!new)>(xs: seq<T>, before: (T, T) -> bool, keep: T -> bool)
    requires WeakOrder(before)
    ensures Filter(Sort(xs, before), keep) == Sort(Filter(xs, keep), before)
  {
    if xs != [] {
      SortSorted(xs[1..], before);
      FilterOfSort(xs[1..], before, keep);
      FilterOfInsert(xs[0], Sort(xs[1..], before), before, keep);
      FilterCons(xs[0], xs[1..], keep);
      if keep(xs[0]) {
        assert ([xs[0]] + Filter(xs[1..], keep))[1..] == Filter(xs[1..], keep);
      } else {
        assert Filter(xs, keep) == Filter(xs[1..], keep);
      }
    }
  }

  lemma {:induction false} FilterMember<T>(xs: seq<T>, keep: T -> bool, e: T)
    ensures e in Filter(xs, keep) <==> e in xs && keep(e)
  {
    if xs != [] {
      FilterMember(xs[1..], keep, e);
      assert xs == [xs[0]] + xs[1..];
    }
  }

  /** Stability at the front: the head is an element nothing comes before, and the first such one. */
  lemma {:induction false} SortHead<T(!new)>(xs: seq<T>, before: (T, T) -> bool) returns (k: nat)
    requires WeakOrder(before) && xs != []
    ensures k < |xs| && Sort(xs, before)[0] == xs[k]
    ensures forall j :: 0 <= j < |xs| ==> !before(xs[j], xs[k])
    ensures forall j :: 0 <= j < k ==> before(xs[k], xs[j])
  {
    if |xs| == 1 {
      k := 0;
    } else {
      var k' := SortHead(xs[1..], before);
      if before(xs[1..][k'], xs[0]) {
        k := k' + 1;
        forall j | 0 <= j < k
          ensures before(xs[k], xs[j])
        {
          if j > 0 { assert xs[j] == xs[1..][j - 1]; }
        }
      } else {
        k := 0;
        forall j | 0 <= j < |xs|
          ensures !before(xs[j], xs[0])
        {
          if j > 0 { assert xs[j] == xs[1..][j - 1]; }
        }
      }
    }
  }
}
