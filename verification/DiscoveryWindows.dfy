/**
 * Serving a long ordered list in slices out of a cache of fixed windows of it: trending tokens,
 * where a missing window is read from the database, and categories, where one missing window
 * refills them all.
 */
module DiscoveryWindows {
  import opened StableSort

  const WINDOW_SIZE := 100

  function Min(a: int, b: int): int { if a <= b then a else b }

  /** The array slice of the runtime: bounds past the end are cut to the end. */
  function Slice<T>(xs: seq<T>, from: nat, to: nat): seq<T>
    requires from <= to
  {
    xs[Min(from, |xs|)..Min(to, |xs|)]
  }

  /** The w-th window of a list. */
  function Window<T>(xs: seq<T>, w: nat): seq<T> {
    Slice(xs, w * WINDOW_SIZE, w * WINDOW_SIZE + WINDOW_SIZE)
  }

  /** Window w holds the rows at positions 100 * w to 100 * w + 99, as far as there are any. */
  lemma WindowHolds<T>(xs: seq<T>, w: nat)
    ensures |Window(xs, w)| == (if |xs| <= 100 * w then 0 else if |xs| < 100 * w + 100 then |xs| - 100 * w else 100)
    ensures forall i :: 0 <= i < |Window(xs, w)| ==> 100 * w + i < |xs| && Window(xs, w)[i] == xs[100 * w + i]
  {
  }

  /** A slice holds the rows from one bound up to the other, as far as there are any. */
  lemma SliceHolds<T>(xs: seq<T>, from: nat, to: nat)
    requires from <= to
    ensures |Slice(xs, from, to)| == (if |xs| <= from then 0 else if |xs| <= to then |xs| - from else to - from)
    ensures forall i :: 0 <= i < |Slice(xs, from, to)| ==> from + i < |xs| && Slice(xs, from, to)[i] == xs[from + i]
  {
  }

  type Cache<T> = map<nat, seq<T>>

  /** Every cached window is the window of the list as it stands. */
  ghost predicate Current<T>(cache: Cache<T>, xs: seq<T>) {
    forall w :: w in cache ==> cache[w] == Window(xs, w)
  }

  lemma NextWindow<T>(xs: seq<T>, start: nat, w: nat)
    requires start <= w
    ensures Slice(xs, start * WINDOW_SIZE, w * WINDOW_SIZE) + Window(xs, w) == Slice(xs, start * WINDOW_SIZE, (w + 1) * WINDOW_SIZE)
  {
  }

  lemma SliceOfSlice<T>(xs: seq<T>, base: nat, end: nat, offset: nat, limit: nat)
    requires base <= offset && offset + limit <= end
    ensures Slice(Slice(xs, base, end), offset - base, offset - base + limit) == Slice(xs, offset, offset + limit)
  {
  }

  /** Collect the windows a slice touches, filling those the cache lacks, and cut the slice out of them. */
  method GetTrending<T>(cache: Cache<T>, xs: seq<T>, offset: nat, limit: nat) returns (tokens: seq<T>, cache': Cache<T>)
    requires limit >= 1 && Current(cache, xs)
    ensures tokens == Slice(xs, offset, offset + limit)
    ensures Current(cache', xs) && cache.Keys <= cache'.Keys
  {
    var startWindow: nat := offset / WINDOW_SIZE;
    var endWindow: nat := (offset + limit - 1) / WINDOW_SIZE;
    var combined: seq<T> := [];
    cache' := cache;
    var w := startWindow;
    while w <= endWindow
      invariant startWindow <= w <= endWindow + 1
      invariant combined == Slice(xs, startWindow * WINDOW_SIZE, w * WINDOW_SIZE)
      invariant Current(cache', xs) && cache.Keys <= cache'.Keys
    {
      var window: seq<T>;
      if w in cache' {
        window := cache'[w];
      } else {
        window := Slice(xs, w * WINDOW_SIZE, w * WINDOW_SIZE + WINDOW_SIZE);
        cache' := cache'[w := window];
      }
      NextWindow(xs, startWindow, w);
      combined := combined + window;
      w := w + 1;
    }
    var startInCombined := offset - startWindow * WINDOW_SIZE;
    tokens := Slice(combined, startInCombined, startInCombined + limit);
    SliceOfSlice(xs, startWindow * WINDOW_SIZE, w * WINDOW_SIZE, offset, limit);
  }

  /** The windows of a list joined up to a given one. */
  function Joined<T>(cache: Cache<T>, count: nat): seq<T>
  {
    if count == 0 then [] else
      Joined(cache, count - 1) + if count - 1 in cache then cache[count - 1] else []
  }

  function WindowCount<T>(xs: seq<T>): nat { (|xs| + WINDOW_SIZE - 1) / WINDOW_SIZE }

  /** Keep the valid categories and write them out window by window. */
  method PopulateCategoryWindows<T>(cache: Cache<T>, categories: seq<T>, valid: T -> bool) returns (cache': Cache<T>)
    ensures var xs := Filter(categories, valid);
            && (forall w: nat :: w < WindowCount(xs) ==> w in cache' && cache'[w] == Window(xs, w))
            && (forall w: nat :: w >= WindowCount(xs) ==> (w in cache' <==> w in cache) && (w in cache ==> cache'[w] == cache[w]))
  {
    var xs := Filter(categories, valid);
    cache' := cache;
    var i := 0;
    ghost var k: nat := 0;
    while i < |xs|
      invariant i == k * WINDOW_SIZE && k <= WindowCount(xs)
      invariant i >= |xs| ==> k == WindowCount(xs)
      invariant forall w: nat :: w < k ==> w in cache' && cache'[w] == Window(xs, w)
      invariant forall w :: w >= k ==> (w in cache' <==> w in cache) && (w in cache ==> cache'[w] == cache[w])
      decreases |xs| - i
    {
      var windowIndex: nat := i / WINDOW_SIZE;
      cache' := cache'[windowIndex := Slice(xs, i, i + WINDOW_SIZE)];
      i := i + WINDOW_SIZE;
      k := k + 1;
    }
  }

  lemma {:induction false} JoinedIsSlice<T>(cache: Cache<T>, xs: seq<T>, count: nat)
    requires forall w: nat :: w < count ==> w in cache && cache[w] == Window(xs, w)
    ensures Joined(cache, count) == Slice(xs, 0, count * WINDOW_SIZE)
  {
    if count > 0 {
      JoinedIsSlice(cache, xs, count - 1);
      NextWindow(xs, 0, count - 1);
    }
  }

  /** Joining the written windows gives the whole filtered list back. */
  lemma WindowsConcatenateBack<T>(cache: Cache<T>, xs: seq<T>)
    requires forall w: nat :: w < WindowCount(xs) ==> w in cache && cache[w] == Window(xs, w)
    ensures Joined(cache, WindowCount(xs)) == xs
  {
    hide Joined;
    JoinedIsSlice(cache, xs, WindowCount(xs));
  }

  lemma PastTheEnd<T>(xs: seq<T>, w: nat)
    ensures w >= WindowCount(xs) ==> Window(xs, w) == []
  {
  }

  lemma NothingYet<T>(xs: seq<T>, from: nat)
    ensures Slice(xs, from, from) == []
  {
  }

  /** The category slice out of the cache; one miss refills every window, and a window past the end is empty. */
  method GetCategories<T>(cache: Cache<T>, categories: seq<T>, valid: T -> bool, offset: nat, limit: nat)
    returns (data: seq<T>, cache': Cache<T>)
    requires limit >= 1 && Current(cache, Filter(categories, valid))
    ensures data == Slice(Filter(categories, valid), offset, offset + limit)
    ensures Current(cache', Filter(categories, valid))
  {
    hide Slice, WindowCount, Filter, Window;
    ghost var xs := Filter(categories, valid);
    NothingYet(xs, offset / WINDOW_SIZE * WINDOW_SIZE);
    var startWindow: nat := offset / WINDOW_SIZE;
    var endWindow: nat := (offset + limit - 1) / WINDOW_SIZE;
    var combined: seq<T> := [];
    cache' := cache;
    var w := startWindow;
    while w <= endWindow
      invariant startWindow <= w <= endWindow + 1
      invariant combined == Slice(xs, startWindow * WINDOW_SIZE, w * WINDOW_SIZE)
      invariant Current(cache', xs)
    {
      PastTheEnd(xs, w);
      if w !in cache' {
        cache' := PopulateCategoryWindows(cache', categories, valid);
      }
      var window := if w in cache' then cache'[w] else [];
      NextWindow(xs, startWindow, w);
      combined := combined + window;
      w := w + 1;
    }
    var startInCombined := offset - startWindow * WINDOW_SIZE;
    data := Slice(combined, startInCombined, startInCombined + limit);
    SliceOfSlice(xs, startWindow * WINDOW_SIZE, w * WINDOW_SIZE, offset, limit);
  }

  // ---- Windows read separately ----

  /** The order of the query: one column, highest first, equal values as they come. */
  ghost predicate OrderedBy<T>(xs: seq<T>, key: T -> real) {
    forall i, j :: 0 <= i < j < |xs| ==> key(xs[i]) >= key(xs[j])
  }

  /** Another order the same query may give for the same rows. */
  ghost predicate Reordered<T>(ys: seq<T>, xs: seq<T>, key: T -> real) {
    OrderedBy(ys, key) && multiset(ys) == multiset(xs)
  }

  ghost predicate TieAt<T>(xs: seq<T>, key: T -> real, b: nat) {
    0 < b < |xs| && key(xs[b - 1]) == key(xs[b])
  }

  lemma {:induction false} FilterCounts<T>(xs: seq<T>, keep: T -> bool, e: T)
    ensures multiset(Filter(xs, keep))[e] == if keep(e) then multiset(xs)[e] else 0
  {
    if xs != [] {
      FilterCounts(xs[1..], keep, e);
      assert xs == [xs[0]] + xs[1..];
    }
  }

  lemma {:induction false} FilterPrefix<T>(xs: seq<T>, keep: T -> bool, n: nat)
    requires n <= |xs|
    requires (forall i :: 0 <= i < n ==> keep(xs[i])) && (forall i :: n <= i < |xs| ==> !keep(xs[i]))
    ensures Filter(xs, keep) == xs[..n]
  {
    if xs != [] {
      FilterPrefix(xs[1..], keep, if n == 0 then 0 else n - 1);
      if n > 0 { assert xs[..n] == [xs[0]] + xs[1..][..n - 1]; }
    }
  }

  /** In an ordered list the rows of at least a value are a prefix. */
  lemma AtLeastIsPrefix<T>(xs: seq<T>, key: T -> real, least: real) returns (n: nat)
    requires OrderedBy(xs, key)
    ensures n <= |xs|
    ensures (forall i :: 0 <= i < n ==> key(xs[i]) >= least) && (forall i :: n <= i < |xs| ==> key(xs[i]) < least)
  {
    n := 0;
    while n < |xs| && key(xs[n]) >= least
      invariant n <= |xs| && forall i :: 0 <= i < n ==> key(xs[i]) >= least
    {
      n := n + 1;
    }
  }

  /** Without a tie across a boundary, every order puts the same rows before it. */
  lemma NoTieSameRows<T>(xs: seq<T>, ys: seq<T>, key: T -> real, b: nat)
    requires OrderedBy(xs, key) && Reordered(ys, xs, key) && b <= |xs| && !TieAt(xs, key, b)
    ensures |ys| == |xs| && multiset(ys[..b]) == multiset(xs[..b])
  {
    assert |ys| == |multiset(ys)| == |multiset(xs)| == |xs|;
    if b == |xs| {
      assert xs[..b] == xs && ys[..b] == ys;
    } else if b > 0 {
      var keep := (e: T) => key(e) >= key(xs[b - 1]);
      FilterPrefix(xs, keep, b);
      var n := AtLeastIsPrefix(ys, key, key(xs[b - 1]));
      FilterPrefix(ys, keep, n);
      hide OrderedBy, Filter;
      SameCut(xs, ys, keep, b, n);
    }
  }

  lemma SameCut<T>(xs: seq<T>, ys: seq<T>, keep: T -> bool, b: nat, n: nat)
    requires multiset(xs) == multiset(ys) && b <= |xs| && n <= |ys|
    requires Filter(xs, keep) == xs[..b] && Filter(ys, keep) == ys[..n]
    ensures n == b && multiset(ys[..n]) == multiset(xs[..b])
  {
    hide Filter;
    forall e ensures multiset(ys[..n])[e] == multiset(xs[..b])[e] {
      FilterCounts(xs, keep, e);
      FilterCounts(ys, keep, e);
    }
    assert multiset(ys[..n]) == multiset(xs[..b]);
    assert n == |multiset(ys[..n])| && b == |multiset(xs[..b])|;
  }

  lemma WindowIsDifference<T>(xs: seq<T>, w: nat)
    ensures var lo, hi := Min(w * WINDOW_SIZE, |xs|), Min((w + 1) * WINDOW_SIZE, |xs|);
            multiset(Window(xs, w)) == multiset(xs[..hi]) - multiset(xs[..lo])
  {
    var lo, hi := Min(w * WINDOW_SIZE, |xs|), Min((w + 1) * WINDOW_SIZE, |xs|);
    assert Window(xs, w) == xs[lo..hi];
    assert xs[..hi] == xs[..lo] + xs[lo..hi];
  }

  ghost predicate NoTieAtWindows<T>(xs: seq<T>, key: T -> real) {
    forall w: nat :: !TieAt(xs, key, w * WINDOW_SIZE)
  }

  /** Whichever order a window is read in, it holds the same rows. */
  ghost predicate WindowsFit<T(!new)>(xs: seq<T>, key: T -> real) {
    forall ys, w: nat :: Reordered(ys, xs, key) ==> multiset(Window(ys, w)) == multiset(Window(xs, w))
  }

  lemma NoTieSameWindow<T>(xs: seq<T>, ys: seq<T>, key: T -> real, w: nat)
    requires OrderedBy(xs, key) && Reordered(ys, xs, key) && NoTieAtWindows(xs, key)
    ensures multiset(Window(ys, w)) == multiset(Window(xs, w))
  {
    var lo, hi := Min(w * WINDOW_SIZE, |xs|), Min((w + 1) * WINDOW_SIZE, |xs|);
    assert !TieAt(xs, key, w * WINDOW_SIZE) && !TieAt(xs, key, (w + 1) * WINDOW_SIZE);
    NoTieSameRows(xs, ys, key, lo);
    NoTieSameRows(xs, ys, key, hi);
    WindowIsDifference(xs, w);
    WindowIsDifference(ys, w);
  }

  /** The order with the two rows that tie across a boundary exchanged. */
  function Exchanged<T>(xs: seq<T>, b: nat): seq<T>
    requires 0 < b < |xs|
  {
    xs[..b - 1] + [xs[b], xs[b - 1]] + xs[b + 1..]
  }

  lemma ExchangedIsReordered<T>(xs: seq<T>, key: T -> real, b: nat)
    requires OrderedBy(xs, key) && TieAt(xs, key, b)
    ensures Reordered(Exchanged(xs, b), xs, key)
  {
    var ys := Exchanged(xs, b);
    forall i | 0 <= i < |xs| ensures key(ys[i]) == key(xs[i]) {
    }
    assert xs == xs[..b - 1] + [xs[b - 1], xs[b]] + xs[b + 1..];
    assert multiset([xs[b], xs[b - 1]]) == multiset([xs[b - 1], xs[b]]);
  }

  /** A tie across the end of a window lets another order put a row into it that belongs to the next. */
  lemma TieMovesRow<T>(xs: seq<T>, w: nat)
    requires 0 < w * WINDOW_SIZE < |xs| && forall i, j :: 0 <= i < j < |xs| ==> xs[i] != xs[j]
    ensures var b := w * WINDOW_SIZE;
            xs[b] in Window(Exchanged(xs, b), w - 1) && xs[b] !in Window(xs, w - 1)
  {
    var b := w * WINDOW_SIZE;
    var ys := Exchanged(xs, b);
    assert ys[b - 1] == xs[b];
    assert Window(ys, w - 1) == ys[b - WINDOW_SIZE..b] && Window(ys, w - 1)[WINDOW_SIZE - 1] == ys[b - 1];
    assert Window(xs, w - 1) == xs[b - WINDOW_SIZE..b];
  }

  /**
   * The query orders by one column only, so each window that is read may come from another order of
   * the same rows. Each window holds the same rows whatever the order, so that windows read apart
   * still make up the list, exactly when no two rows of equal value meet at a window's end.
   */
  lemma WindowsFitIff<T(!new)>(xs: seq<T>, key: T -> real)
    requires OrderedBy(xs, key) && forall i, j :: 0 <= i < j < |xs| ==> xs[i] != xs[j]
    ensures WindowsFit(xs, key) <==> NoTieAtWindows(xs, key)
  {
    if NoTieAtWindows(xs, key) {
      forall ys, w: nat | Reordered(ys, xs, key) ensures multiset(Window(ys, w)) == multiset(Window(xs, w)) {
        NoTieSameWindow(xs, ys, key, w);
      }
    } else {
      var w: nat :| TieAt(xs, key, w * WINDOW_SIZE);
      var b := w * WINDOW_SIZE;
      ExchangedIsReordered(xs, key, b);
      TieMovesRow(xs, w);
      assert xs[b] in multiset(Window(Exchanged(xs, b), w - 1));
      assert xs[b] !in multiset(Window(xs, w - 1));
    }
  }
}
