/**
 * Reading a wallet's staking history page by page, newest first, each page after the first
 * starting below the row whose signature the previous page ended on.
 */
module StakingHistoryPages {
  import opened Wrappers
  import opened StableSort

  /** Signatures are ordered as the database collates them; only that it is a total order matters. */
  type Signature = int

  datatype Record = Record(wallet: string, blockTime: int, signature: Signature)
  type Table = seq<Record>

  /** The unique index on signatures. */
  ghost predicate Indexed(t: Table) {
    forall i, j :: 0 <= i < j < |t| ==> t[i].signature != t[j].signature
  }

  predicate Newer(a: Record, b: Record) {
    a.blockTime > b.blockTime || (a.blockTime == b.blockTime && a.signature > b.signature)
  }

  function NewestFirst(): (Record, Record) -> bool { (a: Record, b: Record) => Newer(a, b) }

  function FindCursor(t: Table, signature: Signature): Option<Record> {
    if t == [] then None else if t[0].signature == signature then Some(t[0]) else FindCursor(t[1..], signature)
  }

  /** The row condition of the page query. */
  function Matches(wallet: string, cursor: Option<Record>): Record -> bool {
    (r: Record) => r.wallet == wallet && (cursor.Some? ==> Newer(cursor.value, r))
  }

  /** The page query without its limit. */
  function Query(t: Table, wallet: string, before: Option<Signature>): seq<Record> {
    match before
    case None => Sort(Filter(t, Matches(wallet, None)), NewestFirst())
    case Some(signature) =>
      match FindCursor(t, signature)
      case None => []
      case Some(cursor) => Sort(Filter(t, Matches(wallet, Some(cursor))), NewestFirst())
  }

  function ReadHistoryPage(t: Table, wallet: string, before: Option<Signature>, limit: nat): seq<Record> {
    var rows := Query(t, wallet, before);
    if |rows| <= limit then rows else rows[..limit]
  }

  /** One row more than asked for is read, only to learn whether there is a next page. */
  function GetHistory(t: Table, wallet: string, before: Option<Signature>, pageSize: nat): (seq<Record>, Option<Signature>) {
    var records := ReadHistoryPage(t, wallet, before, pageSize + 1);
    var hasMore := |records| > pageSize;
    var page := if hasMore then records[..pageSize] else records;
    (page, if hasMore && |page| > 0 then Some(page[|page| - 1].signature) else None)
  }

  // ---- The order of a query's rows ----

  ghost predicate Descending(rows: seq<Record>) {
    forall i, j :: 0 <= i < j < |rows| ==> Newer(rows[i], rows[j])
  }

  lemma NewestFirstIsWeakOrder()
    ensures WeakOrder(NewestFirst())
  {
  }

  lemma {:induction false} FilterIndexed(t: Table, keep: Record -> bool)
    requires Indexed(t)
    ensures Indexed(Filter(t, keep))
  {
    if t != [] {
      FilterIndexed(t[1..], keep);
      forall r | r in Filter(t[1..], keep)
        ensures r.signature != t[0].signature
      {
        FilterMember(t[1..], keep, r);
      }
    }
  }

  lemma {:induction false} InsertIndexed(x: Record, t: Table, before: (Record, Record) -> bool)
    requires Indexed(t) && forall r :: r in t ==> r.signature != x.signature
    ensures Indexed(Insert(x, t, before))
  {
    if t != [] && before(t[0], x) {
      InsertIndexed(x, t[1..], before);
      forall r | r in Insert(x, t[1..], before)
        ensures r.signature != t[0].signature
      {
        InsertMember(x, t[1..], before, r);
      }
    }
  }

  lemma {:induction false} SortIndexed(t: Table, before: (Record, Record) -> bool)
    requires Indexed(t)
    ensures Indexed(Sort(t, before))
  {
    if t != [] {
      SortIndexed(t[1..], before);
      forall r | r in Sort(t[1..], before)
        ensures r.signature != t[0].signature
      {
        SortMember(t[1..], before, r);
      }
      InsertIndexed(t[0], Sort(t[1..], before), before);
    }
  }

  lemma SortMember(t: Table, before: (Record, Record) -> bool, r: Record)
    ensures r in Sort(t, before) <==> r in t
  {
    SortElements(t, before);
    assert r in Sort(t, before) <==> r in multiset(Sort(t, before));
    assert r in t <==> r in multiset(t);
  }

  lemma SortedMatches(t: Table, keep: Record -> bool)
    requires Indexed(t)
    ensures Descending(Sort(Filter(t, keep), NewestFirst()))
    ensures forall r :: r in Sort(Filter(t, keep), NewestFirst()) <==> r in t && keep(r)
  {
    var rows := Sort(Filter(t, keep), NewestFirst());
    NewestFirstIsWeakOrder();
    SortSorted(Filter(t, keep), NewestFirst());
    FilterIndexed(t, keep);
    SortIndexed(Filter(t, keep), NewestFirst());
    forall i, j | 0 <= i < j < |rows|
      ensures Newer(rows[i], rows[j])
    {
      assert !NewestFirst()(rows[j], rows[i]);
    }
    forall r
      ensures r in rows <==> r in t && keep(r)
    {
      SortMember(Filter(t, keep), NewestFirst(), r);
      FilterMember(t, keep, r);
    }
  }

  lemma {:induction false} FindCursorFinds(t: Table, r: Record)
    requires Indexed(t) && r in t
    ensures FindCursor(t, r.signature) == Some(r)
  {
    if t[0] != r {
      assert r in t[1..];
      FindCursorFinds(t[1..], r);
    }
  }

  lemma {:induction false} FilterTwice(t: Table, keep: Record -> bool, also: Record -> bool, both: Record -> bool)
    requires forall r :: both(r) <==> keep(r) && also(r)
    ensures Filter(Filter(t, keep), also) == Filter(t, both)
  {
    if t != [] {
      FilterTwice(t[1..], keep, also, both);
      if keep(t[0]) {
        FilterCons(t[0], Filter(t[1..], keep), also);
      } else {
        assert Filter(t, keep) == Filter(t[1..], keep);
      }
    }
  }

  lemma {:induction false} FilterSuffix(rows: seq<Record>, keep: Record -> bool, n: nat)
    requires n <= |rows|
    requires forall i :: 0 <= i < n ==> !keep(rows[i])
    requires forall i :: n <= i < |rows| ==> keep(rows[i])
    ensures Filter(rows, keep) == rows[n..]
  {
    if rows != [] {
      FilterSuffix(rows[1..], keep, if n == 0 then 0 else n - 1);
      if n > 0 {
        assert rows[1..][n - 1..] == rows[n..];
      }
    }
  }

  /** The cursor a query resolves, or nothing when it names a row the table does not hold. */
  ghost predicate CursorHeld(t: Table, before: Option<Signature>) {
    before.Some? ==> FindCursor(t, before.value).Some?
  }

  lemma QueryDescends(t: Table, wallet: string, before: Option<Signature>)
    requires Indexed(t) && CursorHeld(t, before)
    ensures Descending(Query(t, wallet, before))
    ensures var cursor := if before.Some? then FindCursor(t, before.value) else None;
            forall r :: r in Query(t, wallet, before) <==> r in t && Matches(wallet, cursor)(r)
  {
    var cursor := if before.Some? then FindCursor(t, before.value) else None;
    SortedMatches(t, Matches(wallet, cursor));
  }

  lemma BelowIsAfter(rows: seq<Record>, wallet: string, k: nat, i: nat)
    requires Descending(rows) && k < |rows| && i < |rows| && rows[i].wallet == wallet
    ensures Matches(wallet, Some(rows[k]))(rows[i]) <==> k < i
  {
    if i < k {
      assert Newer(rows[i], rows[k]);
    } else if i > k {
      assert Newer(rows[k], rows[i]);
    }
  }

  lemma BelowIsSuffix(rows: seq<Record>, wallet: string, k: nat)
    requires Descending(rows) && k < |rows| && forall r :: r in rows ==> r.wallet == wallet
    ensures Filter(rows, Matches(wallet, Some(rows[k]))) == rows[k + 1..]
  {
    hide Filter, Matches, Newer, Descending;
    forall i | 0 <= i < |rows|
      ensures Matches(wallet, Some(rows[k]))(rows[i]) <==> k < i
    {
      assert rows[i] in rows;
      BelowIsAfter(rows, wallet, k, i);
    }
    FilterSuffix(rows, Matches(wallet, Some(rows[k])), k + 1);
  }

  /** A cursor row that meets a query's condition narrows the condition to its own. */
  lemma NarrowedCondition(t: Table, wallet: string, cursor: Option<Record>, r: Record)
    requires Matches(wallet, cursor)(r)
    ensures Filter(Filter(t, Matches(wallet, cursor)), Matches(wallet, Some(r))) == Filter(t, Matches(wallet, Some(r)))
  {
    FilterTwice(t, Matches(wallet, cursor), Matches(wallet, Some(r)), Matches(wallet, Some(r)));
  }

  /** Resuming below the k-th row of a query gives exactly the rest of that query. */
  lemma QueryResumes(t: Table, wallet: string, before: Option<Signature>, k: nat)
    requires Indexed(t) && CursorHeld(t, before) && k < |Query(t, wallet, before)|
    ensures FindCursor(t, Query(t, wallet, before)[k].signature) == Some(Query(t, wallet, before)[k])
    ensures Query(t, wallet, Some(Query(t, wallet, before)[k].signature)) == Query(t, wallet, before)[k + 1..]
  {
    var rows := Query(t, wallet, before);
    var cursor := if before.Some? then FindCursor(t, before.value) else None;
    QueryDescends(t, wallet, before);
    assert rows[k] in rows;
    FindCursorFinds(t, rows[k]);
    BelowIsSuffix(rows, wallet, k);
    NarrowedCondition(t, wallet, cursor, rows[k]);
    hide Filter, Sort, FindCursor, Newer;
    NewestFirstIsWeakOrder();
    FilterOfSort(Filter(t, Matches(wallet, cursor)), NewestFirst(), Matches(wallet, Some(rows[k])));
  }

  /** A cursor that names no row of the table gives an empty page and no further cursor. */
  lemma UnknownCursorEndsWalk(t: Table, wallet: string, signature: Signature, pageSize: nat)
    requires forall r :: r in t ==> r.signature != signature
    ensures GetHistory(t, wallet, Some(signature), pageSize) == ([], None)
  {
    NothingFound(t, signature);
  }

  lemma {:induction false} NothingFound(t: Table, signature: Signature)
    requires forall r :: r in t ==> r.signature != signature
    ensures FindCursor(t, signature) == None
  {
    if t != [] { NothingFound(t[1..], signature); }
  }

  // ---- Following the cursors ----

  lemma PageIsPrefix(t: Table, wallet: string, before: Option<Signature>, pageSize: nat)
    requires pageSize >= 1
    ensures var (page, next) := GetHistory(t, wallet, before, pageSize); var rows := Query(t, wallet, before);
            && |page| <= pageSize
            && page == rows[..|page|]
            && (next.None? ==> page == rows)
            && (next.Some? ==> |page| == pageSize < |rows| && next == Some(rows[pageSize - 1].signature))
  {
  }

  /** Every row read by asking for a page and then following each next cursor to the end. */
  ghost function FollowCursors(t: Table, wallet: string, before: Option<Signature>, pageSize: nat): seq<Record>
    requires Indexed(t) && CursorHeld(t, before) && pageSize >= 1
    decreases |Query(t, wallet, before)|
  {
    var (page, next) := GetHistory(t, wallet, before, pageSize);
    PageIsPrefix(t, wallet, before, pageSize);
    if next.None? then page else
      QueryResumes(t, wallet, before, pageSize - 1);
      page + FollowCursors(t, wallet, next, pageSize)
  }

  /** The walk reads the query's rows exactly, in order, whatever the page size. */
  lemma {:induction false} FollowCursorsReadsQuery(t: Table, wallet: string, before: Option<Signature>, pageSize: nat)
    requires Indexed(t) && CursorHeld(t, before) && pageSize >= 1
    ensures FollowCursors(t, wallet, before, pageSize) == Query(t, wallet, before)
    decreases |Query(t, wallet, before)|
  {
    hide Query, GetHistory;
    var (page, next) := GetHistory(t, wallet, before, pageSize);
    PageIsPrefix(t, wallet, before, pageSize);
    if next.Some? {
      var rows := Query(t, wallet, before);
      QueryResumes(t, wallet, before, pageSize - 1);
      FollowCursorsReadsQuery(t, wallet, next, pageSize);
      assert rows == rows[..pageSize] + rows[pageSize..];
    }
  }

  /** From the first page on: every row of the wallet, once each, newest first. */
  lemma FirstPageOnwardReadsEverything(t: Table, wallet: string, pageSize: nat)
    requires Indexed(t) && pageSize >= 1
    ensures var all := FollowCursors(t, wallet, None, pageSize);
            && Descending(all)
            && (forall i, j :: 0 <= i < j < |all| ==> all[i] != all[j])
            && (forall r :: r in all <==> r in t && r.wallet == wallet)
  {
    hide FollowCursors, Query;
    FollowCursorsReadsQuery(t, wallet, None, pageSize);
    QueryDescends(t, wallet, None);
  }

  // ---- Rows arriving between pages ----

  ghost predicate Within(t: Table, t': Table) {
    forall r :: r in t ==> r in t'
  }

  ghost predicate Growing(tables: seq<Table>) {
    && (forall i :: 0 <= i < |tables| ==> Indexed(tables[i]))
    && (forall i, j :: 0 <= i < j < |tables| ==> Within(tables[i], tables[j]))
  }

  /** The walk when each page is read from the table as it stands by then; done when it met a null cursor. */
  ghost function FollowWhileGrowing(tables: seq<Table>, wallet: string, before: Option<Signature>, pageSize: nat): (seq<Record>, bool) {
    if tables == [] then ([], false) else
      var (page, next) := GetHistory(tables[0], wallet, before, pageSize);
      if next.None? then (page, true) else
        var (rest, done) := FollowWhileGrowing(tables[1..], wallet, next, pageSize);
        (page + rest, done)
  }

  lemma JoinDescending(page: seq<Record>, rest: seq<Record>, cursor: Record)
    requires Descending(page) && Descending(rest) && page != [] && page[|page| - 1] == cursor
    requires forall r :: r in rest ==> Newer(cursor, r)
    ensures Descending(page + rest)
  {
    forall i, j | 0 <= i < j < |page + rest|
      ensures Newer((page + rest)[i], (page + rest)[j])
    {
      if i < |page| <= j {
        assert i == |page| - 1 || Newer(page[i], cursor);
        assert rest[j - |page|] in rest;
      }
    }
  }

  /** Rows below a cursor are still below it in any larger table. */
  lemma StillBelow(t: Table, t': Table, wallet: string, cursor: Record)
    requires Indexed(t) && Indexed(t') && Within(t, t') && cursor in t
    ensures FindCursor(t, cursor.signature) == FindCursor(t', cursor.signature) == Some(cursor)
    ensures forall r :: r in Query(t, wallet, Some(cursor.signature)) ==> r in Query(t', wallet, Some(cursor.signature))
  {
    hide Query;
    FindCursorFinds(t, cursor);
    FindCursorFinds(t', cursor);
    QueryDescends(t, wallet, Some(cursor.signature));
    QueryDescends(t', wallet, Some(cursor.signature));
  }

  /** What one page of the walk contributes, before the rows read after it. */
  lemma PageContributes(t: Table, wallet: string, before: Option<Signature>, pageSize: nat)
    requires Indexed(t) && CursorHeld(t, before) && pageSize >= 1
    ensures var (page, next) := GetHistory(t, wallet, before, pageSize);
            && Descending(page)
            && (before.Some? ==> forall r :: r in page ==> Newer(FindCursor(t, before.value).value, r))
            && (next.None? ==> page == Query(t, wallet, before))
            && (next.Some? ==>
                  && page != [] && page[|page| - 1] in t && next.value == page[|page| - 1].signature
                  && forall r :: r in Query(t, wallet, before) ==> r in page || r in Query(t, wallet, next))
  {
    hide Query, GetHistory, FindCursor, Indexed, Newer;
    var (page, next) := GetHistory(t, wallet, before, pageSize);
    var rows := Query(t, wallet, before);
    PageIsPrefix(t, wallet, before, pageSize);
    QueryDescends(t, wallet, before);
    assert forall r :: r in page ==> r in rows;
    hide Descending;
    PrefixDescends(rows, |page|);
    if next.Some? {
      QueryResumes(t, wallet, before, pageSize - 1);
      assert rows == rows[..pageSize] + rows[pageSize..];
      assert page[|page| - 1] in page;
    }
  }

  lemma PrefixDescends(rows: seq<Record>, n: nat)
    requires Descending(rows) && n <= |rows|
    ensures Descending(rows[..n])
  {
  }

  /**
   * Rows inserted while a client pages through never make it see a row twice or out of order, and
   * a finished walk has seen every row that was there when it started.
   */
  lemma {:induction false} GrowthNeitherRepeatsNorSkips(tables: seq<Table>, wallet: string, before: Option<Signature>, pageSize: nat)
    requires Growing(tables) && pageSize >= 1
    requires tables != [] ==> CursorHeld(tables[0], before)
    ensures var (seen, done) := FollowWhileGrowing(tables, wallet, before, pageSize);
            && Descending(seen)
            && (tables != [] && before.Some? ==>
                  forall r :: r in seen ==> Newer(FindCursor(tables[0], before.value).value, r))
            && (done ==> tables != [] && forall r :: r in Query(tables[0], wallet, before) ==> r in seen)
  {
    hide Query, GetHistory, Descending, Newer, Growing, Within, Indexed;
    EmptyDescends();
    if tables != [] {
      var t := tables[0];
      GrowingTail(tables);
      var (page, next) := GetHistory(t, wallet, before, pageSize);
      PageContributes(t, wallet, before, pageSize);
      if next.Some? {
        var cursor := page[|page| - 1];
        var (rest, done) := FollowWhileGrowing(tables[1..], wallet, next, pageSize);
        if |tables| > 1 {
          StillBelow(t, tables[1], wallet, cursor);
          GrowthNeitherRepeatsNorSkips(tables[1..], wallet, next, pageSize);
        }
        JoinDescending(page, rest, cursor);
        if before.Some? {
          AllBelow(FindCursor(t, before.value).value, page, rest, cursor);
        }
      }
    }
  }

  lemma GrowingTail(tables: seq<Table>)
    requires Growing(tables) && tables != []
    ensures Indexed(tables[0]) && Growing(tables[1..])
    ensures |tables| > 1 ==> Indexed(tables[1]) && Within(tables[0], tables[1])
  {
    hide Within, Indexed;
  }

  lemma AllBelow(top: Record, page: seq<Record>, rest: seq<Record>, cursor: Record)
    requires forall r :: r in page ==> Newer(top, r)
    requires cursor in page && forall r :: r in rest ==> Newer(cursor, r)
    ensures forall r :: r in page + rest ==> Newer(top, r)
  {
  }

  lemma EmptyDescends()
    ensures Descending([])
  {
  }

  // ---- Exactly which rows a walk over a growing table sees ----

  /** The row was in the table of some request, and lay below that request's cursor when it first was. */
  ghost predicate StoredInTime(tables: seq<Table>, wallet: string, before: Option<Signature>, pageSize: nat, r: Record)
    decreases |tables|
  {
    && tables != []
    && if r in tables[0] then r in Query(tables[0], wallet, before)
       else
         var next := GetHistory(tables[0], wallet, before, pageSize).1;
         next.Some? && StoredInTime(tables[1..], wallet, next, pageSize, r)
  }

  /** A row the next cursor's query holds was in this query too, if it was in this table at all. */
  lemma NextQueryIsPart(t: Table, wallet: string, before: Option<Signature>, pageSize: nat, r: Record)
    requires Indexed(t) && CursorHeld(t, before) && pageSize >= 1
    ensures var (page, next) := GetHistory(t, wallet, before, pageSize);
            && (next.None? ==> (r in page <==> r in Query(t, wallet, before)))
            && (next.Some? ==>
                  (r in Query(t, wallet, before) <==> r in page || r in Query(t, wallet, next)))
  {
    hide Query, GetHistory;
    PageIsPrefix(t, wallet, before, pageSize);
    var rows := Query(t, wallet, before);
    if GetHistory(t, wallet, before, pageSize).1.Some? {
      QueryResumes(t, wallet, before, pageSize - 1);
      assert rows == rows[..pageSize] + rows[pageSize..];
    }
  }

  /** The page is below its cursor's rows of this table, and so is the next query of any larger one. */
  lemma LargerQueryAgrees(t: Table, t': Table, wallet: string, cursor: Record, r: Record)
    requires Indexed(t) && Indexed(t') && Within(t, t') && cursor in t && r in t
    ensures r in Query(t, wallet, Some(cursor.signature)) <==> r in Query(t', wallet, Some(cursor.signature))
  {
    hide Query;
    FindCursorFinds(t, cursor);
    FindCursorFinds(t', cursor);
    QueryDescends(t, wallet, Some(cursor.signature));
    QueryDescends(t', wallet, Some(cursor.signature));
  }

  lemma PageWithinTable(t: Table, wallet: string, before: Option<Signature>, pageSize: nat)
    requires Indexed(t) && CursorHeld(t, before) && pageSize >= 1
    ensures forall r :: r in GetHistory(t, wallet, before, pageSize).0 ==> r in t
  {
    hide Query, GetHistory;
    PageIsPrefix(t, wallet, before, pageSize);
    QueryDescends(t, wallet, before);
  }

  /** A finished walk sees a row if and only if it was stored while its place still lay below the cursor. */
  lemma {:induction false} SeenIffStoredInTime(
    tables: seq<Table>, wallet: string, before: Option<Signature>, pageSize: nat, r: Record)
    requires Growing(tables) && pageSize >= 1
    requires tables != [] ==> CursorHeld(tables[0], before)
    requires FollowWhileGrowing(tables, wallet, before, pageSize).1
    ensures r in FollowWhileGrowing(tables, wallet, before, pageSize).0 <==>
            StoredInTime(tables, wallet, before, pageSize, r)
    decreases |tables|
  {
    hide Query, GetHistory, Growing, Within, Indexed, FindCursor;
    if tables != [] {
      var t := tables[0];
      GrowingTail(tables);
      var (page, next) := GetHistory(t, wallet, before, pageSize);
      PageContributes(t, wallet, before, pageSize);
      NextQueryIsPart(t, wallet, before, pageSize, r);
      PageWithinTable(t, wallet, before, pageSize);
      if next.Some? && |tables| > 1 {
        var cursor := page[|page| - 1];
        StillBelow(t, tables[1], wallet, cursor);
        SeenIffStoredInTime(tables[1..], wallet, next, pageSize, r);
        if r in t {
          LargerQueryAgrees(t, tables[1], wallet, cursor, r);
          WithinMember(t, tables[1], r);
        }
      }
    }
  }

  lemma WithinMember(t: Table, t': Table, r: Record)
    requires Within(t, t') && r in t
    ensures r in t'
  {
  }
}
