/**
 * Syncing and paging together, for a wallet with any number of tracked addresses whose logs keep
 * growing. The first request of a walk syncs the newest signatures of every address. A request with
 * a cursor syncs older ones, but only of addresses that hold fewer rows than a page. Each request
 * then reads its page from what is stored for the whole wallet.
 */
module StakingHistoryWalk {
  import opened Wrappers
  import opened StableSort
  import opened StakingHistory
  import opened StakingHistoryPages

  /** All signatures an address will ever have, oldest first; one that does not parse leaves no row. */
  datatype Log = Log(time: nat -> int, signature: nat -> Signature, parsed: nat -> bool)

  /** A tracked address: its log, and how much of it exists and was synced. */
  datatype Tracked = Tracked(log: Log, state: State)

  function SignatureAt(log: Log, p: nat): Signature { log.signature(p) }

  function RecordAt(wallet: string, log: Log, p: nat): Record {
    Record(wallet, log.time(p), SignatureAt(log, p))
  }

  /** The rows stored for the fetched signatures among the first n. */
  function RowsOf(wallet: string, log: Log, fetched: set<nat>, n: nat): Table {
    if n == 0 then [] else
      RowsOf(wallet, log, fetched, n - 1) +
      if n - 1 in fetched && log.parsed(n - 1) then [RecordAt(wallet, log, n - 1)] else []
  }

  function Stored(wallet: string, t: Tracked): Table {
    RowsOf(wallet, t.log, t.state.fetched, t.state.length)
  }

  function TableOf(wallet: string, ws: seq<Tracked>): Table {
    if ws == [] then [] else TableOf(wallet, ws[..|ws| - 1]) + Stored(wallet, ws[|ws| - 1])
  }

  ghost predicate TrackedValid(t: Tracked) {
    WellFormed(t.state.row, t.state.length) && forall p :: p in t.state.fetched ==> p < t.state.length
  }

  /** No signature occurs twice, neither in one log nor in two. */
  ghost predicate Distinct(ws: seq<Tracked>) {
    forall i, j, p: nat, q: nat :: 0 <= i < |ws| && 0 <= j < |ws| && (i != j || p != q) ==>
      SignatureAt(ws[i].log, p) != SignatureAt(ws[j].log, q)
  }

  ghost predicate WalletValid(ws: seq<Tracked>) {
    Distinct(ws) && forall i :: 0 <= i < |ws| ==> TrackedValid(ws[i])
  }

  // ---- One request ----

  /** The address holds fewer rows than a page and its oldest end is not known to be reached. */
  predicate Short(wallet: string, t: Tracked, pageSize: nat) {
    |Stored(wallet, t)| < pageSize && !t.state.row.reached
  }

  /** The sync a request does for one address whose log gained some signatures. */
  function SyncOne(wallet: string, t: Tracked, gained: nat, before: Option<Signature>, pageSize: nat): Tracked
    requires TrackedValid(t)
  {
    var s := Grow(t.state, gained);
    t.(state := if before.None? then RunLatest(s) else if Short(wallet, t, pageSize) then RunOlder(s) else s)
  }

  /**
   * The first request syncs the newest signatures of an address. A later one syncs older ones exactly
   * when fewer rows than a page are stored and the oldest end is not known to be reached, and
   * otherwise leaves row and fetched signatures alone.
   */
  lemma SyncChosen(wallet: string, t: Tracked, gained: nat, before: Option<Signature>, pageSize: nat)
    requires TrackedValid(t)
    ensures var s, s' := Grow(t.state, gained), SyncOne(wallet, t, gained, before, pageSize).state;
            && SyncOne(wallet, t, gained, before, pageSize).log == t.log
            && s.length == t.state.length + gained
            && (before.None? ==> s' == RunLatest(s))
            && (before.Some? && |Stored(wallet, t)| < pageSize && !t.state.row.reached ==> s' == RunOlder(s) && s'.row != s.row)
            && (before.Some? && (|Stored(wallet, t)| >= pageSize || t.state.row.reached) ==>
                  s'.row == t.state.row && s'.fetched == t.state.fetched)
  {
    var s := Grow(t.state, gained);
    PageDownIs(if s.row.oldest.Some? then s.row.oldest.value else s.length, 0);
    hide PageDown, Stored;
  }

  function SyncAll(wallet: string, ws: seq<Tracked>, gain: nat -> nat, before: Option<Signature>, pageSize: nat): (ws': seq<Tracked>)
    requires WalletValid(ws)
    ensures |ws'| == |ws|
  {
    seq(|ws|, i requires 0 <= i < |ws| => SyncOne(wallet, ws[i], gain(i), before, pageSize))
  }

  lemma GrownRows(wallet: string, log: Log, fetched: set<nat>, n: nat, gained: nat)
    requires forall p :: p in fetched ==> p < n
    ensures RowsOf(wallet, log, fetched, n + gained) == RowsOf(wallet, log, fetched, n)
    decreases gained
  {
    if gained > 0 { GrownRows(wallet, log, fetched, n, gained - 1); }
  }

  lemma {:induction false} RowsMember(wallet: string, log: Log, fetched: set<nat>, n: nat, r: Record)
    ensures r in RowsOf(wallet, log, fetched, n) <==>
            exists p: nat :: p < n && p in fetched && log.parsed(p) && RecordAt(wallet, log, p) == r
  {
    if n > 0 {
      RowsMember(wallet, log, fetched, n - 1, r);
      if n - 1 in fetched && log.parsed(n - 1) && RecordAt(wallet, log, n - 1) == r {
        assert r in RowsOf(wallet, log, fetched, n);
      }
    }
  }

  lemma PageKeepsBelow(hi: nat, lo: nat, n: nat)
    requires lo <= hi <= n
    ensures forall p: nat :: p in PageSet(PageDown(hi, lo)) ==> p < n
  {
    PageDownIs(hi, lo);
  }

  lemma SyncsKeep(s: State)
    requires WellFormed(s.row, s.length) && forall p :: p in s.fetched ==> p < s.length
    ensures var s' := RunLatest(s);
            && WellFormed(s'.row, s'.length) && s'.length == s.length && s.fetched <= s'.fetched
            && forall p :: p in s'.fetched ==> p < s'.length
    ensures var s' := RunOlder(s);
            && WellFormed(s'.row, s'.length) && s'.length == s.length && s.fetched <= s'.fetched
            && forall p :: p in s'.fetched ==> p < s'.length
  {
    ServeWellFormed(s, StakingHistory.Request(Latest, 0));
    ServeWellFormed(s, StakingHistory.Request(Older, 0));
    PageKeepsBelow(s.length, if s.row.newest.Some? then s.row.newest.value + 1 else 0, s.length);
    PageKeepsBelow(if s.row.oldest.Some? then s.row.oldest.value else s.length, 0, s.length);
    hide PageDown;
  }

  lemma SyncOneKeeps(wallet: string, t: Tracked, gained: nat, before: Option<Signature>, pageSize: nat)
    requires TrackedValid(t)
    ensures var t' := SyncOne(wallet, t, gained, before, pageSize);
            && TrackedValid(t') && t'.log == t.log
            && t.state.fetched <= t'.state.fetched && t.state.length <= t'.state.length
            && (before.Some? && !Short(wallet, t, pageSize) ==> Stored(wallet, t') == Stored(wallet, t) && t'.state.row == t.state.row)
  {
    SyncsKeep(Grow(t.state, gained));
    GrownRows(wallet, t.log, t.state.fetched, t.state.length, gained);
    hide RowsOf, RunLatest, RunOlder;
  }

  lemma StoredGrows(wallet: string, t: Tracked, t': Tracked, r: Record)
    requires t'.log == t.log && t.state.fetched <= t'.state.fetched && t.state.length <= t'.state.length
    ensures r in Stored(wallet, t) ==> r in Stored(wallet, t')
  {
    RowsMember(wallet, t.log, t.state.fetched, t.state.length, r);
    RowsMember(wallet, t.log, t'.state.fetched, t'.state.length, r);
  }

  // ---- The wallet's table ----

  lemma {:induction false} TableMember(wallet: string, ws: seq<Tracked>, r: Record)
    ensures r in TableOf(wallet, ws) <==> exists i :: 0 <= i < |ws| && r in Stored(wallet, ws[i])
  {
    hide Stored;
    if ws != [] {
      var init := ws[..|ws| - 1];
      TableMember(wallet, init, r);
      assert forall i :: 0 <= i < |init| ==> init[i] == ws[i];
    }
  }

  lemma {:induction false} RowsIndexed(wallet: string, log: Log, fetched: set<nat>, n: nat)
    requires forall p: nat, q: nat :: p != q ==> SignatureAt(log, p) != SignatureAt(log, q)
    ensures Indexed(RowsOf(wallet, log, fetched, n)) && |RowsOf(wallet, log, fetched, n)| <= n
  {
    if n > 0 {
      RowsIndexed(wallet, log, fetched, n - 1);
      forall r | r in RowsOf(wallet, log, fetched, n - 1) ensures r.signature != SignatureAt(log, n - 1) {
        RowsMember(wallet, log, fetched, n - 1, r);
      }
    }
  }

  lemma StoredSignature(wallet: string, t: Tracked, r: Record)
    requires r in Stored(wallet, t)
    ensures r.wallet == wallet && exists p: nat :: r.signature == SignatureAt(t.log, p)
  {
    RowsMember(wallet, t.log, t.state.fetched, t.state.length, r);
  }

  lemma JoinIndexed(a: Table, b: Table)
    requires Indexed(a) && Indexed(b)
    requires forall r, r' :: r in a && r' in b ==> r.signature != r'.signature
    ensures Indexed(a + b)
  {
    forall i, j | 0 <= i < j < |a + b| ensures (a + b)[i].signature != (a + b)[j].signature {
      if i < |a| <= j {
        assert a[i] in a && b[j - |a|] in b;
      }
    }
  }

  lemma {:induction false} TableIndexed(wallet: string, ws: seq<Tracked>)
    requires Distinct(ws)
    ensures Indexed(TableOf(wallet, ws))
    ensures forall r :: r in TableOf(wallet, ws) ==> r.wallet == wallet
  {
    if ws != [] {
      var k := |ws| - 1;
      var init := ws[..k];
      assert forall i :: 0 <= i < k ==> init[i] == ws[i];
      TableIndexed(wallet, init);
      RowsIndexed(wallet, ws[k].log, ws[k].state.fetched, ws[k].state.length);
      forall r, r' | r in TableOf(wallet, init) && r' in Stored(wallet, ws[k]) ensures r.signature != r'.signature {
        TableMember(wallet, init, r);
        var i :| 0 <= i < k && r in Stored(wallet, init[i]);
        StoredSignature(wallet, ws[i], r);
        StoredSignature(wallet, ws[k], r');
      }
      forall r | r in Stored(wallet, ws[k]) ensures r.wallet == wallet { StoredSignature(wallet, ws[k], r); }
      hide Stored, Indexed;
      JoinIndexed(TableOf(wallet, init), Stored(wallet, ws[k]));
    }
  }

  lemma SyncAllKeeps(wallet: string, ws: seq<Tracked>, gain: nat -> nat, before: Option<Signature>, pageSize: nat)
    requires WalletValid(ws)
    ensures var ws' := SyncAll(wallet, ws, gain, before, pageSize);
            WalletValid(ws') && Within(TableOf(wallet, ws), TableOf(wallet, ws'))
  {
    var ws' := SyncAll(wallet, ws, gain, before, pageSize);
    forall i | 0 <= i < |ws|
      ensures TrackedValid(ws'[i]) && ws'[i].log == ws[i].log
      ensures ws[i].state.fetched <= ws'[i].state.fetched && ws[i].state.length <= ws'[i].state.length
    {
      SyncOneKeeps(wallet, ws[i], gain(i), before, pageSize);
    }
    hide Stored, TableOf, TrackedValid;
    forall r | r in TableOf(wallet, ws) ensures r in TableOf(wallet, ws') {
      TableMember(wallet, ws, r);
      TableMember(wallet, ws', r);
      var i :| 0 <= i < |ws| && r in Stored(wallet, ws[i]);
      StoredGrows(wallet, ws[i], ws'[i], r);
    }
  }

  // ---- The walk ----

  /** Ask for the first page, then for each page the last answer's cursor names, while the logs grow. */
  ghost function Walk(wallet: string, ws: seq<Tracked>, growth: seq<nat -> nat>, before: Option<Signature>, pageSize: nat)
    : (seq<Tracked>, seq<Record>, bool)
    requires WalletValid(ws)
    decreases |growth|
  {
    if growth == [] then (ws, [], false) else
      var ws1 := SyncAll(wallet, ws, growth[0], before, pageSize);
      SyncAllKeeps(wallet, ws, growth[0], before, pageSize);
      var (page, next) := GetHistory(TableOf(wallet, ws1), wallet, before, pageSize);
      if next.None? then (ws1, page, true) else
        var (ws2, rest, done) := Walk(wallet, ws1, growth[1..], next, pageSize);
        (ws2, page + rest, done)
  }

  /** The tables the requests of a walk read from. */
  ghost function Tables(wallet: string, ws: seq<Tracked>, growth: seq<nat -> nat>, before: Option<Signature>, pageSize: nat)
    : seq<Table>
    requires WalletValid(ws)
    decreases |growth|
  {
    if growth == [] then [] else
      var ws1 := SyncAll(wallet, ws, growth[0], before, pageSize);
      SyncAllKeeps(wallet, ws, growth[0], before, pageSize);
      var t := TableOf(wallet, ws1);
      var next := GetHistory(t, wallet, before, pageSize).1;
      [t] + if next.None? then [] else Tables(wallet, ws1, growth[1..], next, pageSize)
  }

  lemma {:induction false} WalkFollowsTables(
    wallet: string, ws: seq<Tracked>, growth: seq<nat -> nat>, before: Option<Signature>, pageSize: nat)
    requires WalletValid(ws)
    ensures var (ws', seen, done) := Walk(wallet, ws, growth, before, pageSize);
            var tables := Tables(wallet, ws, growth, before, pageSize);
            && FollowWhileGrowing(tables, wallet, before, pageSize) == (seen, done)
            && (growth != [] ==> tables != [] && tables[|tables| - 1] == TableOf(wallet, ws'))
            && (growth == [] ==> tables == [] && ws' == ws)
    decreases |growth|
  {
    hide GetHistory, SyncAll, TableOf, WalletValid;
    if growth != [] {
      var ws1 := SyncAll(wallet, ws, growth[0], before, pageSize);
      SyncAllKeeps(wallet, ws, growth[0], before, pageSize);
      var t := TableOf(wallet, ws1);
      var next := GetHistory(t, wallet, before, pageSize).1;
      if next.Some? {
        WalkFollowsTables(wallet, ws1, growth[1..], next, pageSize);
        var rest := Tables(wallet, ws1, growth[1..], next, pageSize);
        assert Tables(wallet, ws, growth, before, pageSize) == [t] + rest;
        assert ([t] + rest)[1..] == rest;
      }
    }
  }

  lemma {:induction false} TablesGrow(
    wallet: string, ws: seq<Tracked>, growth: seq<nat -> nat>, before: Option<Signature>, pageSize: nat)
    requires WalletValid(ws)
    ensures var tables := Tables(wallet, ws, growth, before, pageSize);
            && Growing(tables)
            && forall k :: 0 <= k < |tables| ==> Within(TableOf(wallet, ws), tables[k])
    decreases |growth|
  {
    if growth != [] {
      var ws1 := SyncAll(wallet, ws, growth[0], before, pageSize);
      SyncAllKeeps(wallet, ws, growth[0], before, pageSize);
      TableIndexed(wallet, ws1);
      hide GetHistory, SyncAll, TableOf, WalletValid, Indexed, Within;
      var t := TableOf(wallet, ws1);
      var next := GetHistory(t, wallet, before, pageSize).1;
      var rest := if next.None? then [] else Tables(wallet, ws1, growth[1..], next, pageSize);
      if next.Some? { TablesGrow(wallet, ws1, growth[1..], next, pageSize); }
      GrowingCons(t, rest);
      forall k | 0 <= k < |rest| ensures Within(TableOf(wallet, ws), rest[k]) {
        WithinTransitive(TableOf(wallet, ws), t, rest[k]);
      }
      assert Tables(wallet, ws, growth, before, pageSize) == [t] + rest;
    }
  }

  lemma GrowingCons(t: Table, rest: seq<Table>)
    requires Indexed(t) && Growing(rest) && forall k :: 0 <= k < |rest| ==> Within(t, rest[k])
    ensures Growing([t] + rest)
  {
    hide Indexed, Within;
  }

  lemma WithinTransitive(a: Table, b: Table, c: Table)
    requires Within(a, b) && Within(b, c)
    ensures Within(a, c)
  {
  }

  /** The row first appears in the table of a request whose cursor has already passed its place. */
  ghost predicate StoredTooLate(tables: seq<Table>, wallet: string, before: Option<Signature>, pageSize: nat, r: Record)
    decreases |tables|
  {
    && tables != []
    && if r in tables[0] then
         before.Some? && FindCursor(tables[0], before.value).Some? && !Newer(FindCursor(tables[0], before.value).value, r)
       else
         var next := GetHistory(tables[0], wallet, before, pageSize).1;
         next.Some? && StoredTooLate(tables[1..], wallet, next, pageSize, r)
  }

  lemma InTimeHere(t: Table, wallet: string, before: Option<Signature>, r: Record)
    requires Indexed(t) && CursorHeld(t, before) && r in t && r.wallet == wallet
    ensures r in Query(t, wallet, before) <==>
            !(before.Some? && FindCursor(t, before.value).Some? && !Newer(FindCursor(t, before.value).value, r))
  {
    hide Query, Newer;
    QueryDescends(t, wallet, before);
  }

  /** Of the rows in the last table a walk reads from, each is either in time or too late. */
  lemma {:induction false} InTimeOrTooLate(
    wallet: string, ws: seq<Tracked>, growth: seq<nat -> nat>, before: Option<Signature>, pageSize: nat, r: Record)
    requires WalletValid(ws) && pageSize >= 1 && growth != [] && r.wallet == wallet
    requires CursorHeld(TableOf(wallet, ws), before)
    requires r in TableOf(wallet, Walk(wallet, ws, growth, before, pageSize).0)
    requires Walk(wallet, ws, growth, before, pageSize).2
    ensures var tables := Tables(wallet, ws, growth, before, pageSize);
            StoredInTime(tables, wallet, before, pageSize, r) <==> !StoredTooLate(tables, wallet, before, pageSize, r)
    decreases |growth|
  {
    var ws1 := SyncAll(wallet, ws, growth[0], before, pageSize);
    SyncAllKeeps(wallet, ws, growth[0], before, pageSize);
    TableIndexed(wallet, ws);
    TableIndexed(wallet, ws1);
    var t := TableOf(wallet, ws1);
    CursorStaysHeld(TableOf(wallet, ws), t, before);
    hide Query, GetHistory, FindCursor, SyncAll, TableOf, WalletValid, Indexed, Within, Newer, CursorHeld;
    var (page, next) := GetHistory(t, wallet, before, pageSize);
    if r in t {
      InTimeHere(t, wallet, before, r);
    } else if next.Some? {
      NextCursorHeld(t, wallet, before, pageSize);
      var rest := Tables(wallet, ws1, growth[1..], next, pageSize);
      assert Tables(wallet, ws, growth, before, pageSize) == [t] + rest && ([t] + rest)[1..] == rest;
      InTimeOrTooLate(wallet, ws1, growth[1..], next, pageSize, r);
    }
  }

  lemma NextCursorHeld(t: Table, wallet: string, before: Option<Signature>, pageSize: nat)
    requires Indexed(t) && CursorHeld(t, before) && pageSize >= 1
    ensures CursorHeld(t, GetHistory(t, wallet, before, pageSize).1)
  {
    hide Query, GetHistory, FindCursor, Indexed;
    PageContributes(t, wallet, before, pageSize);
    var (page, next) := GetHistory(t, wallet, before, pageSize);
    if next.Some? { FindCursorIn(t, page[|page| - 1]); }
  }

  lemma FindCursorIn(t: Table, r: Record)
    requires Indexed(t) && r in t
    ensures FindCursor(t, r.signature) == Some(r)
  {
    FindCursorFinds(t, r);
  }

  lemma {:induction false} FoundIsIn(t: Table, signature: Signature)
    ensures FindCursor(t, signature).Some? ==>
              FindCursor(t, signature).value in t && FindCursor(t, signature).value.signature == signature
  {
    if t != [] && t[0].signature != signature { FoundIsIn(t[1..], signature); }
  }

  lemma CursorStaysHeld(t: Table, t': Table, before: Option<Signature>)
    requires Indexed(t') && Within(t, t') && CursorHeld(t, before)
    ensures CursorHeld(t', before)
  {
    if before.Some? {
      FoundIsIn(t, before.value);
      FindCursorFinds(t', FindCursor(t, before.value).value);
    }
  }

  /**
   * A finished walk over any number of addresses misses exactly the rows that an older sync stored
   * after the walk's cursor had passed their place, and reads every other row stored by its end.
   */
  lemma WalkMissesExactlyLateRows(wallet: string, ws: seq<Tracked>, growth: seq<nat -> nat>, pageSize: nat, r: Record)
    requires WalletValid(ws) && pageSize >= 1 && Walk(wallet, ws, growth, None, pageSize).2
    ensures var (ws', seen, done) := Walk(wallet, ws, growth, None, pageSize);
            && Descending(seen)
            && (r in seen <==>
                r in TableOf(wallet, ws') &&
                !StoredTooLate(Tables(wallet, ws, growth, None, pageSize), wallet, None, pageSize, r))
  {
    var tables := Tables(wallet, ws, growth, None, pageSize);
    var ws' := Walk(wallet, ws, growth, None, pageSize).0;
    assert growth != [];
    WalkFollowsTables(wallet, ws, growth, None, pageSize);
    TablesGrow(wallet, ws, growth, None, pageSize);
    hide Query, GetHistory, FindCursor, SyncAll, TableOf, Walk, Tables, Descending;
    SeenIffStoredInTime(tables, wallet, None, pageSize, r);
    GrowthNeitherRepeatsNorSkips(tables, wallet, None, pageSize);
    InTimeIsStored(tables, wallet, None, pageSize, r);
    if r in TableOf(wallet, ws') {
      FinalValid(wallet, ws, growth, None, pageSize);
      TableIndexed(wallet, ws');
      InTimeOrTooLate(wallet, ws, growth, None, pageSize, r);
    }
  }

  lemma {:induction false} FinalValid(
    wallet: string, ws: seq<Tracked>, growth: seq<nat -> nat>, before: Option<Signature>, pageSize: nat)
    requires WalletValid(ws)
    ensures WalletValid(Walk(wallet, ws, growth, before, pageSize).0)
    decreases |growth|
  {
    hide GetHistory, SyncAll, TableOf, WalletValid;
    if growth != [] {
      var ws1 := SyncAll(wallet, ws, growth[0], before, pageSize);
      SyncAllKeeps(wallet, ws, growth[0], before, pageSize);
      var next := GetHistory(TableOf(wallet, ws1), wallet, before, pageSize).1;
      if next.Some? { FinalValid(wallet, ws1, growth[1..], next, pageSize); }
    }
  }

  lemma {:induction false} InTimeIsStored(
    tables: seq<Table>, wallet: string, before: Option<Signature>, pageSize: nat, r: Record)
    requires Growing(tables)
    ensures StoredInTime(tables, wallet, before, pageSize, r) ==> tables != [] && r in tables[|tables| - 1]
    decreases |tables|
  {
    hide Query, GetHistory;
    if tables != [] {
      assert Within(tables[0], tables[|tables| - 1]) || |tables| == 1;
      if r !in tables[0] {
        GrowingTail(tables);
        var next := GetHistory(tables[0], wallet, before, pageSize).1;
        InTimeIsStored(tables[1..], wallet, next, pageSize, r);
      }
    }
  }

  // ---- When a walk syncs older history at all ----

  predicate AnyShort(wallet: string, ws: seq<Tracked>, pageSize: nat) {
    exists i :: 0 <= i < |ws| && Short(wallet, ws[i], pageSize)
  }

  /** Some request of the walk that carries a cursor syncs older history of some address. */
  ghost predicate SyncsOlder(wallet: string, ws: seq<Tracked>, growth: seq<nat -> nat>, before: Option<Signature>, pageSize: nat)
    requires WalletValid(ws)
    decreases |growth|
  {
    && growth != []
    && ((before.Some? && AnyShort(wallet, ws, pageSize)) ||
        var ws1 := SyncAll(wallet, ws, growth[0], before, pageSize);
        SyncAllKeeps(wallet, ws, growth[0], before, pageSize);
        var next := GetHistory(TableOf(wallet, ws1), wallet, before, pageSize).1;
        next.Some? && SyncsOlder(wallet, ws1, growth[1..], next, pageSize))
  }

  lemma {:induction false} SameStoredSameTable(wallet: string, ws: seq<Tracked>, ws': seq<Tracked>)
    requires |ws| == |ws'| && forall i :: 0 <= i < |ws| ==> Stored(wallet, ws'[i]) == Stored(wallet, ws[i])
    ensures TableOf(wallet, ws') == TableOf(wallet, ws)
  {
    hide Stored;
    if ws != [] { SameStoredSameTable(wallet, ws[..|ws| - 1], ws'[..|ws| - 1]); }
  }

  /** A cursor request to addresses none of which is short stores nothing and leaves none short. */
  lemma QuietSync(wallet: string, ws: seq<Tracked>, gain: nat -> nat, before: Option<Signature>, pageSize: nat)
    requires WalletValid(ws) && before.Some? && !AnyShort(wallet, ws, pageSize)
    ensures var ws' := SyncAll(wallet, ws, gain, before, pageSize);
            TableOf(wallet, ws') == TableOf(wallet, ws) && !AnyShort(wallet, ws', pageSize)
  {
    var ws' := SyncAll(wallet, ws, gain, before, pageSize);
    forall i | 0 <= i < |ws|
      ensures Stored(wallet, ws'[i]) == Stored(wallet, ws[i]) && ws'[i].state.row == ws[i].state.row
    {
      assert !Short(wallet, ws[i], pageSize);
      SyncOneKeeps(wallet, ws[i], gain(i), before, pageSize);
    }
    hide Stored, TableOf;
    SameStoredSameTable(wallet, ws, ws');
    forall i | 0 <= i < |ws'| ensures !Short(wallet, ws'[i], pageSize) {
      assert !Short(wallet, ws[i], pageSize);
    }
  }

  lemma {:induction false} NoneShortNoneOlder(
    wallet: string, ws: seq<Tracked>, growth: seq<nat -> nat>, before: Option<Signature>, pageSize: nat)
    requires WalletValid(ws) && before.Some? && !AnyShort(wallet, ws, pageSize)
    ensures !SyncsOlder(wallet, ws, growth, before, pageSize)
    decreases |growth|
  {
    hide GetHistory, SyncAll, TableOf, WalletValid, AnyShort;
    if growth != [] {
      var ws1 := SyncAll(wallet, ws, growth[0], before, pageSize);
      SyncAllKeeps(wallet, ws, growth[0], before, pageSize);
      QuietSync(wallet, ws, growth[0], before, pageSize);
      var next := GetHistory(TableOf(wallet, ws1), wallet, before, pageSize).1;
      if next.Some? { NoneShortNoneOlder(wallet, ws1, growth[1..], next, pageSize); }
    }
  }

  /**
   * Following cursors syncs older history at some request if and only if the first answer has a
   * cursor and the first sync left some address with fewer rows than a page and its end not reached.
   */
  lemma SyncsOlderIff(wallet: string, ws: seq<Tracked>, growth: seq<nat -> nat>, pageSize: nat)
    requires WalletValid(ws) && |growth| >= 2
    ensures var ws1 := SyncAll(wallet, ws, growth[0], None, pageSize);
            SyncsOlder(wallet, ws, growth, None, pageSize) <==>
            GetHistory(TableOf(wallet, ws1), wallet, None, pageSize).1.Some? && AnyShort(wallet, ws1, pageSize)
  {
    var ws1 := SyncAll(wallet, ws, growth[0], None, pageSize);
    SyncAllKeeps(wallet, ws, growth[0], None, pageSize);
    hide GetHistory, SyncAll, TableOf, WalletValid, AnyShort;
    var next := GetHistory(TableOf(wallet, ws1), wallet, None, pageSize).1;
    if next.Some? && !AnyShort(wallet, ws1, pageSize) {
      NoneShortNoneOlder(wallet, ws1, growth[1..], next, pageSize);
    }
  }

  lemma {:induction false} FilterNoLonger(t: Table, keep: Record -> bool)
    ensures |Filter(t, keep)| <= |t|
  {
    if t != [] { FilterNoLonger(t[1..], keep); }
  }

  lemma QueryNoLonger(t: Table, wallet: string, before: Option<Signature>)
    ensures |Query(t, wallet, before)| <= |t|
  {
    FilterNoLonger(t, Matches(wallet, None));
    if before.Some? && FindCursor(t, before.value).Some? {
      FilterNoLonger(t, Matches(wallet, FindCursor(t, before.value)));
    }
  }

  /**
   * A wallet with one tracked address never gets older history by following cursors: a cursor is
   * only given out while that address holds more rows than a page.
   */
  lemma OneAddressNeverSyncsOlder(wallet: string, t: Tracked, growth: seq<nat -> nat>, pageSize: nat)
    requires WalletValid([t]) && pageSize >= 1 && |growth| >= 2
    ensures !SyncsOlder(wallet, [t], growth, None, pageSize)
  {
    var ws1 := SyncAll(wallet, [t], growth[0], None, pageSize);
    SyncsOlderIff(wallet, [t], growth, pageSize);
    var rows := TableOf(wallet, ws1);
    assert ws1[..0] == [] && TableOf(wallet, []) == [];
    assert rows == Stored(wallet, ws1[0]);
    hide GetHistory, SyncAll, SyncsOlder, Stored, TableOf, Query;
    PageIsPrefix(rows, wallet, None, pageSize);
    QueryNoLonger(rows, wallet, None);
  }

  // ---- What a walk reads that syncs once ----

  /** From a cursor on, with no address short, the walk reads the stored rows below it and stores nothing. */
  lemma {:induction false} QuietWalkReadsStored(
    wallet: string, ws: seq<Tracked>, t: Table, growth: seq<nat -> nat>, before: Option<Signature>, pageSize: nat)
    requires WalletValid(ws) && pageSize >= 1 && before.Some? && !AnyShort(wallet, ws, pageSize)
    requires t == TableOf(wallet, ws) && Indexed(t) && CursorHeld(t, before) && |growth| > |Query(t, wallet, before)|
    ensures var (ws', seen, done) := Walk(wallet, ws, growth, before, pageSize);
            done && seen == Query(t, wallet, before) && TableOf(wallet, ws') == t
    decreases |growth|
  {
    hide GetHistory, Query, SyncAll, TableOf, WalletValid, AnyShort, Indexed, CursorHeld;
    var ws1 := SyncAll(wallet, ws, growth[0], before, pageSize);
    SyncAllKeeps(wallet, ws, growth[0], before, pageSize);
    QuietSync(wallet, ws, growth[0], before, pageSize);
    var (page, next) := GetHistory(t, wallet, before, pageSize);
    PageIsPrefix(t, wallet, before, pageSize);
    if next.Some? {
      RestOfQuery(t, wallet, before, pageSize);
      QuietWalkReadsStored(wallet, ws1, t, growth[1..], next, pageSize);
    }
  }

  lemma RestOfQuery(t: Table, wallet: string, before: Option<Signature>, pageSize: nat)
    requires Indexed(t) && CursorHeld(t, before) && pageSize >= 1
    ensures var (page, next) := GetHistory(t, wallet, before, pageSize);
            next.Some? ==>
              && CursorHeld(t, next) && page + Query(t, wallet, next) == Query(t, wallet, before)
              && |Query(t, wallet, next)| < |Query(t, wallet, before)|
  {
    hide Query, GetHistory, Indexed;
    PageIsPrefix(t, wallet, before, pageSize);
    if GetHistory(t, wallet, before, pageSize).1.Some? {
      QueryResumes(t, wallet, before, pageSize - 1);
      var rows := Query(t, wallet, before);
      assert rows == rows[..pageSize] + rows[pageSize..];
    }
  }

  /**
   * When no cursor request syncs older history, a long enough walk finishes and reads exactly what
   * its first request left stored, however the logs grow meanwhile.
   */
  lemma WalkSyncsOnce(wallet: string, ws: seq<Tracked>, growth: seq<nat -> nat>, pageSize: nat)
    requires WalletValid(ws) && pageSize >= 1 && growth != []
    requires |growth| > |TableOf(wallet, SyncAll(wallet, ws, growth[0], None, pageSize))| + 1
    requires !SyncsOlder(wallet, ws, growth, None, pageSize)
    ensures var t := TableOf(wallet, SyncAll(wallet, ws, growth[0], None, pageSize));
            var (ws', seen, done) := Walk(wallet, ws, growth, None, pageSize);
            done && seen == Query(t, wallet, None) && TableOf(wallet, ws') == t
  {
    var ws1 := SyncAll(wallet, ws, growth[0], None, pageSize);
    var t := TableOf(wallet, ws1);
    SyncsOlderIff(wallet, ws, growth, pageSize);
    SyncAllKeeps(wallet, ws, growth[0], None, pageSize);
    TableIndexed(wallet, ws1);
    QueryNoLonger(t, wallet, None);
    assert CursorHeld(t, None);
    hide GetHistory, Query, SyncAll, SyncsOlder, TableOf, WalletValid, AnyShort, Indexed, CursorHeld;
    var (page, next) := GetHistory(t, wallet, None, pageSize);
    PageIsPrefix(t, wallet, None, pageSize);
    if next.Some? {
      RestOfQuery(t, wallet, None, pageSize);
      QuietWalkReadsStored(wallet, ws1, t, growth[1..], next, pageSize);
    }
  }

  /** Every record that the log of every address had at the first request is among those read. */
  ghost predicate ReadsWholeLogs(wallet: string, ws: seq<Tracked>, seen: seq<Record>) {
    forall i, p: nat :: 0 <= i < |ws| && p < ws[i].state.length && ws[i].log.parsed(p) ==> RecordAt(wallet, ws[i].log, p) in seen
  }

  ghost predicate FetchedWholeLogs(ws: seq<Tracked>) {
    forall i, p: nat :: 0 <= i < |ws| && p < ws[i].state.length && ws[i].log.parsed(p) ==> p in ws[i].state.fetched
  }

  lemma StoredIffFetched(wallet: string, ws: seq<Tracked>, i: nat, p: nat)
    requires Distinct(ws) && i < |ws| && p < ws[i].state.length && ws[i].log.parsed(p)
    ensures RecordAt(wallet, ws[i].log, p) in TableOf(wallet, ws) <==> p in ws[i].state.fetched
  {
    var r := RecordAt(wallet, ws[i].log, p);
    hide Distinct;
    TableMember(wallet, ws, r);
    RowsMember(wallet, ws[i].log, ws[i].state.fetched, ws[i].state.length, r);
    if r in TableOf(wallet, ws) {
      var j :| 0 <= j < |ws| && r in Stored(wallet, ws[j]);
      RowsMember(wallet, ws[j].log, ws[j].state.fetched, ws[j].state.length, r);
      var q: nat :| q < ws[j].state.length && q in ws[j].state.fetched && RecordAt(wallet, ws[j].log, q) == r;
      SameSignature(wallet, ws, i, p, j, q);
    }
  }

  lemma SameSignature(wallet: string, ws: seq<Tracked>, i: nat, p: nat, j: nat, q: nat)
    requires Distinct(ws) && i < |ws| && j < |ws| && RecordAt(wallet, ws[i].log, p) == RecordAt(wallet, ws[j].log, q)
    ensures i == j && p == q
  {
    assert RecordAt(wallet, ws[i].log, p).signature == SignatureAt(ws[i].log, p);
    assert RecordAt(wallet, ws[j].log, q).signature == SignatureAt(ws[j].log, q);
  }

  /**
   * Such a walk reads every record its first request could have seen if and only if that request's
   * sync left all of them fetched.
   */
  lemma WalkReadsWholeLogsIff(wallet: string, ws: seq<Tracked>, growth: seq<nat -> nat>, pageSize: nat)
    requires WalletValid(ws) && pageSize >= 1 && growth != []
    requires |growth| > |TableOf(wallet, SyncAll(wallet, ws, growth[0], None, pageSize))| + 1
    requires !SyncsOlder(wallet, ws, growth, None, pageSize)
    ensures var ws1 := SyncAll(wallet, ws, growth[0], None, pageSize);
            ReadsWholeLogs(wallet, ws1, Walk(wallet, ws, growth, None, pageSize).1) <==> FetchedWholeLogs(ws1)
  {
    var ws1 := SyncAll(wallet, ws, growth[0], None, pageSize);
    WalkSyncsOnce(wallet, ws, growth, pageSize);
    SyncAllKeeps(wallet, ws, growth[0], None, pageSize);
    TableIndexed(wallet, ws1);
    QueryDescends(TableOf(wallet, ws1), wallet, None);
    hide GetHistory, Query, SyncAll, SyncsOlder, TableOf, Walk, RowsOf, Distinct;
    forall i, p: nat | 0 <= i < |ws1| && p < ws1[i].state.length && ws1[i].log.parsed(p)
      ensures RecordAt(wallet, ws1[i].log, p) in Query(TableOf(wallet, ws1), wallet, None) <==> p in ws1[i].state.fetched
    {
      StoredIffFetched(wallet, ws1, i, p);
    }
  }

  /**
   * A first walk over one address, with its log as it stands, reads the whole history if and only
   * if no record is older than the newest batch.
   */
  lemma FirstWalkReadsWholeLogIff(wallet: string, log: Log, n: nat, growth: seq<nat -> nat>, pageSize: nat)
    requires WalletValid([Tracked(log, State(n, FRESH_ROW, {}))]) && pageSize >= 1
    requires |growth| > n + 2 && growth[0](0) == 0
    ensures var ws := [Tracked(log, State(n, FRESH_ROW, {}))];
            ReadsWholeLogs(wallet, ws, Walk(wallet, ws, growth, None, pageSize).1) <==>
            forall p: nat :: p < n && log.parsed(p) ==> n - p <= 50
  {
    var t := Tracked(log, State(n, FRESH_ROW, {}));
    var ws1 := SyncAll(wallet, [t], growth[0], None, pageSize);
    SyncAllKeeps(wallet, [t], growth[0], None, pageSize);
    OneAddressNeverSyncsOlder(wallet, t, growth, pageSize);
    assert ws1[0].log == log && ws1[0].state == RunLatest(t.state);
    assert ws1 == [Tracked(log, RunLatest(t.state))];
    NewestBatchIs(n);
    OneAddressRows(wallet, ws1[0]);
    hide RunLatest, SyncAll, SyncsOlder, Walk, TableOf, WalletValid;
    WalkReadsWholeLogsIff(wallet, [t], growth, pageSize);
  }

  lemma OneAddressRows(wallet: string, t: Tracked)
    requires WalletValid([t])
    ensures |TableOf(wallet, [t])| <= t.state.length
  {
    assert [t][..0] == [] && TableOf(wallet, []) == [];
    assert TableOf(wallet, [t]) == Stored(wallet, t);
    assert forall p: nat, q: nat :: p != q ==> SignatureAt([t][0].log, p) != SignatureAt([t][0].log, q);
    RowsIndexed(wallet, t.log, t.state.fetched, t.state.length);
  }

  lemma NewestBatchIs(n: nat)
    ensures var s := RunLatest(State(n, FRESH_ROW, {}));
            && s.length == n
            && forall p: nat :: p in s.fetched <==> p < n && n - p <= 50
  {
    var page := PageDown(n, 0);
    forall p: nat | p < n && n - p <= 50
      ensures p in page
    {
      assert page[n - 1 - p] == p;
    }
  }
}
