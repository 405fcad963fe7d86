/**
 * A wallet of two addresses whose walk misses a row: an older sync stores it during the walk, above
 * the place the walk's cursor has reached.
 */
module StakingHistoryLateRow {
  import opened Wrappers
  import opened StakingHistory
  import opened StakingHistoryPages
  import opened StakingHistoryWalk

  /** Two old records. */
  const SETTLED := Tracked(Log((p: nat) => 0, (p: nat) => 2 * p, (p: nat) => true), State(2, FRESH_ROW, {}))

  /** Fifty-one signatures of which only the oldest is a record, newer than both of the others. */
  const DORMANT := Tracked(Log((p: nat) => 300, (p: nat) => 2 * p + 1, (p: nat) => p == 0), State(51, FRESH_ROW, {}))

  const WALLET := [SETTLED, DORMANT]

  lemma WalletIsValid()
    ensures WalletValid(WALLET)
  {
  }

  lemma NewestPages()
    ensures var s := RunLatest(SETTLED.state); s.length == 2 && s.fetched == {0, 1}
    ensures var s := RunLatest(DORMANT.state);
            s.length == 51 && 0 !in s.fetched && s.row == Row(Some(50), Some(1), false)
  {
    PageDownIs(2, 0);
    PageDownIs(51, 0);
    assert PageDown(51, 0)[49] == 1;
    assert PageDown(2, 0) == [1, 0];
  }

  /** After the first sync the wallet holds the two old records, and the other address none. */
  lemma FirstTable(wallet: string, ws1: seq<Tracked>)
    requires ws1 == [SETTLED.(state := RunLatest(SETTLED.state)), DORMANT.(state := RunLatest(DORMANT.state))]
    ensures Stored(wallet, ws1[1]) == [] && Short(wallet, ws1[1], 1)
    ensures forall r :: r in TableOf(wallet, ws1) ==> r.blockTime == 0 && r.wallet == wallet
    ensures Record(wallet, 0, 0) in TableOf(wallet, ws1) && Record(wallet, 0, 2) in TableOf(wallet, ws1)
  {
    NewestPages();
    hide RunLatest, TableOf, RowsOf;
    assert Stored(wallet, ws1[1]) != [] ==> Stored(wallet, ws1[1])[0] in Stored(wallet, ws1[1]);
    forall r ensures r !in Stored(wallet, ws1[1]) {
      RowsMember(wallet, DORMANT.log, ws1[1].state.fetched, 51, r);
    }
    forall r ensures r in TableOf(wallet, ws1) <==> r in Stored(wallet, ws1[0]) {
      TableMember(wallet, ws1, r);
    }
    forall r | r in Stored(wallet, ws1[0]) ensures r.blockTime == 0 && r.wallet == wallet {
      RowsMember(wallet, SETTLED.log, ws1[0].state.fetched, 2, r);
    }
    RowsMember(wallet, SETTLED.log, ws1[0].state.fetched, 2, Record(wallet, 0, 0));
    RowsMember(wallet, SETTLED.log, ws1[0].state.fetched, 2, Record(wallet, 0, 2));
    assert RecordAt(wallet, SETTLED.log, 0) == Record(wallet, 0, 0) && RecordAt(wallet, SETTLED.log, 1) == Record(wallet, 0, 2);
  }

  lemma TwoRowsGiveCursor(t: Table, wallet: string, a: Record, b: Record)
    requires Indexed(t) && a in t && b in t && a != b && a.wallet == wallet && b.wallet == wallet
    ensures var (page, next) := GetHistory(t, wallet, None, 1);
            next.Some? && exists c :: c in t && page == [c] && next == Some(c.signature)
  {
    QueryDescends(t, wallet, None);
    hide Query, GetHistory, Indexed;
    PageIsPrefix(t, wallet, None, 1);
    var rows := Query(t, wallet, None);
    var i :| 0 <= i < |rows| && rows[i] == a;
    var j :| 0 <= j < |rows| && rows[j] == b;
    assert i != j && rows[0] in rows;
  }

  /** The second request syncs the older address and stores its record, above the cursor. */
  lemma SecondSyncStores(wallet: string, t: Tracked, gained: nat, before: Option<Signature>)
    requires t == DORMANT.(state := RunLatest(DORMANT.state)) && before.Some? && Short(wallet, t, 1)
    requires TrackedValid(t)
    ensures Record(wallet, 300, 1) in Stored(wallet, SyncOne(wallet, t, gained, before, 1))
  {
    NewestPages();
    hide RunLatest, Stored, Short;
    assert PageDown(1, 0) == [0];
    hide PageDown;
    var t' := SyncOne(wallet, t, gained, before, 1);
    assert 0 in t'.state.fetched;
    assert RecordAt(wallet, t'.log, 0) == Record(wallet, 300, 1);
    RowsMember(wallet, t'.log, t'.state.fetched, t'.state.length, Record(wallet, 300, 1));
    StoredIs(wallet, t');
  }

  lemma StoredIs(wallet: string, t: Tracked)
    ensures Stored(wallet, t) == RowsOf(wallet, t.log, t.state.fetched, t.state.length)
  {
  }

  lemma FirstSync(wallet: string, gain: nat -> nat)
    requires WalletValid(WALLET) && gain(0) == 0 && gain(1) == 0
    ensures SyncAll(wallet, WALLET, gain, None, 1) ==
            [SETTLED.(state := RunLatest(SETTLED.state)), DORMANT.(state := RunLatest(DORMANT.state))]
  {
    assert Grow(SETTLED.state, 0) == SETTLED.state && Grow(DORMANT.state, 0) == DORMANT.state;
    hide RunLatest;
  }

  /** A walk by single rows over this wallet stores that record at its second request and never reads it. */
  lemma LateRowIsMissed(wallet: string, growth: seq<nat -> nat>)
    requires |growth| >= 2 && growth[0](0) == 0 && growth[0](1) == 0
    ensures WalletValid(WALLET)
    ensures var r := Record(wallet, 300, 1);
            && r in TableOf(wallet, Walk(wallet, WALLET, growth, None, 1).0)
            && r !in Walk(wallet, WALLET, growth, None, 1).1
            && StoredTooLate(Tables(wallet, WALLET, growth, None, 1), wallet, None, 1, r)
  {
    WalletIsValid();
    hide *;
    var ws1 := SyncAll(wallet, WALLET, growth[0], None, 1);
    FirstSync(wallet, growth[0]);
    SyncAllKeeps(wallet, WALLET, growth[0], None, 1);
    FirstTable(wallet, ws1);
    LateAfterFirst(wallet, ws1, growth);
  }

  lemma WalkGoesOn(wallet: string, ws: seq<Tracked>, growth: seq<nat -> nat>, before: Option<Signature>, pageSize: nat, ws1: seq<Tracked>)
    requires WalletValid(ws) && growth != [] && ws1 == SyncAll(wallet, ws, growth[0], before, pageSize) && WalletValid(ws1)
    requires GetHistory(TableOf(wallet, ws1), wallet, before, pageSize).1.Some?
    ensures var t := TableOf(wallet, ws1);
            var (page, next) := GetHistory(t, wallet, before, pageSize);
            var walk, rest := Walk(wallet, ws, growth, before, pageSize), Walk(wallet, ws1, growth[1..], next, pageSize);
            && walk.0 == rest.0 && walk.1 == page + rest.1
            && Tables(wallet, ws, growth, before, pageSize) == [t] + Tables(wallet, ws1, growth[1..], next, pageSize)
  {
    hide SyncAll, TableOf, GetHistory, WalletValid;
  }

  lemma TooLateLater(t: Table, rest: seq<Table>, wallet: string, before: Option<Signature>, pageSize: nat, r: Record)
    requires r !in t && GetHistory(t, wallet, before, pageSize).1.Some?
    requires StoredTooLate(rest, wallet, GetHistory(t, wallet, before, pageSize).1, pageSize, r)
    ensures StoredTooLate([t] + rest, wallet, before, pageSize, r)
  {
    hide GetHistory, FindCursor;
    assert ([t] + rest)[1..] == rest;
  }

  lemma LateAfterFirst(wallet: string, ws1: seq<Tracked>, growth: seq<nat -> nat>)
    requires |growth| >= 2 && WalletValid(WALLET) && WalletValid(ws1)
    requires ws1 == SyncAll(wallet, WALLET, growth[0], None, 1)
    requires |ws1| == 2 && ws1[1] == DORMANT.(state := RunLatest(DORMANT.state)) && Short(wallet, ws1[1], 1)
    requires forall r :: r in TableOf(wallet, ws1) ==> r.blockTime == 0 && r.wallet == wallet
    requires Record(wallet, 0, 0) in TableOf(wallet, ws1) && Record(wallet, 0, 2) in TableOf(wallet, ws1)
    ensures var r := Record(wallet, 300, 1);
            && r in TableOf(wallet, Walk(wallet, WALLET, growth, None, 1).0)
            && r !in Walk(wallet, WALLET, growth, None, 1).1
            && StoredTooLate(Tables(wallet, WALLET, growth, None, 1), wallet, None, 1, r)
  {
    var r, t := Record(wallet, 300, 1), TableOf(wallet, ws1);
    TableIndexed(wallet, ws1);
    hide *;
    TwoRowsGiveCursor(t, wallet, Record(wallet, 0, 0), Record(wallet, 0, 2));
    var (page, next) := GetHistory(t, wallet, None, 1);
    var c :| c in t && page == [c] && next == Some(c.signature);
    WalkGoesOn(wallet, WALLET, growth, None, 1, ws1);
    LateFromSecond(wallet, ws1, growth[1..], c);
    TooLateLater(t, Tables(wallet, ws1, growth[1..], next, 1), wallet, None, 1, r);
  }

  /** From a cursor row of time zero on, the walk neither reads nor fails to store the record. */
  lemma LateFromSecond(wallet: string, ws1: seq<Tracked>, growth: seq<nat -> nat>, c: Record)
    requires growth != [] && WalletValid(ws1) && |ws1| == 2
    requires ws1[1] == DORMANT.(state := RunLatest(DORMANT.state)) && Short(wallet, ws1[1], 1)
    requires c in TableOf(wallet, ws1) && c.blockTime == 0
    ensures var r, before := Record(wallet, 300, 1), Some(c.signature);
            && r in TableOf(wallet, Walk(wallet, ws1, growth, before, 1).0)
            && r !in Walk(wallet, ws1, growth, before, 1).1
            && StoredTooLate(Tables(wallet, ws1, growth, before, 1), wallet, before, 1, r)
  {
    var r, before := Record(wallet, 300, 1), Some(c.signature);
    var ws2 := SyncAll(wallet, ws1, growth[0], before, 1);
    assert ws2[1] == SyncOne(wallet, ws1[1], growth[0](1), before, 1) && TrackedValid(ws1[1]);
    SyncAllKeeps(wallet, ws1, growth[0], before, 1);
    TableIndexed(wallet, ws2);
    SecondSyncStores(wallet, ws1[1], growth[0](1), before);
    TableMember(wallet, ws2, r);
    var t2 := TableOf(wallet, ws2);
    assert c in t2;
    FindCursorFinds(t2, c);
    WalkFollowsTables(wallet, ws1, growth, before, 1);
    TablesGrow(wallet, ws1, growth, before, 1);
    var tables := Tables(wallet, ws1, growth, before, 1);
    assert tables != [] && tables[0] == t2;
    assert Within(t2, tables[|tables| - 1]);
    hide SyncAll, TableOf, GetHistory, Query, WalletValid, Indexed, Stored, FindCursor, Short, Tables, Walk, Growing, Descending;
    GrowthNeitherRepeatsNorSkips(tables, wallet, before, 1);
    assert !Newer(c, r);
  }
}
