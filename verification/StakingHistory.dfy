/**
 * Syncing one address's signatures from an append-only remote log. A signature is known by its
 * position in the log (0 is the oldest), so a log is its length; pages come newest first.
 */
module StakingHistory {
  import opened Wrappers

  const SIGNATURE_BACKFILL_BATCH_SIZE := 50

  /** The watermark row kept for the address. */
  datatype Row = Row(newest: Option<nat>, oldest: Option<nat>, reached: bool)

  const FRESH_ROW := Row(None, None, false)

  /** Positions hi-1 down to lo, cut off after one batch. */
  function PageDown(hi: nat, lo: nat): (page: seq<nat>)
    requires lo <= hi
  {
    var size := if hi - lo <= SIGNATURE_BACKFILL_BATCH_SIZE then hi - lo else SIGNATURE_BACKFILL_BATCH_SIZE;
    seq(size, i requires 0 <= i < size => (hi - 1 - i) as nat)
  }

  /** How many signatures of a log of length n the row has no watermark for. */
  function Unseen(n: nat, row: Row): int {
    match row.newest
    case Some(p) => n - (p + 1)
    case None => n
  }

  /** The newest page, stopping short of the newest watermark. */
  function LatestPage(n: nat, row: Row): seq<nat>
    requires row.newest.Some? ==> row.newest.value < n
  {
    PageDown(n, if row.newest.Some? then row.newest.value + 1 else 0)
  }

  /** The page just below the oldest watermark, or the newest page when there is none. */
  function OlderPage(n: nat, row: Row): seq<nat>
    requires row.oldest.Some? ==> row.oldest.value < n
  {
    PageDown(if row.oldest.Some? then row.oldest.value else n, 0)
  }

  /** The row to save after a latest sync that fetched a page. */
  function AfterLatest(row: Row, page: seq<nat>): Row {
    if page == [] then row
    else row.(newest := Some(page[0]), oldest := if row.oldest.Some? then row.oldest else Some(page[|page| - 1]))
  }

  /** The row to save after an older sync; an empty page means the oldest end was reached. */
  function AfterOlder(row: Row, page: seq<nat>): Row {
    if page == [] then row.(reached := true)
    else Row(if row.newest.Some? then row.newest else Some(page[0]), Some(page[|page| - 1]), false)
  }

  // ---- What a row claims ----

  ghost predicate Covers(fetched: set<nat>, lo: int, hi: int) {
    forall p: nat :: lo <= p <= hi ==> p in fetched
  }

  /** Everything between the watermarks was fetched, and after the flag everything below the newest one. */
  ghost predicate NoHole(row: Row, fetched: set<nat>) {
    row.newest.Some? && row.oldest.Some? ==>
      && Covers(fetched, row.oldest.value, row.newest.value)
      && (row.reached ==> Covers(fetched, 0, row.newest.value))
  }

  /** The row says that this position was fetched. */
  ghost predicate Claims(row: Row, p: nat) {
    && row.newest.Some? && row.oldest.Some? && p <= row.newest.value
    && (row.oldest.value <= p || row.reached)
  }

  lemma NoHoleIs(row: Row, fetched: set<nat>)
    ensures NoHole(row, fetched) <==> forall p: nat :: Claims(row, p) ==> p in fetched
  {
  }

  /** The watermarks are set together and lie in order within the log. */
  ghost predicate WellFormed(row: Row, n: nat) {
    && (row.newest.Some? <==> row.oldest.Some?)
    && (row.newest.Some? ==> row.oldest.value <= row.newest.value < n)
  }

  ghost function PageSet(page: seq<nat>): set<nat> { set p | p in page }

  lemma PageDownIs(hi: nat, lo: nat)
    requires lo <= hi
    ensures var page := PageDown(hi, lo);
            && |page| == (if hi - lo <= 50 then hi - lo else 50)
            && (hi - lo <= SIGNATURE_BACKFILL_BATCH_SIZE ==> Covers(PageSet(page), lo, hi - 1))
            && (forall p: nat :: p in PageSet(page) ==> lo <= p < hi && hi - |page| <= p)
            && (page != [] ==> page[0] == hi - 1 && lo <= page[|page| - 1] < hi && Covers(PageSet(page), page[|page| - 1], hi - 1))
            && (page == [] <==> lo == hi)
            && (hi - lo > SIGNATURE_BACKFILL_BATCH_SIZE ==> page[|page| - 1] > lo && lo !in PageSet(page))
  {
    var page := PageDown(hi, lo);
    forall p: nat | hi - |page| <= p < hi
      ensures p in PageSet(page)
    {
      assert page[hi - 1 - p] == p;
    }
  }

  /** A latest sync that starts from a watermark or the flag faces more than one batch. */
  ghost predicate Overrun(n: nat, row: Row) {
    (row.newest.Some? || row.reached) && Unseen(n, row) > SIGNATURE_BACKFILL_BATCH_SIZE
  }

  /** Whatever the log and the other syncs did since the row was read, saving the new row claims nothing unfetched. */
  lemma LatestClaimsTrue(row: Row, n: nat, fetched: set<nat>)
    requires WellFormed(row, n) && NoHole(row, fetched) && !Overrun(n, row)
    ensures var page := LatestPage(n, row);
            WellFormed(AfterLatest(row, page), n) && NoHole(AfterLatest(row, page), fetched + PageSet(page))
  {
    var lo := if row.newest.Some? then row.newest.value + 1 else 0;
    PageDownIs(n, lo);
    hide PageDown;
  }

  lemma OlderClaimsTrue(row: Row, n: nat, fetched: set<nat>)
    requires WellFormed(row, n) && NoHole(row, fetched)
    ensures var page := OlderPage(n, row);
            WellFormed(AfterOlder(row, page), n) && NoHole(AfterOlder(row, page), fetched + PageSet(page))
  {
    PageDownIs(if row.oldest.Some? then row.oldest.value else n, 0);
    hide PageDown;
  }

  // ---- One sync after another ----

  datatype Sync = Latest | Older
  /** A sync, and how many signatures the log gained since the previous one. */
  datatype Request = Request(sync: Sync, gained: nat)

  datatype State = State(length: nat, row: Row, fetched: set<nat>)

  const START := State(0, FRESH_ROW, {})

  function RunLatest(s: State): State
    requires WellFormed(s.row, s.length)
  {
    var page := LatestPage(s.length, s.row);
    s.(row := AfterLatest(s.row, page), fetched := s.fetched + set p | p in page)
  }

  /** Older pages are only asked for while the flag is down. */
  function RunOlder(s: State): State
    requires WellFormed(s.row, s.length)
  {
    if s.row.reached then s else
      var page := OlderPage(s.length, s.row);
      s.(row := AfterOlder(s.row, page), fetched := s.fetched + set p | p in page)
  }

  function Grow(s: State, gained: nat): State { s.(length := s.length + gained) }

  function Serve(s: State, r: Request): State
    requires WellFormed(s.row, s.length)
  {
    var s1 := Grow(s, r.gained);
    match r.sync
    case Latest => RunLatest(s1)
    case Older => RunOlder(s1)
  }

  lemma ServeWellFormed(s: State, r: Request)
    requires WellFormed(s.row, s.length)
    ensures WellFormed(Serve(s, r).row, Serve(s, r).length)
  {
    var s1 := Grow(s, r.gained);
    PageDownIs(s1.length, if s1.row.newest.Some? then s1.row.newest.value + 1 else 0);
    PageDownIs(if s1.row.oldest.Some? then s1.row.oldest.value else s1.length, 0);
    hide PageDown;
  }

  ghost function RunAll(rs: seq<Request>): (s: State)
    ensures WellFormed(s.row, s.length)
  {
    if rs == [] then START else
      var s := RunAll(rs[..|rs| - 1]);
      ServeWellFormed(s, rs[|rs| - 1]);
      Serve(s, rs[|rs| - 1])
  }

  /** The request is a latest sync that faces more unseen signatures than one batch holds. */
  ghost predicate Overruns(s: State, r: Request) {
    r.sync == Latest && Overrun(s.length + r.gained, s.row)
  }

  /** A position the row wrongly claims, which no later sync will ever ask for. */
  ghost predicate Lost(s: State, p: nat) {
    Claims(s.row, p) && p !in s.fetched
  }

  /** Nothing beyond the newest watermark has been fetched when syncs run one at a time. */
  ghost predicate NothingAhead(s: State) {
    forall p :: p in s.fetched ==> s.row.newest.Some? && p <= s.row.newest.value
  }

  lemma ServeStaysBehind(s: State, r: Request)
    requires WellFormed(s.row, s.length) && NothingAhead(s)
    ensures NothingAhead(Serve(s, r))
  {
    var s1 := Grow(s, r.gained);
    PageDownIs(s1.length, if s1.row.newest.Some? then s1.row.newest.value + 1 else 0);
    PageDownIs(if s1.row.oldest.Some? then s1.row.oldest.value else s1.length, 0);
    hide PageDown;
  }

  lemma LostForGood(s: State, r: Request, p: nat)
    requires WellFormed(s.row, s.length) && Lost(s, p)
    ensures Lost(Serve(s, r), p)
  {
    var s1 := Grow(s, r.gained);
    PageDownIs(s1.length, s1.row.newest.value + 1);
    PageDownIs(s1.row.oldest.value, 0);
    hide PageDown;
  }

  lemma OverrunLoses(s: State, r: Request) returns (p: nat)
    requires WellFormed(s.row, s.length) && NothingAhead(s) && Overruns(s, r)
    ensures Lost(Serve(s, r), p)
  {
    var s1 := Grow(s, r.gained);
    p := if s1.row.newest.Some? then s1.row.newest.value + 1 else 0;
    PageDownIs(s1.length, p);
    hide PageDown;
  }

  ghost predicate NeverOverruns(rs: seq<Request>) {
    forall i :: 0 <= i < |rs| ==> !Overruns(RunAll(rs[..i]), rs[i])
  }

  lemma NeverOverrunsSplits(rs: seq<Request>)
    requires rs != []
    ensures var init := rs[..|rs| - 1];
            NeverOverruns(rs) <==> NeverOverruns(init) && !Overruns(RunAll(init), rs[|rs| - 1])
  {
    hide RunAll, Overruns;
    var init := rs[..|rs| - 1];
    assert forall i :: 0 <= i < |init| ==> init[..i] == rs[..i];
  }

  lemma StepNoHole(s: State, r: Request)
    requires WellFormed(s.row, s.length) && NoHole(s.row, s.fetched) && !Overruns(s, r)
    ensures NoHole(Serve(s, r).row, Serve(s, r).fetched)
  {
    hide PageDown;
    if r.sync == Latest {
      LatestClaimsTrue(s.row, s.length + r.gained, s.fetched);
    } else {
      OlderClaimsTrue(s.row, s.length + r.gained, s.fetched);
    }
  }

  /**
   * After any sequence of syncs over a growing log the watermarks hide no hole, and the flag means
   * everything below the newest one was fetched, if and only if no latest sync was overrun.
   */
  lemma {:induction false} SyncLeavesNoHoleIff(rs: seq<Request>)
    ensures NothingAhead(RunAll(rs))
    ensures NoHole(RunAll(rs).row, RunAll(rs).fetched) <==> NeverOverruns(rs)
    ensures !NeverOverruns(rs) ==> exists p: nat :: Lost(RunAll(rs), p)
  {
    if rs != [] {
      hide Serve, NothingAhead, NoHole, Lost, Overruns, NeverOverruns;
      var init, r := rs[..|rs| - 1], rs[|rs| - 1];
      var s := RunAll(init);
      SyncLeavesNoHoleIff(init);
      NeverOverrunsSplits(rs);
      ServeStaysBehind(s, r);
      if !NeverOverruns(init) {
        var p: nat :| Lost(s, p);
        LostForGood(s, r, p);
        LostIsHole(RunAll(rs), p);
      } else if Overruns(s, r) {
        var p := OverrunLoses(s, r);
        LostIsHole(RunAll(rs), p);
      } else {
        StepNoHole(s, r);
      }
    } else {
      assert RunAll(rs) == START;
    }
  }

  lemma LostIsHole(s: State, p: nat)
    requires Lost(s, p)
    ensures !NoHole(s.row, s.fetched)
  {
  }

  function RunOlderTimes(s: State, k: nat): (s': State)
    requires WellFormed(s.row, s.length)
    ensures WellFormed(s'.row, s'.length)
    decreases k
  {
    if k == 0 then s else
      ServeWellFormed(s, Request(Older, 0));
      RunOlderTimes(RunOlder(s), k - 1)
  }

  lemma OlderStepsDown(s: State)
    requires WellFormed(s.row, s.length) && s.row.oldest.Some?
    ensures var s' := RunOlder(s);
            && s'.row.oldest.Some? && s'.row.newest == s.row.newest && s'.length == s.length
            && s'.row.oldest.value <= s.row.oldest.value
            && (s.row.reached ==> s' == s)
            && (!s.row.reached ==> s'.row.oldest.value <= s.row.oldest.value - SIGNATURE_BACKFILL_BATCH_SIZE || s'.row.oldest.value == 0)
            && (!s.row.reached && s.row.oldest.value == 0 ==> s'.row.reached)
  {
    var page := OlderPage(s.length, s.row);
    assert page != [] ==> page[|page| - 1] == s.row.oldest.value - |page|;
  }

  lemma {:induction false} FlagStaysUp(s: State, k: nat)
    requires WellFormed(s.row, s.length) && s.row.reached
    ensures RunOlderTimes(s, k) == s
    decreases k
  {
    if k > 0 { FlagStaysUp(s, k - 1); }
  }

  /** Older syncs get to the oldest end: one for each batch below the watermark, and one to raise the flag. */
  lemma {:induction false} OlderSyncsReachOldest(s: State, k: nat)
    requires WellFormed(s.row, s.length) && s.row.oldest.Some? && NoHole(s.row, s.fetched)
    requires s.row.oldest.value <= k * SIGNATURE_BACKFILL_BATCH_SIZE
    ensures var s' := RunOlderTimes(s, k + 1);
            && s'.row.reached && s'.row.newest == s.row.newest
            && Covers(s'.fetched, 0, s.row.newest.value)
    decreases k
  {
    var s1 := RunOlder(s);
    OlderStepsDown(s);
    ServeWellFormed(s, Request(Older, 0));
    if !s.row.reached { OlderClaimsTrue(s.row, s.length, s.fetched); }
    hide RunOlder;
    if s1.row.reached {
      FlagStaysUp(s1, k);
    } else {
      OlderSyncsReachOldest(s1, k - 1);
    }
  }

  /** A latest sync always ends on the newest signature of the log. */
  lemma LatestCatchesUp(s: State)
    requires WellFormed(s.row, s.length) && s.length > 0
    ensures RunLatest(s).row.newest == Some(s.length - 1)
  {
    PageDownIs(s.length, if s.row.newest.Some? then s.row.newest.value + 1 else 0);
  }

  /** The service object: the watermark row and the set of signatures already looked at. */
  class HistorySync {
    var row: Row
    var fetched: set<nat>

    ghost predicate Valid(n: nat)
      reads this
    {
      WellFormed(row, n)
    }

    constructor ()
      ensures row == FRESH_ROW && fetched == {}
    {
      row, fetched := FRESH_ROW, {};
    }

    /**
     * Records first, watermarks after. The second statement may fail, and whatever it does the row
     * that stands claims nothing that was not stored.
     */
    method PersistHistoryBatch(page: seq<nat>, next: Row, rowSaved: bool)
      modifies this
      ensures row == (if rowSaved then next else old(row)) && fetched == old(fetched) + PageSet(page)
      ensures NoHole(old(row), old(fetched)) && NoHole(next, old(fetched) + PageSet(page)) ==> NoHole(row, fetched)
    {
      if |page| > 0 {
        fetched := fetched + set p | p in page;
      }
      if rowSaved {
        row := next;
      }
    }

    method BackfillLatestHistory(n: nat, rowSaved: bool)
      requires Valid(n)
      modifies this
      ensures Valid(n)
      ensures rowSaved ==> State(n, row, fetched) == RunLatest(State(n, old(row), old(fetched)))
      ensures !rowSaved ==> row == old(row) && old(fetched) <= fetched
      ensures NoHole(old(row), old(fetched)) && !Overrun(n, old(row)) ==> NoHole(row, fetched)
    {
      PageDownIs(n, if row.newest.Some? then row.newest.value + 1 else 0);
      if NoHole(row, fetched) && !Overrun(n, row) { LatestClaimsTrue(row, n, fetched); }
      hide NoHole, Overrun, PageDown;
      var signatures := LatestPage(n, row);
      if |signatures| == 0 { return; }
      PersistHistoryBatch(signatures, Row(
        Some(signatures[0]),
        if row.oldest.Some? then row.oldest else Some(signatures[|signatures| - 1]),
        row.reached), rowSaved);
    }

    method BackfillOlderHistory(n: nat, rowSaved: bool)
      requires Valid(n) && !row.reached
      modifies this
      ensures Valid(n)
      ensures rowSaved ==> State(n, row, fetched) == RunOlder(State(n, old(row), old(fetched)))
      ensures !rowSaved ==> row == old(row) && old(fetched) <= fetched
      ensures NoHole(old(row), old(fetched)) ==> NoHole(row, fetched)
    {
      PageDownIs(if row.oldest.Some? then row.oldest.value else n, 0);
      if NoHole(row, fetched) { OlderClaimsTrue(row, n, fetched); }
      var signatures := OlderPage(n, row);
      assert fetched + PageSet([]) == fetched;
      hide NoHole, PageDown;
      if |signatures| == 0 {
        if rowSaved { row := row.(reached := true); }
        return;
      }
      PersistHistoryBatch(signatures, Row(
        if row.newest.Some? then row.newest else Some(signatures[0]),
        Some(signatures[|signatures| - 1]),
        false), rowSaved);
    }
  }
}
