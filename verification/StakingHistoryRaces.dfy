/**
 * Several requests syncing one address at once. Each reads the watermark row, asks for a page,
 * stores the records and saves the row it computed, and any of these may interleave with the
 * others and with a growing log. A save selects the stored row and then updates the columns that
 * differ from it. Saves may overwrite newer rows, but as long as no save lands inside another, no
 * row ever claims too much.
 */
module StakingHistoryRaces {
  import opened Wrappers
  import opened StakingHistory

  datatype Flight =
    | Began(sync: Sync, read: Row)
    | Fetched(page: seq<nat>, next: Row)
    | Stored(saving: Row)
    | Selected(saving: Row, seen: Row)

  datatype World = World(length: nat, row: Row, fetched: set<nat>, flights: map<nat, Flight>)

  datatype Event =
    | LogGrows(gained: nat)
    | Begin(flight: nat, sync: Sync)
    | FetchPage(flight: nat)
    | StoreRecords(flight: nat)
    | SelectRow(flight: nat)
    | UpdateRow(flight: nat)

  /** The stored row after an update of the columns in which the new row differs from the one selected. */
  function Update(row: Row, seen: Row, saving: Row): Row {
    Row(
      if saving.newest != seen.newest then saving.newest else row.newest,
      if saving.oldest != seen.oldest then saving.oldest else row.oldest,
      if saving.reached != seen.reached then saving.reached else row.reached)
  }

  ghost function FetchFor(w: World, flight: nat): World
    requires flight in w.flights && w.flights[flight].Began? && WellFormed(w.flights[flight].read, w.length)
  {
    var f := w.flights[flight];
    match f.sync
    case Latest =>
      var page := LatestPage(w.length, f.read);
      if page == [] then w.(flights := w.flights - {flight})
      else w.(flights := w.flights[flight := Fetched(page, AfterLatest(f.read, page))])
    case Older =>
      var page := OlderPage(w.length, f.read);
      w.(flights := w.flights[flight := Fetched(page, AfterOlder(f.read, page))])
  }

  ghost function Apply(w: World, e: Event): World {
    match e
    case LogGrows(gained) => w.(length := w.length + gained)
    case Begin(flight, sync) =>
      if flight in w.flights || (sync == Older && w.row.reached) then w
      else w.(flights := w.flights[flight := Began(sync, w.row)])
    case FetchPage(flight) =>
      if flight in w.flights && w.flights[flight].Began? && WellFormed(w.flights[flight].read, w.length)
      then FetchFor(w, flight) else w
    case StoreRecords(flight) =>
      if flight in w.flights && w.flights[flight].Fetched? then
        w.(fetched := w.fetched + PageSet(w.flights[flight].page),
           flights := w.flights[flight := Stored(w.flights[flight].next)])
      else w
    case SelectRow(flight) =>
      if flight in w.flights && w.flights[flight].Stored? then
        w.(flights := w.flights[flight := Selected(w.flights[flight].saving, w.row)])
      else w
    case UpdateRow(flight) =>
      if flight in w.flights && w.flights[flight].Selected? then
        w.(row := Update(w.row, w.flights[flight].seen, w.flights[flight].saving), flights := w.flights - {flight})
      else w
  }

  ghost function Run(es: seq<Event>): World {
    if es == [] then World(0, FRESH_ROW, {}, map[]) else Apply(Run(es[..|es| - 1]), es[|es| - 1])
  }

  ghost predicate OverrunsInFlight(w: World, e: Event) {
    && e.FetchPage? && e.flight in w.flights && w.flights[e.flight].Began?
    && w.flights[e.flight].sync == Latest && Overrun(w.length, w.flights[e.flight].read)
  }

  /** Another save landed between the two statements of this one. */
  ghost predicate MixesSaves(w: World, e: Event) {
    e.UpdateRow? && e.flight in w.flights && w.flights[e.flight].Selected? && w.flights[e.flight].seen != w.row
  }

  /** A row's claims are true of what was fetched. */
  ghost predicate ClaimsTrue(row: Row, length: nat, fetched: set<nat>) {
    WellFormed(row, length) && NoHole(row, fetched)
  }

  ghost predicate FlightSound(f: Flight, length: nat, fetched: set<nat>) {
    match f
    case Began(_, read) => ClaimsTrue(read, length, fetched)
    case Fetched(page, next) => ClaimsTrue(next, length, fetched + PageSet(page))
    case Stored(saving) => ClaimsTrue(saving, length, fetched)
    case Selected(saving, _) => ClaimsTrue(saving, length, fetched)
  }

  ghost predicate Inv(w: World) {
    && ClaimsTrue(w.row, w.length, w.fetched)
    && forall flight :: flight in w.flights ==> FlightSound(w.flights[flight], w.length, w.fetched)
  }

  lemma ClaimsStayTrue(row: Row, length: nat, fetched: set<nat>, length': nat, fetched': set<nat>)
    requires ClaimsTrue(row, length, fetched) && length <= length' && fetched <= fetched'
    ensures ClaimsTrue(row, length', fetched')
  {
  }

  lemma FlightStaysSound(f: Flight, length: nat, fetched: set<nat>, length': nat, fetched': set<nat>)
    requires FlightSound(f, length, fetched) && length <= length' && fetched <= fetched'
    ensures FlightSound(f, length', fetched')
  {
    match f
    case Fetched(page, next) =>
      assert fetched + PageSet(page) <= fetched' + PageSet(page);
      ClaimsStayTrue(next, length, fetched + PageSet(page), length', fetched' + PageSet(page));
    case _ =>
  }

  lemma FetchedSound(f: Flight, length: nat, fetched: set<nat>)
    requires f.Began? && FlightSound(f, length, fetched)
    requires f.sync == Latest ==> !Overrun(length, f.read)
    ensures f.sync == Latest ==>
              var page := LatestPage(length, f.read); FlightSound(Fetched(page, AfterLatest(f.read, page)), length, fetched)
    ensures f.sync == Older ==>
              var page := OlderPage(length, f.read); FlightSound(Fetched(page, AfterOlder(f.read, page)), length, fetched)
  {
    hide PageDown, LatestPage, OlderPage, WellFormed, NoHole;
    if f.sync == Latest {
      LatestClaimsTrue(f.read, length, fetched);
    } else {
      OlderClaimsTrue(f.read, length, fetched);
    }
  }

  lemma StepKeepsClaims(w: World, e: Event)
    requires Inv(w) && !OverrunsInFlight(w, e) && !MixesSaves(w, e)
    ensures Inv(Apply(w, e))
  {
    hide NoHole, PageDown, Overrun, LatestPage, OlderPage;
    StepKeepsOthers(w, e);
    if e.StoreRecords? && e.flight in w.flights {
      assert FlightSound(w.flights[e.flight], w.length, w.fetched);
    }
    if e.FetchPage? && e.flight in w.flights && w.flights[e.flight].Began? {
      FetchedSound(w.flights[e.flight], w.length, w.fetched);
    }
  }

  /** What was claimed stays claimed truly: a step only adds to the log and to what is stored. */
  lemma StepKeepsOthers(w: World, e: Event)
    requires Inv(w)
    ensures var w' := Apply(w, e);
            && ClaimsTrue(w.row, w'.length, w'.fetched)
            && forall flight :: flight in w.flights ==> FlightSound(w.flights[flight], w'.length, w'.fetched)
  {
    hide NoHole, PageDown, Overrun, LatestPage, OlderPage;
    var w' := Apply(w, e);
    forall flight | flight in w.flights
      ensures FlightSound(w.flights[flight], w'.length, w'.fetched)
    {
      FlightStaysSound(w.flights[flight], w.length, w.fetched, w'.length, w'.fetched);
    }
    FlightStaysSound(Stored(w.row), w.length, w.fetched, w'.length, w'.fetched);
  }

  // ---- Which overruns and which mixed saves do harm ----

  /** The overrun page leaves out this signature and nobody has stored it. */
  ghost predicate LeavesOut(w: World, read: Row, q: nat)
    requires read.newest.Some? ==> read.newest.value < w.length
  {
    var page := LatestPage(w.length, read);
    && q !in w.fetched
    && (read.newest.Some? ==> read.newest.value < q)
    && page != [] && q < page[|page| - 1]
  }

  /** An overrun fetch below whose page, and above the watermark read, lies a signature nobody has stored. */
  ghost predicate OpenOverrun(w: World, e: Event) {
    && OverrunsInFlight(w, e) && WellFormed(w.flights[e.flight].read, w.length)
    && exists q: nat :: LeavesOut(w, w.flights[e.flight].read, q)
  }

  /** Above everything one row claims and below the oldest watermark of the other. */
  ghost predicate Between(q: nat, lower: Row, upper: Row) {
    (lower.newest.Some? ==> lower.newest.value < q) && (upper.oldest.Some? ==> q < upper.oldest.value)
  }

  ghost predicate FallsBetween(w: World, saving: Row, mixed: Row, q: nat) {
    Claims(mixed, q) && q !in w.fetched && (Between(q, w.row, saving) || Between(q, saving, w.row))
  }

  /** A mixed save that gives an ill-formed row, or one that claims a signature from the gap between the two rows. */
  ghost predicate OpenMix(w: World, e: Event) {
    && MixesSaves(w, e)
    && var f := w.flights[e.flight];
       var mixed := Update(w.row, f.seen, f.saving);
       !WellFormed(mixed, w.length) || exists q: nat :: FallsBetween(w, f.saving, mixed, q)
  }

  lemma OverrunSoundIff(w: World, read: Row)
    requires ClaimsTrue(read, w.length, w.fetched) && Overrun(w.length, read)
    ensures var page := LatestPage(w.length, read);
            ClaimsTrue(AfterLatest(read, page), w.length, w.fetched + PageSet(page)) <==>
            !exists q: nat :: LeavesOut(w, read, q)
  {
    var lo := if read.newest.Some? then read.newest.value + 1 else 0;
    PageDownIs(w.length, lo);
    hide PageDown;
    var page := LatestPage(w.length, read);
    var next := AfterLatest(read, page);
    NoHoleIs(read, w.fetched);
    NoHoleIs(next, w.fetched + PageSet(page));
    hide NoHole, Covers;
    forall q: nat | Claims(next, q) && q !in w.fetched + PageSet(page)
      ensures LeavesOut(w, read, q)
    {
      SkippedIsBelowPage(w.length, lo, q);
    }
    forall q: nat | LeavesOut(w, read, q)
      ensures Claims(next, q) && q !in w.fetched + PageSet(page)
    {
      BelowPageIsSkipped(w.length, lo, q);
    }
  }

  lemma SkippedIsBelowPage(hi: nat, lo: nat, q: nat)
    requires lo <= hi && q < hi && q !in PageSet(PageDown(hi, lo)) && PageDown(hi, lo) != []
    ensures q < PageDown(hi, lo)[|PageDown(hi, lo)| - 1]
  {
    PageDownIs(hi, lo);
    hide PageDown;
  }

  lemma BelowPageIsSkipped(hi: nat, lo: nat, q: nat)
    requires lo <= hi && PageDown(hi, lo) != [] && q < PageDown(hi, lo)[|PageDown(hi, lo)| - 1]
    ensures q !in PageSet(PageDown(hi, lo))
  {
  }

  lemma MixSoundIff(w: World, seen: Row, saving: Row)
    requires ClaimsTrue(w.row, w.length, w.fetched) && ClaimsTrue(saving, w.length, w.fetched)
    ensures var mixed := Update(w.row, seen, saving);
            ClaimsTrue(mixed, w.length, w.fetched) <==>
            WellFormed(mixed, w.length) && !exists q: nat :: FallsBetween(w, saving, mixed, q)
  {
    var mixed := Update(w.row, seen, saving);
    NoHoleIs(w.row, w.fetched);
    NoHoleIs(saving, w.fetched);
    NoHoleIs(mixed, w.fetched);
    hide NoHole, Covers;
    forall q: nat | WellFormed(mixed, w.length) && Claims(mixed, q) && q !in w.fetched
      ensures FallsBetween(w, saving, mixed, q)
    {
      assert !Claims(w.row, q) && !Claims(saving, q);
    }
  }

  /** From rows whose claims are true, a step leads to one whose claims are not exactly when it is open. */
  lemma StepKeepsClaimsIff(w: World, e: Event)
    requires Inv(w)
    ensures Inv(Apply(w, e)) <==> !OpenOverrun(w, e) && !OpenMix(w, e)
  {
    if OverrunsInFlight(w, e) {
      OverrunStepIff(w, e);
    } else if MixesSaves(w, e) {
      MixStepIff(w, e);
    } else {
      StepKeepsClaims(w, e);
    }
  }

  lemma OverrunStepIff(w: World, e: Event)
    requires Inv(w) && OverrunsInFlight(w, e)
    ensures Inv(Apply(w, e)) <==> !OpenOverrun(w, e)
    ensures !OpenMix(w, e)
  {
    hide NoHole, PageDown, LeavesOut;
    var read := w.flights[e.flight].read;
    assert FlightSound(w.flights[e.flight], w.length, w.fetched);
    OverrunSoundIff(w, read);
    OverrunPageNotEmpty(w.length, read);
    var page := LatestPage(w.length, read);
    var w' := Apply(w, e);
    assert w' == w.(flights := w.flights[e.flight := Fetched(page, AfterLatest(read, page))]);
    hide LatestPage, AfterLatest, WellFormed, Overrun;
    assert FlightSound(w'.flights[e.flight], w.length, w.fetched) <==> !exists q: nat :: LeavesOut(w, read, q);
  }

  lemma OverrunPageNotEmpty(n: nat, row: Row)
    requires WellFormed(row, n) && Overrun(n, row)
    ensures LatestPage(n, row) != []
  {
  }

  lemma MixStepIff(w: World, e: Event)
    requires Inv(w) && MixesSaves(w, e)
    ensures Inv(Apply(w, e)) <==> !OpenMix(w, e)
    ensures !OpenOverrun(w, e)
  {
    hide NoHole, WellFormed, FallsBetween, Update;
    assert FlightSound(w.flights[e.flight], w.length, w.fetched);
    MixSoundIff(w, w.flights[e.flight].seen, w.flights[e.flight].saving);
  }

  // ---- Over whole runs ----

  ghost predicate Throughout(es: seq<Event>) {
    forall n :: 0 <= n <= |es| ==> Inv(Run(es[..n]))
  }

  ghost predicate NeverOpen(es: seq<Event>) {
    forall n :: 0 <= n < |es| ==> !OpenOverrun(Run(es[..n]), es[n]) && !OpenMix(Run(es[..n]), es[n])
  }

  lemma ThroughoutSplits(es: seq<Event>)
    requires es != []
    ensures var k := |es| - 1; var init := es[..k];
            && (Throughout(es) <==> Throughout(init) && Inv(Run(es)))
            && (Throughout(init) ==> Inv(Run(init)))
            && (NeverOpen(es) <==> NeverOpen(init) && !OpenOverrun(Run(init), es[k]) && !OpenMix(Run(init), es[k]))
  {
    hide Run, Inv, OpenOverrun, OpenMix;
    var k := |es| - 1;
    var init := es[..k];
    assert forall n :: 0 <= n <= k ==> init[..n] == es[..n];
    assert es[..|es|] == es && init[..k] == init;
  }

  /**
   * However the syncs interleave, every row stored or about to be stored claims only what was
   * fetched, at every moment of a run, if and only if no overrun fetch leaves out a signature nobody
   * has stored and no mixed save gives an ill-formed row or claims from the gap between two rows.
   */
  lemma {:induction false} ClaimsThroughoutIff(es: seq<Event>)
    ensures Throughout(es) <==> NeverOpen(es)
  {
    if es == [] {
      assert Run(es) == World(0, FRESH_ROW, {}, map[]);
      assert es[..0] == es;
    } else {
      hide Apply, Inv, OpenOverrun, OpenMix, Throughout, NeverOpen;
      ClaimsThroughoutIff(es[..|es| - 1]);
      ThroughoutSplits(es);
      if Throughout(es[..|es| - 1]) {
        StepKeepsClaimsIff(Run(es[..|es| - 1]), es[|es| - 1]);
      }
    }
  }

  ghost predicate NoneOverruns(es: seq<Event>) {
    forall i :: 0 <= i < |es| ==> !OverrunsInFlight(Run(es[..i]), es[i])
  }

  ghost predicate NoneMixes(es: seq<Event>) {
    forall i :: 0 <= i < |es| ==> !MixesSaves(Run(es[..i]), es[i])
  }

  /** So the saved row hides no hole when no latest fetch is overrun and no save lands inside another. */
  lemma RacingSyncsLeaveNoHole(es: seq<Event>)
    requires NoneOverruns(es) && NoneMixes(es)
    ensures Inv(Run(es)) && NoHole(Run(es).row, Run(es).fetched)
  {
    ClaimsThroughoutIff(es);
    hide Run, OverrunsInFlight, MixesSaves;
    assert es[..|es|] == es;
  }

  // ---- Two saves mixed ----

  lemma Extend(es: seq<Event>, e: Event)
    requires NoneOverruns(es) && !OverrunsInFlight(Run(es), e)
    ensures NoneOverruns(es + [e]) && Run(es + [e]) == Apply(Run(es), e)
  {
    hide OverrunsInFlight, Apply;
    var longer := es + [e];
    assert longer[..|es|] == es;
    forall i | 0 <= i < |longer| ensures !OverrunsInFlight(Run(longer[..i]), longer[i]) {
      if i < |es| { assert longer[..i] == es[..i]; }
    }
  }

  /** The page and the new row a flight gets from its fetch. */
  ghost predicate Fetches(f: Flight, length: nat, page: seq<nat>, next: Row) {
    && f.Began? && WellFormed(f.read, length)
    && (f.sync == Latest ==>
          !Overrun(length, f.read) && page == LatestPage(length, f.read) != [] && next == AfterLatest(f.read, page))
    && (f.sync == Older ==> page == OlderPage(length, f.read) && next == AfterOlder(f.read, page))
  }

  /** One flight from its fetch to its selected row. */
  lemma FlyToSelect(es: seq<Event>, flight: nat, page: seq<nat>, next: Row) returns (longer: seq<Event>)
    requires NoneOverruns(es) && flight in Run(es).flights
    requires Fetches(Run(es).flights[flight], Run(es).length, page, next)
    ensures NoneOverruns(longer)
    ensures var w := Run(es);
            Run(longer) == World(w.length, w.row, w.fetched + PageSet(page), w.flights[flight := Selected(next, w.row)])
  {
    hide Run, NoneOverruns, PageDown, LatestPage, OlderPage, AfterLatest, AfterOlder, Overrun;
    Extend(es, FetchPage(flight));
    Extend(es + [FetchPage(flight)], StoreRecords(flight));
    Extend(es + [FetchPage(flight)] + [StoreRecords(flight)], SelectRow(flight));
    longer := es + [FetchPage(flight)] + [StoreRecords(flight)] + [SelectRow(flight)];
  }

  lemma PageEnds(hi: nat)
    requires hi > 0
    ensures var page := PageDown(hi, 0);
            && page != [] && page[0] == hi - 1
            && |page| == (if hi <= SIGNATURE_BACKFILL_BATCH_SIZE then hi else SIGNATURE_BACKFILL_BATCH_SIZE)
            && page[|page| - 1] == hi - |page|
  {
  }

  lemma ExtendUpdate(es: seq<Event>, flight: nat)
    requires NoneOverruns(es) && flight in Run(es).flights && Run(es).flights[flight].Selected?
    ensures NoneOverruns(es + [UpdateRow(flight)])
    ensures var w, f := Run(es), Run(es).flights[flight];
            Run(es + [UpdateRow(flight)]) == World(w.length, Update(w.row, f.seen, f.saving), w.fetched, w.flights - {flight})
  {
    hide Run, NoneOverruns, Update;
    Extend(es, UpdateRow(flight));
  }

  lemma ExtendBegin(es: seq<Event>, gained: nat, flight: nat, sync: Sync)
    requires NoneOverruns(es) && flight !in Run(es).flights && !Run(es).row.reached
    ensures NoneOverruns(es + [Begin(flight, sync)]) && NoneOverruns(es + [LogGrows(gained)])
    ensures var w := Run(es);
            && Run(es + [Begin(flight, sync)]) == w.(flights := w.flights[flight := Began(sync, w.row)])
            && Run(es + [LogGrows(gained)]) == w.(length := w.length + gained)
  {
    hide Run, NoneOverruns;
    Extend(es, Begin(flight, sync));
    Extend(es, LogGrows(gained));
  }

  /** A save nobody disturbs writes the whole row. */
  lemma UpdateAlone(row: Row, saving: Row)
    ensures Update(row, row, saving) == saving
  {
  }

  lemma NothingOverrun()
    ensures NoneOverruns([])
  {
  }

  lemma FreshFetch(n: nat)
    requires n > SIGNATURE_BACKFILL_BATCH_SIZE
    ensures Fetches(Began(Latest, FRESH_ROW), n, PageDown(n, 0),
                    Row(Some(n - 1), Some(n - SIGNATURE_BACKFILL_BATCH_SIZE), false))
  {
    PageEnds(n);
    hide PageDown;
  }

  lemma LastFetch(n: nat, row: Row)
    requires WellFormed(row, n) && row.oldest.Some? && 0 < row.oldest.value <= SIGNATURE_BACKFILL_BATCH_SIZE
    ensures Fetches(Began(Older, row), n, PageDown(row.oldest.value, 0), Row(row.newest, Some(0), false))
  {
    PageEnds(row.oldest.value);
    hide PageDown;
  }

  lemma TwoBegin() returns (es: seq<Event>)
    ensures NoneOverruns(es)
    ensures Run(es) == World(60, FRESH_ROW, {}, map[1 := Began(Latest, FRESH_ROW), 2 := Began(Latest, FRESH_ROW)])
  {
    assert Run([]) == World(0, FRESH_ROW, {}, map[]);
    hide Run, NoneOverruns;
    NothingOverrun();
    Extend([], LogGrows(60));
    Extend([] + [LogGrows(60)], Begin(1, Latest));
    Extend([] + [LogGrows(60)] + [Begin(1, Latest)], Begin(2, Latest));
    es := [] + [LogGrows(60)] + [Begin(1, Latest)] + [Begin(2, Latest)];
  }

  /** The second first sync ends on rows 10 to 59, and an older sync below it begins. */
  lemma OneEnds() returns (es: seq<Event>)
    ensures NoneOverruns(es)
    ensures Run(es) == World(60, Row(Some(59), Some(10), false), PageSet(PageDown(60, 0)),
                             map[1 := Began(Latest, FRESH_ROW), 3 := Began(Older, Row(Some(59), Some(10), false))])
  {
    FreshFetch(60);
    hide *;
    var es2 := TwoBegin();
    var es3 := FlyToSelect(es2, 2, PageDown(60, 0), Row(Some(59), Some(10), false));
    assert {} + PageSet(PageDown(60, 0)) == PageSet(PageDown(60, 0));
    ExtendUpdate(es3, 2);
    UpdateAlone(FRESH_ROW, Row(Some(59), Some(10), false));
    assert Run(es3 + [UpdateRow(2)]).flights == map[1 := Began(Latest, FRESH_ROW)];
    ExtendBegin(es3 + [UpdateRow(2)], 0, 3, Older);
    es := es3 + [UpdateRow(2)] + [Begin(3, Older)];
  }

  /** The older sync has selected the row and not yet updated it. */
  lemma OlderAboutToSave() returns (es: seq<Event>)
    ensures NoneOverruns(es)
    ensures Run(es) == World(60, Row(Some(59), Some(10), false), PageSet(PageDown(60, 0)) + PageSet(PageDown(10, 0)),
                             map[1 := Began(Latest, FRESH_ROW),
                                 3 := Selected(Row(Some(59), Some(0), false), Row(Some(59), Some(10), false))])
  {
    LastFetch(60, Row(Some(59), Some(10), false));
    hide *;
    var es1 := OneEnds();
    es := FlyToSelect(es1, 3, PageDown(10, 0), Row(Some(59), Some(0), false));
  }

  /** The first sync, in flight all along, fetches after 140 more signatures. */
  lemma LateSyncSelects() returns (es: seq<Event>)
    ensures NoneOverruns(es)
    ensures Run(es) == World(200, Row(Some(59), Some(10), false),
                             PageSet(PageDown(60, 0)) + PageSet(PageDown(10, 0)) + PageSet(PageDown(200, 0)),
                             map[1 := Selected(Row(Some(199), Some(150), false), Row(Some(59), Some(10), false)),
                                 3 := Selected(Row(Some(59), Some(0), false), Row(Some(59), Some(10), false))])
  {
    FreshFetch(200);
    hide *;
    var es1 := OlderAboutToSave();
    ExtendBegin(es1, 140, 2, Latest);
    es := FlyToSelect(es1 + [LogGrows(140)], 1, PageDown(200, 0), Row(Some(199), Some(150), false));
  }

  lemma LateSyncSaves() returns (es: seq<Event>)
    ensures NoneOverruns(es)
    ensures Run(es) == World(200, Row(Some(199), Some(150), false),
                             PageSet(PageDown(60, 0)) + PageSet(PageDown(10, 0)) + PageSet(PageDown(200, 0)),
                             map[3 := Selected(Row(Some(59), Some(0), false), Row(Some(59), Some(10), false))])
  {
    hide Run, Apply, PageDown, NoneOverruns, PageSet;
    var es1 := LateSyncSelects();
    ExtendUpdate(es1, 1);
    es := es1 + [UpdateRow(1)];
  }

  /** The older sync then updates the one column it means to change, and the row claims what nobody fetched. */
  lemma MixedSavesHideHole() returns (es: seq<Event>)
    ensures NoneOverruns(es)
    ensures Run(es).row == Row(Some(199), Some(0), false) && 100 !in Run(es).fetched && !NoHole(Run(es).row, Run(es).fetched)
  {
    PageDownIs(60, 0);
    PageDownIs(10, 0);
    PageDownIs(200, 0);
    PageEnds(200);
    hide Run, Apply, PageDown, NoneOverruns, PageSet;
    var es1 := LateSyncSaves();
    ExtendUpdate(es1, 3);
    es := es1 + [UpdateRow(3)];
    assert 100 !in Run(es).fetched;
  }

  // ---- One request alone ----

  ghost function Steps(w: World, flight: nat, sync: Sync): World {
    Apply(Apply(Apply(Apply(Apply(w, Begin(flight, sync)), FetchPage(flight)), StoreRecords(flight)), SelectRow(flight)),
          UpdateRow(flight))
  }

  /** A request that nothing interrupts does the sync of the service. */
  lemma SyncAlone(w: World, flight: nat, sync: Sync)
    requires flight !in w.flights && WellFormed(w.row, w.length)
    ensures var s := State(w.length, w.row, w.fetched);
            var s' := if sync == Latest then RunLatest(s) else RunOlder(s);
            Steps(w, flight, sync) == World(w.length, s'.row, s'.fetched, w.flights)
  {
    hide PageDown, AfterLatest, AfterOlder, Update;
    var w1 := Apply(w, Begin(flight, sync));
    if sync == Older && w.row.reached {
      assert w1 == w;
    } else {
      assert w1 == w.(flights := w.flights[flight := Began(sync, w.row)]);
      var page := if sync == Latest then LatestPage(w.length, w.row) else OlderPage(w.length, w.row);
      var next := if sync == Latest then AfterLatest(w.row, page) else AfterOlder(w.row, page);
      hide LatestPage, OlderPage;
      var w2 := Apply(w1, FetchPage(flight));
      if sync == Latest && page == [] {
        assert w2 == w.(flights := w1.flights - {flight});
        assert w1.flights - {flight} == w.flights;
        NothingFetched(w);
      } else {
        assert w2 == w.(flights := w1.flights[flight := Fetched(page, next)]);
        var w3 := Apply(w2, StoreRecords(flight));
        var w4 := Apply(w3, SelectRow(flight));
        assert w4 == World(w.length, w.row, w.fetched + PageSet(page), w1.flights[flight := Selected(next, w.row)]);
        UpdateAlone(w.row, next);
        assert w1.flights[flight := Selected(next, w.row)] - {flight} == w.flights;
      }
    }
  }

  lemma NothingFetched(w: World)
    requires WellFormed(w.row, w.length) && LatestPage(w.length, w.row) == []
    ensures RunLatest(State(w.length, w.row, w.fetched)) == State(w.length, w.row, w.fetched)
  {
    assert (set p | p in LatestPage(w.length, w.row)) == {};
  }
}
