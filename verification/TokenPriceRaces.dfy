/**
 * Readers and writers of one price key, interleaved at the grain of single Redis commands. A reader
 * takes the hash and its time to live in two commands, falls back to the database, and rehydrates.
 * A reader that meets a value of another type learns so from one command and deletes the key with
 * the next.
 */
module TokenPriceRaces {
  import opened Wrappers
  import opened TokenPrice

  // ---- Readers ----

  /** The hash a reader was given, and how often the key had been stored by then. */
  datatype HashRead = NotSent | WrongType | Got(hash: Option<Hash>, stores: nat)

  /** The time to live a reader was told, when, and how often the key had been stored by then. */
  datatype TtlRead = NotAsked | Told(ttl: int, at: int, stores: nat)

  /** Served remembers the two answers behind a price that came from Redis. */
  datatype Reader =
    | Reading(hash: HashRead, ttl: TtlRead)
    | Rehydrating(dbPrice: real)
    | Served(price: real, answers: Option<(HashRead, TtlRead)>)

  /**
   * The key and its readers, and for the record: the writes that arrived since the key was created
   * or last expired, how often it expired, whether a rehydrate was the last to touch it, how often
   * it was stored, and every dollar price stored.
   */
  datatype World = World(
    key: Key, now: int, readers: map<nat, Reader>,
    arrivals: seq<Arrival>, expiries: nat, rehydrated: bool, stores: nat, stored: set<real>)

  datatype Event =
    | Tick(seconds: nat)
    | Write(arrival: Arrival)
    | StartRead(reader: nat)
    | ReadHash(reader: nat)
    | DropForeign(reader: nat)
    | ReadTtl(reader: nat)
    | Decide(reader: nat, dbPrice: real)
    | RunRehydrate(reader: nat)

  // ---- Steps ----

  function AfterTick(w: World, seconds: nat): World {
    var now := w.now + seconds;
    if At(w.key, now) == w.key then w.(now := now)
    else w.(now := now, key := Absent, arrivals := [], expiries := w.expiries + 1, rehydrated := false)
  }

  function Store(w: World, key: Key, priceUsd: real): World {
    w.(key := key, stores := w.stores + 1, stored := w.stored + {priceUsd})
  }

  function AfterWrite(w: World, a: Arrival): World {
    if !IsValidWritePrice(a.priceUsd) || !IsValidWritePrice(a.priceNative) then w else
      var (key, accepted) := Upsert(w.key, w.now, a);
      var w1 := w.(arrivals := w.arrivals + [a]);
      if accepted then Store(w1, key, a.priceUsd).(rehydrated := false) else w1.(key := key)
  }

  function AfterRehydrate(w: World, reader: nat, dbPrice: real): World {
    var (key, ran) := Rehydrate(w.key, w.now, dbPrice);
    var w1 := w.(readers := w.readers[reader := Served(dbPrice, None)]);
    if ran then Store(w1, key, dbPrice).(rehydrated := true) else w1.(key := key)
  }

  function AfterReadHash(w: World, reader: nat): World
    requires reader in w.readers && w.readers[reader].Reading?
  {
    var read := if w.key.Foreign? then WrongType else Got(HashOf(w.key, w.now), w.stores);
    w.(readers := w.readers[reader := w.readers[reader].(hash := read)])
  }

  function AfterDecide(w: World, reader: nat, dbPrice: real): World
    requires reader in w.readers && w.readers[reader].Reading?
    requires w.readers[reader].hash.Got? && w.readers[reader].ttl.Told?
  {
    var r := w.readers[reader];
    var price := FreshPrice(r.hash.hash, r.ttl.ttl);
    var next := if price.Some? then Served(price.value, Some((r.hash, r.ttl)))
                else if IsValidWritePrice(dbPrice) then Rehydrating(dbPrice)
                else Served(0.0, None);
    w.(readers := w.readers[reader := next])
  }

  predicate IsReading(w: World, reader: nat) {
    reader in w.readers && w.readers[reader].Reading?
  }

  predicate MetForeign(w: World, reader: nat) {
    IsReading(w, reader) && w.readers[reader].hash == WrongType
  }

  function Apply(w: World, e: Event): World {
    match e
    case Tick(seconds) => AfterTick(w, seconds)
    case Write(a) => AfterWrite(w, a)
    case StartRead(r) => if r in w.readers then w else w.(readers := w.readers[r := Reading(NotSent, NotAsked)])
    case ReadHash(r) =>
      if IsReading(w, r) && w.readers[r].hash.NotSent? then AfterReadHash(w, r) else w
    case DropForeign(r) =>
      if !MetForeign(w, r) then w
      else w.(key := Absent, readers := w.readers[r := w.readers[r].(hash := Got(None, w.stores))])
    case ReadTtl(r) =>
      if !IsReading(w, r) || !w.readers[r].ttl.NotAsked? then w
      else w.(readers := w.readers[r := w.readers[r].(ttl := Told(Ttl(w.key, w.now), w.now, w.stores))])
    case Decide(r, dbPrice) =>
      if IsReading(w, r) && w.readers[r].hash.Got? && w.readers[r].ttl.Told? then AfterDecide(w, r, dbPrice) else w
    case RunRehydrate(r) =>
      if r in w.readers && w.readers[r].Rehydrating? then AfterRehydrate(w, r, w.readers[r].dbPrice) else w
  }

  function Run(start: Key, now: int, es: seq<Event>): World {
    if es == [] then World(start, now, map[], [], 0, false, 0, {})
    else Apply(Run(start, now, es[..|es| - 1]), es[|es| - 1])
  }

  lemma RunSnoc(start: Key, now: int, es: seq<Event>, e: Event)
    ensures Run(start, now, es + [e]) == Apply(Run(start, now, es), e)
  {
    assert (es + [e])[..|es|] == es;
  }

  // ---- What readers hold and serve ----

  /** A live entry holds a stored, positive price and expires one lifetime after it was stored, at the latest from now. */
  ghost predicate KeyStored(w: World) {
    w.key.Live? ==>
      && w.key.hash.expiresAt.Some? && w.now < w.key.hash.expiresAt.value <= w.now + PRICE_TTL_S
      && w.key.hash.priceUsd.Some? && w.key.hash.priceUsd.value > 0.0 && w.key.hash.priceUsd.value in w.stored
  }

  /** A hash that was read held a stored price, and is still the entry's unless something was stored since. */
  ghost predicate HashSound(w: World, read: HashRead) {
    read.Got? ==>
      && read.stores <= w.stores
      && (read.hash.Some? ==>
            && read.hash.value.expiresAt.Some?
            && read.hash.value.priceUsd.Some? && read.hash.value.priceUsd.value > 0.0
            && read.hash.value.priceUsd.value in w.stored
            && (read.stores == w.stores && w.key.Live? ==> w.key.hash.expiresAt == read.hash.value.expiresAt))
  }

  /** A time to live that was told is the entry's, or the entry was stored later. */
  ghost predicate TtlSound(w: World, told: TtlRead) {
    told.Told? ==>
      && told.stores <= w.stores && told.at <= w.now
      && (w.key.Live? && w.key.hash.expiresAt.Some? ==>
            if told.stores == w.stores then told.at + told.ttl == w.key.hash.expiresAt.value
            else told.at + PRICE_TTL_S <= w.key.hash.expiresAt.value)
  }

  /** How the two answers of one reader fit together. */
  ghost predicate AnswersFit(read: HashRead, told: TtlRead) {
    read.Got? && read.hash.Some? && read.hash.value.expiresAt.Some? && told.Told? ==>
      && (read.stores == told.stores && told.ttl >= 0 ==> told.at + told.ttl == read.hash.value.expiresAt.value)
      && (read.stores > told.stores ==> told.at + PRICE_TTL_S <= read.hash.value.expiresAt.value)
  }

  ghost predicate ReaderSound(w: World, r: Reader) {
    match r
    case Reading(read, told) => HashSound(w, read) && TtlSound(w, told) && AnswersFit(read, told)
    case Rehydrating(dbPrice) => dbPrice > 0.0
    case Served(price, Some((read, told))) =>
      && read.Got? && told.Told? && AnswersFit(read, told)
      && read.hash.Some? && read.hash.value.expiresAt.Some? && read.hash.value.priceUsd == Some(price)
      && price > 0.0 && price in w.stored && told.ttl >= FRESH_MIN_TTL_S
    case Served(_, None) => true
  }

  ghost predicate Sound(w: World) {
    KeyStored(w) && forall r :: r in w.readers ==> ReaderSound(w, w.readers[r])
  }

  /** Nothing a step does to the key or the clock makes a reader's answers untrue. */
  lemma StepKeepsReader(w: World, e: Event, r: Reader)
    requires KeyStored(w) && ReaderSound(w, r)
    ensures ReaderSound(Apply(w, e), r)
  {
    if e.RunRehydrate? && e.reader in w.readers && w.readers[e.reader].Rehydrating? {
      RehydrateKeepsReader(w, e.reader, w.readers[e.reader].dbPrice, r);
    }
  }

  lemma RehydrateKeepsReader(w: World, reader: nat, dbPrice: real, r: Reader)
    requires KeyStored(w) && ReaderSound(w, r)
    ensures ReaderSound(AfterRehydrate(w, reader, dbPrice), r)
  {
  }

  lemma ReadsAreSound(w: World, r: nat)
    requires Sound(w) && IsReading(w, r)
    ensures w.readers[r].hash.NotSent? ==> ReaderSound(w, AfterReadHash(w, r).readers[r])
    ensures w.readers[r].ttl.NotAsked? ==> ReaderSound(w, w.readers[r].(ttl := Told(Ttl(w.key, w.now), w.now, w.stores)))
  {
    assert ReaderSound(w, w.readers[r]);
  }

  lemma DecisionIsSound(w: World, r: nat, dbPrice: real)
    requires Sound(w) && IsReading(w, r) && w.readers[r].hash.Got? && w.readers[r].ttl.Told?
    ensures ReaderSound(w, AfterDecide(w, r, dbPrice).readers[r])
  {
    assert ReaderSound(w, w.readers[r]);
  }

  lemma DropIsSound(w: World, r: nat)
    requires Sound(w) && MetForeign(w, r)
    ensures ReaderSound(Apply(w, DropForeign(r)), Apply(w, DropForeign(r)).readers[r])
  {
    assert ReaderSound(w, w.readers[r]);
  }

  /** Where a reader ends up after a step: sound by the world before it, or by the one it makes. */
  lemma StepMovesReader(w: World, e: Event, r: nat)
    requires Sound(w) && r in Apply(w, e).readers
    ensures ReaderSound(w, Apply(w, e).readers[r]) || ReaderSound(Apply(w, e), Apply(w, e).readers[r])
  {
    if r in w.readers { assert ReaderSound(w, w.readers[r]); }
    hide HashSound, TtlSound, AnswersFit, Upsert, Rehydrate, Ttl, At;
    match e
    case ReadHash(reader) => if IsReading(w, reader) { ReadsAreSound(w, reader); }
    case ReadTtl(reader) => if IsReading(w, reader) { ReadsAreSound(w, reader); }
    case Decide(reader, dbPrice) =>
      if IsReading(w, reader) && w.readers[reader].hash.Got? && w.readers[reader].ttl.Told? {
        DecisionIsSound(w, reader, dbPrice);
      }
    case DropForeign(reader) => if MetForeign(w, reader) { DropIsSound(w, reader); }
    case StartRead(reader) => NewReaderSound(w);
    case _ =>
  }

  lemma NewReaderSound(w: World)
    ensures ReaderSound(w, Reading(NotSent, NotAsked))
  {
  }

  lemma StepKeepsKeyStored(w: World, e: Event)
    requires Sound(w)
    ensures KeyStored(Apply(w, e))
  {
    if e.RunRehydrate? && e.reader in w.readers { assert ReaderSound(w, w.readers[e.reader]); }
  }

  lemma StepKeepsSound(w: World, e: Event)
    requires Sound(w)
    ensures Sound(Apply(w, e))
  {
    hide Apply, ReaderSound, KeyStored;
    StepKeepsKeyStored(w, e);
    forall r | r in Apply(w, e).readers ensures ReaderSound(Apply(w, e), Apply(w, e).readers[r]) {
      StepMovesReader(w, e, r);
      if ReaderSound(w, Apply(w, e).readers[r]) { StepKeepsReader(w, e, Apply(w, e).readers[r]); }
    }
  }

  lemma {:induction false} RunIsSound(start: Key, now: int, es: seq<Event>)
    requires !start.Live?
    ensures Sound(Run(start, now, es))
  {
    if es == [] {
      assert Run(start, now, es) == World(start, now, map[], [], 0, false, 0, {});
    } else {
      hide Apply, Sound;
      RunIsSound(start, now, es[..|es| - 1]);
      StepKeepsSound(Run(start, now, es[..|es| - 1]), es[|es| - 1]);
    }
  }

  /** The second an entry was stored at. */
  function StoredAt(h: Hash): int
    requires h.expiresAt.Some?
  {
    h.expiresAt.value - PRICE_TTL_S
  }

  /**
   * A price served from Redis had been stored within the threshold when the time to live was read,
   * unless something was stored after the hash was read and before the time to live was.
   */
  lemma ServedIsFresh(start: Key, now: int, es: seq<Event>, r: nat)
    requires !start.Live? && r in Run(start, now, es).readers
    requires Run(start, now, es).readers[r].Served? && Run(start, now, es).readers[r].answers.Some?
    ensures var w := Run(start, now, es); var (read, told) := w.readers[r].answers.value;
            && read.Got? && told.Told? && read.hash.Some? && read.hash.value.expiresAt.Some?
            && read.hash.value.priceUsd == Some(w.readers[r].price) && w.readers[r].price in w.stored
            && (read.stores >= told.stores ==> told.at - StoredAt(read.hash.value) <= STALE_THRESHOLD_S)
  {
    hide Run;
    RunIsSound(start, now, es);
  }

  /**
   * A reader left with a hash that is stale by the time it asks for the time to live serves it if
   * and only if the key was stored since, and that later entry is itself fresh.
   */
  lemma StaleServedIff(start: Key, now: int, es: seq<Event>, r: nat, dbPrice: real)
    requires !start.Live? && IsReading(Run(start, now, es), r)
    requires var reader := Run(start, now, es).readers[r];
             reader.hash.Got? && reader.hash.hash.Some? && reader.ttl.NotAsked?
    requires var h := Run(start, now, es).readers[r].hash.hash.value;
             h.expiresAt.Some? && Run(start, now, es).now - StoredAt(h) > STALE_THRESHOLD_S
    ensures var w := Run(start, now, es);
            var reader' := Apply(Apply(w, ReadTtl(r)), Decide(r, dbPrice)).readers[r];
            && (reader'.Served? && reader'.answers.Some?
                <==> w.readers[r].hash.stores < w.stores && Seen(w.key, w.now).Some?)
            && (reader'.Served? && reader'.answers.Some? ==> Some(reader'.price) == w.readers[r].hash.hash.value.priceUsd)
  {
    hide Run;
    RunIsSound(start, now, es);
    assert ReaderSound(Run(start, now, es), Run(start, now, es).readers[r]);
  }

  lemma RunSeven(start: Key, e1: Event, e2: Event, e3: Event, e4: Event, e5: Event, e6: Event, e7: Event)
    ensures Run(start, 0, [e1] + [e2] + [e3] + [e4] + [e5] + [e6] + [e7]) ==
            Apply(Apply(Apply(Apply(Apply(Apply(Apply(World(start, 0, map[], [], 0, false, 0, {}), e1), e2), e3), e4), e5), e6), e7)
  {
    assert Run(start, 0, []) == World(start, 0, map[], [], 0, false, 0, {});
    hide Run, Apply;
    RunSnoc(start, 0, [], e1);
    assert [] + [e1] == [e1];
    RunSnoc(start, 0, [e1], e2);
    RunSnoc(start, 0, [e1] + [e2], e3);
    RunSnoc(start, 0, [e1] + [e2] + [e3], e4);
    RunSnoc(start, 0, [e1] + [e2] + [e3] + [e4], e5);
    RunSnoc(start, 0, [e1] + [e2] + [e3] + [e4] + [e5], e6);
    RunSnoc(start, 0, [e1] + [e2] + [e3] + [e4] + [e5] + [e6], e7);
  }

  lemma HashReadLate(a: Arrival, h: Hash)
    requires a.priceUsd > 0.0 && a.priceNative > 0.0
    requires h == Hash(Some(a.priceUsd), Some(a.priceNative), Slot(a.slot), a.source, Some(PRICE_TTL_S))
    ensures Apply(Apply(Apply(Apply(World(Absent, 0, map[], [], 0, false, 0, {}), Write(a)), Tick(1000)), StartRead(1)), ReadHash(1)) ==
            World(Live(h), 1000, map[1 := Reading(Got(Some(h), 1), NotAsked)], [a], 0, false, 1, {a.priceUsd})
  {
    var w1 := Apply(World(Absent, 0, map[], [], 0, false, 0, {}), Write(a));
    assert w1 == World(Live(h), 0, map[], [a], 0, false, 1, {a.priceUsd});
    var w2 := Apply(w1, Tick(1000));
    assert w2 == w1.(now := 1000);
    var w3 := Apply(w2, StartRead(1));
    assert w3 == w2.(readers := map[1 := Reading(NotSent, NotAsked)]);
  }

  lemma TtlReadOvertaken(w: World, b: Arrival, h: Hash)
    requires w.readers == map[1 := Reading(Got(Some(h), 1), NotAsked)] && w.key == Live(h)
    requires h.priceUsd.Some? && h.priceUsd.value > 0.0 && h.expiresAt.Some? && h.expiresAt.value > w.now
    requires h.slot.Slot? && h.slot.n < b.slot && b.priceUsd > 0.0 && b.priceNative > 0.0
    ensures var w' := Apply(Apply(Apply(w, Write(b)), ReadTtl(1)), Decide(1, 0.0));
            1 in w'.readers && w'.now == w.now
            && w'.readers[1].Served? && w'.readers[1].answers.Some? && w'.readers[1].price == h.priceUsd.value
  {
    hide AfterReadHash;
    var w1 := Apply(w, Write(b));
    assert w1.key.Live? && w1.key.hash.expiresAt == Some(w.now + PRICE_TTL_S) && w1.readers == w.readers && w1.now == w.now;
    var w2 := Apply(w1, ReadTtl(1));
    assert w2.readers == map[1 := Reading(Got(Some(h), 1), Told(PRICE_TTL_S, w.now, w1.stores))] && w2.now == w.now;
  }

  /** So a price a thousand seconds old can be served, lent the lifetime of a price stored in between. */
  lemma OldPriceServed(native: real) returns (es: seq<Event>)
    requires native > 0.0
    ensures var w := Run(Absent, 0, es);
            1 in w.readers && w.readers[1].Served? && w.readers[1].answers.Some? && w.readers[1].price == 10.0 && w.now == 1000
  {
    var a, b := Arrival(1, 10.0, native, "swap"), Arrival(2, 20.0, native, "swap");
    var e1, e2, e3, e4, e5, e6, e7 := Write(a), Tick(1000), StartRead(1), ReadHash(1), Write(b), ReadTtl(1), Decide(1, 0.0);
    es := [e1] + [e2] + [e3] + [e4] + [e5] + [e6] + [e7];
    RunSeven(Absent, e1, e2, e3, e4, e5, e6, e7);
    var h := Hash(Some(10.0), Some(native), Slot(1), "swap", Some(PRICE_TTL_S));
    HashReadLate(a, h);
    hide Run, Apply;
    TtlReadOvertaken(World(Live(h), 1000, map[1 := Reading(Got(Some(h), 1), NotAsked)], [a], 0, false, 1, {10.0}), b, h);
  }

  // ---- The register ----

  /** The entry is the register's value; a rehydrate may have replaced its dollar price and source, never more. */
  ghost predicate EntryIsRegister(w: World) {
    match w.key
    case Live(h) =>
      && (w.rehydrated ==> h.source == REFERENCE_SYNC)
      && (if w.arrivals == [] then w.rehydrated && h.slot == Slot(0) && h.priceNative == Some(0.0)
          else && h.slot == Slot(Best(w.arrivals).slot) && h.priceNative == Some(Best(w.arrivals).priceNative)
               && (!w.rehydrated ==> HoldsBest(h, w.arrivals)))
    case _ => w.arrivals == [] && !w.rehydrated
  }

  /** A reader that met a value of another type deletes the key after somebody stored a price in it. */
  ghost predicate DropsLive(w: World, e: Event) {
    e.DropForeign? && MetForeign(w, e.reader) && w.key.Live?
  }

  lemma BestOfMore(arrivals: seq<Arrival>, a: Arrival)
    ensures Best(arrivals + [a]) == if arrivals == [] || a.slot >= Best(arrivals).slot then a else Best(arrivals)
  {
    assert (arrivals + [a])[..|arrivals|] == arrivals;
  }

  lemma WriteKeepsRegister(w: World, a: Arrival)
    requires EntryIsRegister(w) && KeyStored(w)
    ensures EntryIsRegister(AfterWrite(w, a))
  {
    BestOfMore(w.arrivals, a);
    hide Best;
  }

  lemma StepRegisterIff(w: World, e: Event)
    requires EntryIsRegister(w) && Sound(w)
    ensures EntryIsRegister(Apply(w, e)) <==> !DropsLive(w, e)
  {
    match e
    case Write(a) => WriteKeepsRegister(w, a);
    case RunRehydrate(r) =>
      if r in w.readers { assert ReaderSound(w, w.readers[r]); }
    case _ =>
  }

  ghost predicate NeverDropsLive(start: Key, now: int, es: seq<Event>) {
    forall n :: 0 <= n < |es| ==> !DropsLive(Run(start, now, es[..n]), es[n])
  }

  ghost predicate RegisterThroughout(start: Key, now: int, es: seq<Event>) {
    forall n :: 0 <= n <= |es| ==> EntryIsRegister(Run(start, now, es[..n]))
  }

  /** The slot the entry shows, below every slot when there is no entry. */
  function SlotOf(w: World): int {
    if w.key.Live? && w.key.hash.slot.Slot? then w.key.hash.slot.n else -1
  }

  /** Between any two moments without an expiry the slot does not go back. */
  ghost predicate SlotsNeverGoBack(start: Key, now: int, es: seq<Event>) {
    forall m, n :: 0 <= m <= n <= |es| ==> SlotKept(Run(start, now, es[..m]), Run(start, now, es[..n]))
  }

  ghost predicate SlotKept(w: World, w': World) {
    w.expiries <= w'.expiries && (w.expiries == w'.expiries ==> SlotOf(w) <= SlotOf(w'))
  }

  lemma StepSlotIff(w: World, e: Event)
    requires EntryIsRegister(w) && Sound(w)
    ensures SlotKept(w, Apply(w, e)) <==> !DropsLive(w, e)
    ensures e.Write? && e.arrival.slot < SlotOf(w) ==> Apply(w, e).key == w.key
  {
    hide Best, HoldsBest;
    if e.RunRehydrate? && e.reader in w.readers { assert ReaderSound(w, w.readers[e.reader]); }
  }

  lemma ClaimsSplit(start: Key, now: int, es: seq<Event>)
    requires es != []
    ensures var k := |es| - 1; var init := es[..k];
            && (NeverDropsLive(start, now, es) <==>
                NeverDropsLive(start, now, init) && !DropsLive(Run(start, now, init), es[k]))
            && (RegisterThroughout(start, now, es) <==>
                RegisterThroughout(start, now, init) && EntryIsRegister(Run(start, now, es)))
            && (RegisterThroughout(start, now, init) ==> EntryIsRegister(Run(start, now, init)))
            && (SlotsNeverGoBack(start, now, es) ==>
                SlotsNeverGoBack(start, now, init) && SlotKept(Run(start, now, init), Run(start, now, es)))
  {
    hide Run, DropsLive, EntryIsRegister, SlotKept;
    var k := |es| - 1;
    var init := es[..k];
    assert forall n :: 0 <= n <= k ==> init[..n] == es[..n];
    assert es[..|es|] == es && init[..k] == init;
  }

  lemma SlotKeptTransitive(a: World, b: World, c: World)
    requires SlotKept(a, b) && SlotKept(b, c)
    ensures SlotKept(a, c)
  {
  }

  lemma SlotKeptHere(w: World)
    ensures SlotKept(w, w)
  {
  }

  lemma SlotsExtendAt(start: Key, now: int, es: seq<Event>, m: nat, n: nat)
    requires es != [] && SlotsNeverGoBack(start, now, es[..|es| - 1])
    requires SlotKept(Run(start, now, es[..|es| - 1]), Run(start, now, es))
    requires m <= n <= |es|
    ensures SlotKept(Run(start, now, es[..m]), Run(start, now, es[..n]))
  {
    hide Run, SlotKept;
    var k := |es| - 1;
    var init := es[..k];
    if n <= k {
      assert init[..m] == es[..m] && init[..n] == es[..n];
    } else if m <= k {
      assert init[..m] == es[..m] && init[..k] == init && es[..n] == es;
      assert SlotKept(Run(start, now, init[..m]), Run(start, now, init[..k]));
      SlotKeptTransitive(Run(start, now, es[..m]), Run(start, now, init), Run(start, now, es));
    } else {
      SlotKeptHere(Run(start, now, es[..n]));
    }
  }

  lemma SlotsExtend(start: Key, now: int, es: seq<Event>)
    requires es != [] && SlotsNeverGoBack(start, now, es[..|es| - 1])
    requires SlotKept(Run(start, now, es[..|es| - 1]), Run(start, now, es))
    ensures SlotsNeverGoBack(start, now, es)
  {
    hide Run, SlotKept;
    forall m, n | 0 <= m <= n <= |es| ensures SlotKept(Run(start, now, es[..m]), Run(start, now, es[..n])) {
      SlotsExtendAt(start, now, es, m, n);
    }
  }

  /**
   * From a key that holds no price, the entry is a last-writer-wins register by slot at every
   * moment of a run, and its slot never goes back without an expiry, if and only if no reader's
   * delayed deletion of a foreign value hits an entry stored in between.
   */
  lemma {:induction false} RegisterIff(start: Key, now: int, es: seq<Event>)
    requires !start.Live?
    ensures RegisterThroughout(start, now, es) <==> NeverDropsLive(start, now, es)
    ensures SlotsNeverGoBack(start, now, es) <==> NeverDropsLive(start, now, es)
  {
    if es == [] {
      assert Run(start, now, es) == World(start, now, map[], [], 0, false, 0, {});
      assert es[..0] == es;
    } else {
      var init, e := es[..|es| - 1], es[|es| - 1];
      hide Apply, EntryIsRegister, Sound, DropsLive, SlotKept, RegisterThroughout, NeverDropsLive, SlotsNeverGoBack;
      var w := Run(start, now, init);
      RegisterIff(start, now, init);
      ClaimsSplit(start, now, es);
      if NeverDropsLive(start, now, init) {
        RunIsSound(start, now, init);
        StepRegisterIff(w, e);
        StepSlotIff(w, e);
        if SlotKept(w, Run(start, now, es)) { SlotsExtend(start, now, es); }
      }
    }
  }

  ghost predicate NothingForeign(w: World) {
    !w.key.Foreign? && forall r :: r in w.readers && w.readers[r].Reading? ==> w.readers[r].hash != WrongType
  }

  lemma {:induction false} NothingForeignFromAbsent(now: int, es: seq<Event>)
    ensures NothingForeign(Run(Absent, now, es))
  {
    if es != [] { NothingForeignFromAbsent(now, es[..|es| - 1]); }
  }

  /** A key that starts absent never meets the delayed deletion, so it is always the register. */
  lemma AbsentIsRegister(now: int, es: seq<Event>)
    ensures RegisterThroughout(Absent, now, es) && SlotsNeverGoBack(Absent, now, es)
  {
    hide Run;
    RegisterIff(Absent, now, es);
    forall n | 0 <= n < |es| ensures !DropsLive(Run(Absent, now, es[..n]), es[n]) {
      NothingForeignFromAbsent(now, es[..n]);
    }
  }

  /** From a foreign value: a deletion delayed past a write at slot 5 lets slot 3 in, and nothing expired. */
  lemma DelayedDropLetsOldSlotIn(price: real) returns (es: seq<Event>)
    requires price > 0.0
    ensures |es| == 5 && SlotOf(Run(Foreign, 0, es[..3])) == 5
    ensures SlotOf(Run(Foreign, 0, es)) == 3 && Run(Foreign, 0, es).expiries == 0
  {
    var a, b := Arrival(5, price, price, "swap"), Arrival(3, price, price, "swap");
    var e1, e2, e3, e4, e5 := StartRead(1), ReadHash(1), Write(a), DropForeign(1), Write(b);
    es := [e1] + [e2] + [e3] + [e4] + [e5];
    RunSnoc(Foreign, 0, [], e1);
    assert [] + [e1] == [e1];
    RunSnoc(Foreign, 0, [e1], e2);
    RunSnoc(Foreign, 0, [e1] + [e2], e3);
    RunSnoc(Foreign, 0, [e1] + [e2] + [e3], e4);
    RunSnoc(Foreign, 0, [e1] + [e2] + [e3] + [e4], e5);
    assert es[..3] == [e1] + [e2] + [e3];
    assert Run(Foreign, 0, []) == World(Foreign, 0, map[], [], 0, false, 0, {});
    hide Run;
    var w2 := Apply(Apply(Run(Foreign, 0, []), e1), e2);
    assert w2.key == Foreign && w2.readers == map[1 := Reading(WrongType, NotAsked)];
    var w3 := Apply(w2, e3);
    assert w3.key.Live? && w3.key.hash.slot == Slot(5) && w3.readers == w2.readers && w3.expiries == 0;
    var w4 := Apply(w3, e4);
    assert w4.key == Absent && w4.expiries == 0;
  }

  // ---- One reader alone ----

  ghost function Steps(w: World, r: nat, dbPrice: real): World {
    var asked := Apply(Apply(Apply(Apply(w, StartRead(r)), ReadHash(r)), DropForeign(r)), ReadTtl(r));
    Apply(Apply(asked, Decide(r, dbPrice)), RunRehydrate(r))
  }

  /**
   * A reader that nothing interrupts serves the fresh price the key shows, else the database's when
   * it is valid, else zero; and it leaves the key as one read of the service does.
   */
  lemma ReadAlone(w: World, r: nat, dbPrice: real)
    requires r !in w.readers && At(w.key, w.now) == w.key
    ensures var w' := Steps(w, r, dbPrice); var seen := Seen(w.key, w.now);
            && r in w'.readers && w'.readers[r].Served? && w'.now == w.now && w'.arrivals == w.arrivals
            && w'.readers[r].price == (if seen.Some? then seen.value else if dbPrice > 0.0 then dbPrice else 0.0)
            && (w'.readers[r].answers.Some? <==> seen.Some?)
            && w'.key == if seen.None? && dbPrice > 0.0 then Rehydrate(WithoutForeign(w.key, w.now), w.now, dbPrice).0
                         else WithoutForeign(w.key, w.now)
  {
    ReadAloneReads(w, r);
    ForeignShowsNothing(w.key, w.now);
    hide Rehydrate, WithoutForeign, Ttl, HashOf;
  }

  /** Up to its last command, such a read has the hash and the time to live of one moment. */
  lemma ReadAloneReads(w: World, r: nat)
    requires r !in w.readers && At(w.key, w.now) == w.key
    ensures var w' := Apply(Apply(Apply(Apply(w, StartRead(r)), ReadHash(r)), DropForeign(r)), ReadTtl(r));
            var k := WithoutForeign(w.key, w.now);
            && w'.key == k && w'.now == w.now && w'.arrivals == w.arrivals && w'.stores == w.stores && r in w'.readers
            && w'.readers[r] == Reading(Got(HashOf(w.key, w.now), w.stores), Told(Ttl(k, w.now), w.now, w.stores))
  {
    var w1 := Apply(w, StartRead(r));
    assert w1.readers[r] == Reading(NotSent, NotAsked) && w1.key == w.key && w1.now == w.now;
    var w2 := Apply(w1, ReadHash(r));
    var w3 := Apply(w2, DropForeign(r));
    var k := WithoutForeign(w.key, w.now);
    assert w3.key == k && w3.now == w.now && w3.readers[r] == Reading(Got(HashOf(w.key, w.now), w.stores), NotAsked);
    hide AfterReadHash, Rehydrate;
    var w4 := Apply(w3, ReadTtl(r));
    assert w4.key == k && w4.readers[r] == Reading(Got(HashOf(w.key, w.now), w.stores), Told(Ttl(k, w.now), w.now, w.stores));
  }

  lemma ForeignShowsNothing(key: Key, now: int)
    ensures FreshPrice(HashOf(key, now), Ttl(WithoutForeign(key, now), now)) == Seen(key, now)
  {
  }
}
