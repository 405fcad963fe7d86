/**
 * The live price of a token: one Redis hash per mint, written by two scripts. Each script runs
 * atomically; times are whole seconds.
 */
module TokenPrice {
  import opened Wrappers

  const PRICE_TTL_S := 60 * 60 * 24
  const STALE_THRESHOLD_S := 5 * 60
  const FRESH_MIN_TTL_S := PRICE_TTL_S - STALE_THRESHOLD_S
  const REFERENCE_SYNC := "reference-sync"

  datatype SlotField = Missing | Unreadable(raw: string) | Slot(n: nat)
  datatype Hash = Hash(priceUsd: Option<real>, priceNative: Option<real>, slot: SlotField, source: string, expiresAt: Option<int>)

  /** A Redis key: nothing, a value of another type, or a price hash. */
  datatype Key = Absent | Foreign | Live(hash: Hash)

  /** The key as Redis sees it at an instant: an expired hash is gone. */
  function At(key: Key, now: int): Key {
    if key.Live? && key.hash.expiresAt.Some? && key.hash.expiresAt.value <= now then Absent else key
  }

  /** Seconds left, -1 for a hash that never expires, -2 for no key. */
  function Ttl(key: Key, now: int): int {
    match At(key, now)
    case Absent => -2
    case Foreign => -1
    case Live(h) => if h.expiresAt.Some? then h.expiresAt.value - now else -1
  }

  /** Both scripts drop a value of another type before anything else. */
  function WithoutForeign(key: Key, now: int): Key {
    if At(key, now).Foreign? then Absent else At(key, now)
  }

  datatype Arrival = Arrival(slot: nat, priceUsd: real, priceNative: real, source: string)

  /** The upsert script: a write older than the stored slot changes nothing. */
  function Upsert(key: Key, now: int, a: Arrival): (Key, bool) {
    var k := WithoutForeign(key, now);
    if k.Live? && k.hash.slot.Slot? && a.slot < k.hash.slot.n then (k, false)
    else (Live(Hash(Some(a.priceUsd), Some(a.priceNative), Slot(a.slot), a.source, Some(now + PRICE_TTL_S))), true)
  }

  /** The rehydrate script: refreshes the dollar price of a stale or missing hash, nothing else of it. */
  function Rehydrate(key: Key, now: int, priceUsd: real): (Key, bool) {
    var k := WithoutForeign(key, now);
    if k.Live? && Ttl(k, now) >= FRESH_MIN_TTL_S then (k, false) else
      var native := if k.Live? && k.hash.priceNative.Some? then k.hash.priceNative else Some(0.0);
      var slot := if k.Live? && k.hash.slot != Missing then k.hash.slot else Slot(0);
      (Live(Hash(Some(priceUsd), native, slot, REFERENCE_SYNC, Some(now + PRICE_TTL_S))), true)
  }

  predicate IsValidWritePrice(price: real) { price > 0.0 }

  /** What a reader takes from a hash and a time to live it read: a positive price, if still fresh. */
  function FreshPrice(h: Option<Hash>, ttl: int): Option<real> {
    if h.None? || h.value.priceUsd.None? || h.value.priceUsd.value <= 0.0 || ttl < FRESH_MIN_TTL_S then None
    else h.value.priceUsd
  }

  function HashOf(key: Key, now: int): Option<Hash> {
    if At(key, now).Live? then Some(At(key, now).hash) else None
  }

  /** What a reader makes of a key. */
  function Seen(key: Key, now: int): Option<real> {
    FreshPrice(HashOf(key, now), Ttl(key, now))
  }

  /** The reader and the rehydrate script use one threshold: what is served as fresh is never overwritten. */
  lemma FreshIsNeverRehydrated(key: Key, now: int, priceUsd: real)
    ensures Seen(key, now).Some? ==> Rehydrate(key, now, priceUsd) == (key, false)
    ensures key.Live? && At(key, now).Live? && Rehydrate(key, now, priceUsd).1 ==>
              var h, h' := key.hash, Rehydrate(key, now, priceUsd).0.hash;
              && Ttl(key, now) < FRESH_MIN_TTL_S
              && (h.slot != Missing ==> h'.slot == h.slot)
              && (h.priceNative.Some? ==> h'.priceNative == h.priceNative)
  {
  }

  /** A price that was stored is served for exactly the staleness threshold, unless something else is stored. */
  lemma StoredIsFreshForFiveMinutes(key: Key, now: int, a: Arrival, later: int)
    requires IsValidWritePrice(a.priceUsd) && now <= later
    ensures Upsert(key, now, a).1 ==> Upsert(key, now, a).0.hash.expiresAt == Some(now + 86_400)
    ensures Upsert(key, now, a).1 ==>
              Seen(Upsert(key, now, a).0, later) == if later - now <= 300 then Some(a.priceUsd) else None
    ensures Rehydrate(key, now, a.priceUsd).1 ==>
              Seen(Rehydrate(key, now, a.priceUsd).0, later) == if later - now <= 300 then Some(a.priceUsd) else None
  {
  }

  // ---- The register a key implements ----

  /** Last writer of the highest slot. */
  function Best(arrivals: seq<Arrival>): Arrival
    requires arrivals != []
  {
    var last := arrivals[|arrivals| - 1];
    if |arrivals| == 1 || last.slot >= Best(arrivals[..|arrivals| - 1]).slot then last
    else Best(arrivals[..|arrivals| - 1])
  }

  lemma {:induction false} BestIsLastOfHighestSlot(arrivals: seq<Arrival>) returns (i: nat)
    requires arrivals != []
    ensures i < |arrivals| && Best(arrivals) == arrivals[i]
    ensures forall j :: 0 <= j < |arrivals| ==> arrivals[j].slot <= arrivals[i].slot
    ensures forall j :: i < j < |arrivals| ==> arrivals[j].slot < arrivals[i].slot
  {
    i := |arrivals| - 1;
    if |arrivals| > 1 {
      var k := BestIsLastOfHighestSlot(arrivals[..|arrivals| - 1]);
      if arrivals[i].slot < arrivals[k].slot { i := k; }
    }
  }

  /** Replay of writes, each with the second it arrives at. */
  function Deliver(writes: seq<(Arrival, int)>): Key {
    if writes == [] then Absent else
      var last := writes[|writes| - 1];
      Upsert(Deliver(writes[..|writes| - 1]), last.1, last.0).0
  }

  function ArrivalsOf(writes: seq<(Arrival, int)>): (r: seq<Arrival>)
    ensures |r| == |writes|
  {
    seq(|writes|, i requires 0 <= i < |writes| => writes[i].0)
  }

  ghost predicate HoldsBest(h: Hash, arrivals: seq<Arrival>)
    requires arrivals != []
  {
    var b := Best(arrivals);
    h.priceUsd == Some(b.priceUsd) && h.priceNative == Some(b.priceNative) && h.slot == Slot(b.slot) && h.source == b.source
  }

  /** No write finds the key expired that the writes before it left. */
  ghost predicate NeverExpires(writes: seq<(Arrival, int)>) {
    forall n :: 0 < n < |writes| ==> At(Deliver(writes[..n]), writes[n].1) == Deliver(writes[..n])
  }

  lemma NeverExpiresPrefix(writes: seq<(Arrival, int)>)
    requires NeverExpires(writes) && |writes| > 1
    ensures var k := |writes| - 1;
            NeverExpires(writes[..k]) && At(Deliver(writes[..k]), writes[k].1) == Deliver(writes[..k])
  {
    hide Deliver, At;
    var k := |writes| - 1;
    assert forall n :: 0 <= n <= k ==> writes[..k][..n] == writes[..n];
  }

  /** However long the writes go on, a key that does not expire holds the last arrival of the highest slot. */
  lemma {:induction false} DeliverHoldsBest(writes: seq<(Arrival, int)>)
    requires writes != [] && NeverExpires(writes)
    ensures Deliver(writes).Live? && HoldsBest(Deliver(writes).hash, ArrivalsOf(writes))
  {
    var init := writes[..|writes| - 1];
    assert ArrivalsOf(writes)[..|writes| - 1] == ArrivalsOf(init);
    if init != [] {
      NeverExpiresPrefix(writes);
      hide NeverExpires;
      DeliverHoldsBest(init);
    }
  }

  ghost predicate DistinctSlots(arrivals: seq<Arrival>) {
    forall i, j :: 0 <= i < j < |arrivals| ==> arrivals[i].slot != arrivals[j].slot
  }

  lemma SameBest(a: seq<Arrival>, a': seq<Arrival>)
    requires a != [] && a' != [] && multiset(a) == multiset(a') && DistinctSlots(a)
    ensures Best(a) == Best(a')
  {
    hide Best;
    var i := BestIsLastOfHighestSlot(a);
    var i' := BestIsLastOfHighestSlot(a');
    assert a[i] in multiset(a') && a'[i'] in multiset(a);
    var k :| 0 <= k < |a'| && a'[k] == a[i];
    var k' :| 0 <= k' < |a| && a[k'] == a'[i'];
    assert a[k'].slot == a[i].slot;
  }

  /** Whatever order writes of distinct slots are delivered in, the entry ends up the same. */
  lemma DeliveryOrderIsIrrelevant(writes: seq<(Arrival, int)>, writes': seq<(Arrival, int)>)
    requires writes != [] && multiset(ArrivalsOf(writes)) == multiset(ArrivalsOf(writes'))
    requires DistinctSlots(ArrivalsOf(writes)) && NeverExpires(writes) && NeverExpires(writes')
    ensures Deliver(writes).Live? && Deliver(writes').Live?
    ensures Deliver(writes).hash == Deliver(writes').hash.(expiresAt := Deliver(writes).hash.expiresAt)
  {
    hide NeverExpires, Deliver, Best, DistinctSlots;
    assert |ArrivalsOf(writes)| == |multiset(ArrivalsOf(writes))| == |multiset(ArrivalsOf(writes'))|;
    hide ArrivalsOf;
    DeliverHoldsBest(writes);
    DeliverHoldsBest(writes');
    SameBest(ArrivalsOf(writes), ArrivalsOf(writes'));
  }
}
