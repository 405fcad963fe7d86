/** The price service over all mints: single and batch reads that fall back to the database. */
module TokenPriceService {
  import opened Wrappers
  import opened TokenPrice

  datatype TokenRow = TokenRow(price: real, priceChange24h: real)
  datatype PriceResult = PriceResult(priceUsd: real, priceChange24h: real, fromRedis: bool)

  type Keys = map<string, Key>
  type Catalog = map<string, TokenRow>

  function KeyOf(keys: Keys, mint: string): Key { if mint in keys then keys[mint] else Absent }

  function CachedPrice(keys: Keys, now: int, mint: string): Option<real> {
    Seen(KeyOf(keys, mint), now)
  }

  /** What one read of one mint answers. */
  function Answer(keys: Keys, catalog: Catalog, now: int, mint: string): PriceResult {
    match CachedPrice(keys, now, mint)
    case Some(price) => PriceResult(price, 0.0, true)
    case None =>
      if mint in catalog && IsValidWritePrice(catalog[mint].price) then
        PriceResult(catalog[mint].price, catalog[mint].priceChange24h, false)
      else PriceResult(0.0, 0.0, false)
  }

  /** The key after one read of its mint. */
  function KeyAfter(keys: Keys, catalog: Catalog, now: int, mint: string): Key {
    var k := WithoutForeign(KeyOf(keys, mint), now);
    if CachedPrice(keys, now, mint).None? && mint in catalog && IsValidWritePrice(catalog[mint].price)
    then Rehydrate(k, now, catalog[mint].price).0 else k
  }

  /**
   * What an answer says: the fresh entry's price with no change, else the catalog's valid price with
   * its change, else zero.
   */
  ghost predicate Quotes(r: PriceResult, keys: Keys, catalog: Catalog, now: int, mint: string) {
    var cached := CachedPrice(keys, now, mint);
    var listed := mint in catalog && catalog[mint].price > 0.0;
    && (r.fromRedis <==> cached.Some?)
    && (r.priceUsd == 0.0 <==> cached.None? && !listed)
    && (cached.Some? ==> Some(r.priceUsd) == cached && r.priceChange24h == 0.0)
    && (cached.None? && listed ==> r.priceUsd == catalog[mint].price && r.priceChange24h == catalog[mint].priceChange24h)
    && (cached.None? && !listed ==> r.priceChange24h == 0.0)
  }

  lemma AnswerQuotes(keys: Keys, catalog: Catalog, now: int, mint: string)
    ensures Quotes(Answer(keys, catalog, now, mint), keys, catalog, now, mint)
  {
  }

  /**
   * What a read leaves behind: a live entry that is still within the threshold is untouched. Where
   * nothing was fresh and the catalog lists a price, any other key then shows that price, stored
   * now, with slot and native price kept. Otherwise only a value of another type is gone.
   */
  lemma ReadLeaves(keys: Keys, catalog: Catalog, now: int, mint: string)
    ensures var before, after := At(KeyOf(keys, mint), now), KeyAfter(keys, catalog, now, mint);
            var listed := mint in catalog && catalog[mint].price > 0.0;
            var young := before.Live? && before.hash.expiresAt.Some? && before.hash.expiresAt.value - now >= 86_100;
            && (young ==> after == before)
            && (!young && listed ==>
                && after.Live? && after.hash.priceUsd == Some(catalog[mint].price)
                && after.hash.source == "reference-sync" && after.hash.expiresAt == Some(now + 86_400)
                && (before.Live? && before.hash.slot != Missing ==> after.hash.slot == before.hash.slot)
                && (before.Live? && before.hash.priceNative.Some? ==> after.hash.priceNative == before.hash.priceNative)
                && (!before.Live? ==> after.hash.slot == Slot(0) && after.hash.priceNative == Some(0.0)))
            && (!young && !listed ==> after == if before.Foreign? then Absent else before)
  {
  }

  class PriceService {
    var keys: Keys

    constructor ()
      ensures keys == map[]
    {
      keys := map[];
    }

    /**
     * Stores a valid price exactly when its slot is not behind the entry's. A stored price is what
     * readers see from then on; a refused one leaves the entry and every other mint as they were.
     */
    method SetPrice(mint: string, now: int, a: Arrival) returns (stored: bool)
      modifies this
      ensures var before := At(KeyOf(old(keys), mint), now);
              stored <==>
                && IsValidWritePrice(a.priceUsd) && IsValidWritePrice(a.priceNative)
                && !(before.Live? && before.hash.slot.Slot? && before.hash.slot.n > a.slot)
      ensures stored ==> forall later :: now <= later ==>
                CachedPrice(keys, later, mint) == if later - now <= 300 then Some(a.priceUsd) else None
      ensures stored ==> HashOf(KeyOf(keys, mint), now).Some? && HashOf(KeyOf(keys, mint), now).value.slot == Slot(a.slot)
      ensures !stored ==> forall later :: now <= later ==> At(KeyOf(keys, mint), later) == At(KeyOf(old(keys), mint), later)
      ensures forall other :: other != mint ==> KeyOf(keys, other) == KeyOf(old(keys), other)
    {
      if !IsValidWritePrice(a.priceUsd) || !IsValidWritePrice(a.priceNative) { return false; }
      forall later | now <= later && Upsert(KeyOf(keys, mint), now, a).1
        ensures Seen(Upsert(KeyOf(keys, mint), now, a).0, later) == if later - now <= 300 then Some(a.priceUsd) else None
      {
        StoredIsFreshForFiveMinutes(KeyOf(keys, mint), now, a, later);
      }
      var (key, ok) := Upsert(KeyOf(keys, mint), now, a);
      keys := keys[mint := key];
      return ok;
    }

    /** Reading the hash drops a value of another type. */
    method GetFreshRedisPrice(mint: string, now: int) returns (price: Option<real>)
      modifies this
      ensures price == CachedPrice(old(keys), now, mint)
      ensures keys == old(keys)[mint := WithoutForeign(KeyOf(old(keys), mint), now)]
    {
      var key := KeyOf(keys, mint);
      var cached, ttl := HashOf(key, now), Ttl(key, now);
      keys := keys[mint := WithoutForeign(key, now)];
      if cached.None? || cached.value.priceUsd.None? { return None; }
      var priceUsd := cached.value.priceUsd.value;
      if priceUsd <= 0.0 { return None; }
      if ttl < FRESH_MIN_TTL_S { return None; }
      return Some(priceUsd);
    }

    method GetPrice(catalog: Catalog, mint: string, now: int) returns (r: PriceResult)
      modifies this
      ensures r == Answer(old(keys), catalog, now, mint)
      ensures Quotes(r, old(keys), catalog, now, mint)
      ensures keys == old(keys)[mint := KeyAfter(old(keys), catalog, now, mint)]
    {
      AnswerQuotes(keys, catalog, now, mint);
      var redisPrice := GetFreshRedisPrice(mint, now);
      if redisPrice.Some? { return PriceResult(redisPrice.value, 0.0, true); }
      var dbPrice := if mint in catalog then catalog[mint].price else 0.0;
      if IsValidWritePrice(dbPrice) {
        keys := keys[mint := Rehydrate(keys[mint], now, dbPrice).0];
        return PriceResult(dbPrice, catalog[mint].priceChange24h, false);
      }
      return PriceResult(0.0, 0.0, false);
    }

    /** First pass of the batch: what Redis has fresh, and the mints that need the database. */
    method ReadCached(mints: seq<string>, now: int) returns (result: map<string, PriceResult>, needFallback: set<string>)
      modifies this
      ensures needFallback == set m | m in mints && CachedPrice(old(keys), now, m).None?
      ensures result.Keys == set m | m in mints && CachedPrice(old(keys), now, m).Some?
      ensures forall m :: m in result ==> result[m] == PriceResult(CachedPrice(old(keys), now, m).value, 0.0, true)
      ensures forall m :: KeyOf(keys, m) ==
                if m in mints then WithoutForeign(KeyOf(old(keys), m), now) else KeyOf(old(keys), m)
    {
      hide FreshPrice, HashOf, Ttl, WithoutForeign;
      result, needFallback := map[], {};
      var i := 0;
      while i < |mints|
        invariant 0 <= i <= |mints|
        invariant needFallback == set m | m in mints[..i] && CachedPrice(old(keys), now, m).None?
        invariant result.Keys == set m | m in mints[..i] && CachedPrice(old(keys), now, m).Some?
        invariant forall m :: m in result ==> result[m] == PriceResult(CachedPrice(old(keys), now, m).value, 0.0, true)
        invariant forall m :: KeyOf(keys, m) ==
                    if m in mints[..i] then WithoutForeign(KeyOf(old(keys), m), now) else KeyOf(old(keys), m)
      {
        var mint := mints[i];
        ReadTwice(KeyOf(old(keys), mint), now);
        var redisPrice := GetFreshRedisPrice(mint, now);
        if redisPrice.Some? {
          result := result[mint := PriceResult(redisPrice.value, 0.0, true)];
        } else {
          needFallback := needFallback + {mint};
        }
        assert mints[..i + 1] == mints[..i] + [mint];
        i := i + 1;
      }
      assert mints[..i] == mints;
    }

    /** Second pass: database prices for the rest, each put back into its key. */
    method ReadCatalog(catalog: Catalog, needFallback: set<string>, now: int) returns (found: map<string, PriceResult>)
      modifies this
      ensures found.Keys == set m | m in needFallback && m in catalog && IsValidWritePrice(catalog[m].price)
      ensures forall m :: m in found ==> found[m] == PriceResult(catalog[m].price, catalog[m].priceChange24h, false)
      ensures forall m :: KeyOf(keys, m) ==
                if m in found then Rehydrate(KeyOf(old(keys), m), now, catalog[m].price).0 else KeyOf(old(keys), m)
    {
      hide Rehydrate, IsValidWritePrice;
      found := map[];
      var left := needFallback;
      while left != {}
        invariant left <= needFallback
        invariant found.Keys == set m | m in needFallback - left && m in catalog && IsValidWritePrice(catalog[m].price)
        invariant forall m :: m in found ==> found[m] == PriceResult(catalog[m].price, catalog[m].priceChange24h, false)
        invariant forall m :: KeyOf(keys, m) ==
                    if m in found then Rehydrate(KeyOf(old(keys), m), now, catalog[m].price).0 else KeyOf(old(keys), m)
        decreases |left|
      {
        var mint :| mint in left;
        left := left - {mint};
        if mint in catalog && IsValidWritePrice(catalog[mint].price) {
          found := found[mint := PriceResult(catalog[mint].price, catalog[mint].priceChange24h, false)];
          keys := keys[mint := Rehydrate(KeyOf(keys, mint), now, catalog[mint].price).0];
        }
      }
    }

    /**
     * The batch read answers each mint as a single read would, and leaves each key as a single
     * read would leave it, however often a mint is repeated.
     */
    method GetPrices(catalog: Catalog, mints: seq<string>, now: int) returns (result: map<string, PriceResult>)
      modifies this
      ensures result.Keys == set m | m in mints
      ensures forall m :: m in mints ==> result[m] == Answer(old(keys), catalog, now, m)
      ensures forall m :: m in mints ==> Quotes(result[m], old(keys), catalog, now, m)
      ensures forall m :: KeyOf(keys, m) == if m in mints then KeyAfter(old(keys), catalog, now, m) else KeyOf(old(keys), m)
    {
      forall m ensures Quotes(Answer(keys, catalog, now, m), keys, catalog, now, m) { AnswerQuotes(keys, catalog, now, m); }
      hide CachedPrice, WithoutForeign, Rehydrate, IsValidWritePrice, Quotes;
      var cached, needFallback := ReadCached(mints, now);
      var found := ReadCatalog(catalog, needFallback, now);
      result := cached + found;
      var j := 0;
      while j < |mints|
        invariant 0 <= j <= |mints|
        invariant (cached + found).Keys <= result.Keys
        invariant forall m :: m in mints[..j] ==> m in result
        invariant forall m :: m in result ==>
                    && m in mints
                    && result[m] == (if m in cached + found then (cached + found)[m] else PriceResult(0.0, 0.0, false))
      {
        if mints[j] !in result {
          result := result[mints[j] := PriceResult(0.0, 0.0, false)];
        }
        assert mints[..j + 1] == mints[..j] + [mints[j]];
        j := j + 1;
      }
      assert mints[..j] == mints;
    }
  }

  lemma ReadTwice(key: Key, now: int)
    ensures WithoutForeign(WithoutForeign(key, now), now) == WithoutForeign(key, now)
    ensures Seen(WithoutForeign(key, now), now) == Seen(key, now)
  {
  }
}
