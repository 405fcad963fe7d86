/**
 * The sliding-window limiter in front of the CoinGecko and Helius calls, for callers that run one
 * at a time on a clock that never goes back. It keeps only the recent request times.
 */
module RateLimiter {

  function Recent(timestamps: seq<int>, now: int, windowMs: int): seq<int> {
    if timestamps == [] then []
    else if now - timestamps[0] < windowMs then [timestamps[0]] + Recent(timestamps[1..], now, windowMs)
    else Recent(timestamps[1..], now, windowMs)
  }

  ghost predicate Ascending(ts: seq<int>) {
    forall i, j :: 0 <= i <= j < |ts| ==> ts[i] <= ts[j]
  }

  /** Any limit + 1 consecutive requests span at least the window. */
  ghost predicate Limited(requests: seq<int>, limit: nat, windowMs: int) {
    forall i :: 0 <= i < |requests| - limit ==> requests[i + limit] - requests[i] >= windowMs
  }

  lemma {:induction false} AllRecent(ts: seq<int>, now: int, windowMs: int)
    requires forall i :: 0 <= i < |ts| ==> now - ts[i] < windowMs
    ensures Recent(ts, now, windowMs) == ts
  {
    if ts != [] { AllRecent(ts[1..], now, windowMs); }
  }

  /** On ascending times the recent ones are a suffix, and everything before it has left the window. */
  lemma {:induction false} RecentIsSuffix(ts: seq<int>, now: int, windowMs: int)
    requires Ascending(ts)
    ensures var r := Recent(ts, now, windowMs);
            && |r| <= |ts| && r == ts[|ts| - |r|..]
            && (forall i :: 0 <= i < |ts| - |r| ==> now - ts[i] >= windowMs)
  {
    if ts != [] {
      if now - ts[0] < windowMs {
        AllRecent(ts, now, windowMs);
      } else {
        RecentIsSuffix(ts[1..], now, windowMs);
        assert forall i :: 0 < i < |ts| ==> ts[i] == ts[1..][i - 1];
      }
    }
  }

  /** No stretch of time shorter than the window holds more requests than the limit. */
  lemma LimitedMeansAtMostLimit(requests: seq<int>, limit: nat, windowMs: int, i: nat, j: nat)
    requires Ascending(requests) && Limited(requests, limit, windowMs) && i <= j < |requests|
    ensures requests[j] - requests[i] < windowMs ==> j - i + 1 <= limit
  {
    if j - i >= limit {
      assert requests[i + limit] - requests[i] >= windowMs;
    }
  }

  lemma AppendKeepsLimited(requests: seq<int>, limit: nat, windowMs: int, later: int)
    requires Limited(requests, limit, windowMs) && limit >= 1
    requires |requests| >= limit ==> later - requests[|requests| - limit] >= windowMs
    ensures Limited(requests + [later], limit, windowMs)
  {
  }

  /** What is kept is the end of the record; what was dropped has left every later window. */
  ghost predicate KeepsEnough(requests: seq<int>, kept: seq<int>, clock: int, limit: nat, windowMs: int) {
    && |kept| <= |requests| && kept == requests[|requests| - |kept|..]
    && (forall i :: 0 <= i < |requests| - |kept| ==> clock - requests[i] >= windowMs)
    && |kept| <= limit + 1
    && (|kept| == limit + 1 ==> clock - kept[0] >= windowMs)
  }

  lemma {:induction false} RecentAreRecent(ts: seq<int>, now: int, windowMs: int)
    ensures |Recent(ts, now, windowMs)| <= |ts|
    ensures forall i :: 0 <= i < |Recent(ts, now, windowMs)| ==> now - Recent(ts, now, windowMs)[i] < windowMs
  {
    if ts != [] { RecentAreRecent(ts[1..], now, windowMs); }
  }

  lemma FilterKeepsEnough(requests: seq<int>, kept: seq<int>, clock: int, now: int, limit: nat, windowMs: int)
    requires KeepsEnough(requests, kept, clock, limit, windowMs) && Ascending(requests) && clock <= now
    ensures var kept' := Recent(kept, now, windowMs);
            KeepsEnough(requests, kept', now, limit, windowMs) && |kept'| <= limit
  {
    var kept' := Recent(kept, now, windowMs);
    assert Ascending(kept);
    RecentIsSuffix(kept, now, windowMs);
    hide Recent, Ascending;
    assert kept' == requests[|requests| - |kept'|..];
    assert |kept| == limit + 1 ==> |kept'| <= limit by {
      if |kept'| == |kept| > 0 {
        RecentAreRecent(kept, now, windowMs);
      }
    }
    forall i | 0 <= i < |requests| - |kept'|
      ensures now - requests[i] >= windowMs
    {
      if i >= |requests| - |kept| {
        assert requests[i] == kept[i - (|requests| - |kept|)];
      }
    }
  }

  lemma AppendKeepsEnough(requests: seq<int>, kept: seq<int>, now: int, later: int, limit: nat, windowMs: int)
    requires KeepsEnough(requests, kept, now, limit, windowMs) && |kept| <= limit && now <= later && limit >= 1
    requires |kept| == limit ==> later - kept[0] >= windowMs
    ensures KeepsEnough(requests + [later], kept + [later], later, limit, windowMs)
    ensures |requests| >= limit ==> later - requests[|requests| - limit] >= windowMs
  {
    assert (requests + [later])[|requests| - |kept|..] == kept + [later];
    if |kept| == limit {
      assert kept[0] == requests[|requests| - limit];
    }
  }

  /** How long a caller that finds these times must sleep before its request may be recorded. */
  function Wait(timestamps: seq<int>, now: int, limit: nat, windowMs: int, slackMs: int): int {
    var recent := Recent(timestamps, now, windowMs);
    if |recent| >= limit >= 1 then windowMs - (now - recent[0]) + slackMs else 0
  }

  lemma TogetherNeedsRoom(requests: seq<int>, n: nat, later: int, limit: nat, windowMs: nat)
    requires Limited(requests + seq(n, i => later), limit, windowMs)
    requires Ascending(requests) && limit >= 1 && windowMs >= 1 && n >= 1
    ensures n + |Recent(requests, later, windowMs)| <= limit
  {
    var together, m, r := requests + seq(n, i => later), |requests|, |Recent(requests, later, windowMs)|;
    RecentIsSuffix(requests, later, windowMs);
    RecentAreRecent(requests, later, windowMs);
    forall k | m - r <= k < m ensures later - requests[k] < windowMs {
      assert Recent(requests, later, windowMs)[k - (m - r)] == requests[k];
    }
    hide Recent;
    var i := m + n - 1 - limit;
    if i >= 0 {
      assert together[i + limit] == later && later - together[i] >= windowMs;
    }
  }

  lemma RoomKeepsLimit(requests: seq<int>, n: nat, later: int, limit: nat, windowMs: nat)
    requires Ascending(requests) && Limited(requests, limit, windowMs)
    requires n + |Recent(requests, later, windowMs)| <= limit
    ensures Limited(requests + seq(n, i => later), limit, windowMs)
  {
    var together, m := requests + seq(n, i => later), |requests|;
    RecentIsSuffix(requests, later, windowMs);
    hide Recent;
    forall i | 0 <= i < |together| - limit ensures together[i + limit] - together[i] >= windowMs {
      if i + limit < m {
        assert requests[i + limit] - requests[i] >= windowMs;
      }
    }
  }

  /**
   * Callers that overlap and record at one moment keep the limit exactly when, together with the
   * requests still inside the window by then, they do not exceed it.
   */
  lemma TogetherKeepLimitIff(requests: seq<int>, n: nat, later: int, limit: nat, windowMs: nat)
    requires Ascending(requests) && Limited(requests, limit, windowMs) && limit >= 1 && windowMs >= 1
    requires forall i :: 0 <= i < |requests| ==> requests[i] <= later
    ensures Limited(requests + seq(n, i => later), limit, windowMs) <==>
            n == 0 || n + |Recent(requests, later, windowMs)| <= limit
  {
    if n == 0 {
      assert requests + seq(n, i => later) == requests;
    } else if Limited(requests + seq(n, i => later), limit, windowMs) {
      TogetherNeedsRoom(requests, n, later, limit, windowMs);
    } else if n + |Recent(requests, later, windowMs)| <= limit {
      RoomKeepsLimit(requests, n, later, limit, windowMs);
    }
  }

  lemma {:induction false} NoneRecent(ts: seq<int>, now: int, windowMs: int)
    requires forall i :: 0 <= i < |ts| ==> now - ts[i] >= windowMs
    ensures Recent(ts, now, windowMs) == []
  {
    if ts != [] { NoneRecent(ts[1..], now, windowMs); }
  }

  /**
   * When a full window has just been used up, callers that overlap wait on the same oldest request,
   * all record once it has left, and keep the limit exactly when no more than the limit overlap:
   * limit + 1 of them break it.
   */
  lemma OverlappingCallersBreakLimit(limit: nat, windowMs: nat, slackMs: nat, now: int, n: nat)
    requires limit >= 1 && windowMs >= 1
    ensures var used := seq(limit, i => now);
            var later := now + Wait(used, now, limit, windowMs, slackMs);
            && Limited(used, limit, windowMs) && later == now + windowMs + slackMs
            && (Limited(used + seq(n, i => later), limit, windowMs) <==> n <= limit)
            && !Limited(used + seq(limit + 1, i => later), limit, windowMs)
  {
    var used := seq(limit, i => now);
    AllRecent(used, now, windowMs);
    var later := now + windowMs + slackMs;
    NoneRecent(used, later, windowMs);
    TogetherKeepLimitIff(used, n, later, limit, windowMs);
    TogetherKeepLimitIff(used, limit + 1, later, limit, windowMs);
  }

  class SlidingWindowLimiter {
    const limit: nat
    const windowMs: nat
    const slackMs: nat
    var timestamps: seq<int>
    /** Every request ever recorded, and the last time the clock was seen. */
    ghost var requests: seq<int>
    ghost var clock: int

    ghost predicate Valid()
      reads this
    {
      && limit >= 1 && windowMs >= 1
      && Ascending(requests) && Limited(requests, limit, windowMs)
      && (forall i :: 0 <= i < |requests| ==> requests[i] <= clock)
      && KeepsEnough(requests, timestamps, clock, limit, windowMs)
    }

    constructor (limit: nat, windowMs: nat, slackMs: nat)
      requires limit >= 1 && windowMs >= 1
      ensures Valid() && requests == [] && this.limit == limit && this.windowMs == windowMs && this.slackMs == slackMs
    {
      this.limit, this.windowMs, this.slackMs := limit, windowMs, slackMs;
      timestamps, requests, clock := [], [], 0;
      new;
    }

    ghost function WaitMs(now: int): int
      reads this
    {
      Wait(timestamps, now, limit, windowMs, slackMs)
    }

    /** The wait, slack aside, is the shortest that keeps the limit. */
    lemma WaitIsExact(now: int, later: int)
      requires Valid() && clock <= now <= later
      ensures Limited(requests + [later], limit, windowMs) <==> later >= now + WaitMs(now) - slackMs
    {
      var recent := Recent(timestamps, now, windowMs);
      FilterKeepsEnough(requests, timestamps, clock, now, limit, windowMs);
      var longer := requests + [later];
      if |requests| >= limit {
        assert longer[|requests| - limit] == requests[|requests| - limit];
        assert Limited(longer, limit, windowMs) ==> longer[|requests|] - longer[|requests| - limit] >= windowMs;
        if later - requests[|requests| - limit] >= windowMs {
          AppendKeepsLimited(requests, limit, windowMs, later);
        }
      } else {
        AppendKeepsLimited(requests, limit, windowMs, later);
      }
      hide Recent, Limited;
    }

    /** Callers that all enter at `now`, wait as told and record together keep the limit exactly when there is room. */
    lemma OverlappingCallersIff(n: nat, now: int, later: int)
      requires Valid() && clock <= now <= later && later >= now + WaitMs(now) - slackMs
      ensures Limited(requests + seq(n, i => later), limit, windowMs) <==>
              n == 0 || n + |Recent(requests, later, windowMs)| <= limit
      ensures Limited(requests + seq(1, i => later), limit, windowMs)
    {
      TogetherKeepLimitIff(requests, n, later, limit, windowMs);
      WaitIsExact(now, later);
      assert requests + seq(1, i => later) == requests + [later];
    }

    /**
     * One call: the clock reads `now` on entry and `later` when the request is recorded, after the
     * sleep. A timer that fires up to the slack too early still keeps the limit.
     */
    method Record(now: int, later: int)
      requires Valid() && clock <= now <= later
      requires later >= now + WaitMs(now) - slackMs
      modifies this
      ensures Valid() && requests == old(requests) + [later] && clock == later
      ensures timestamps == Recent(old(timestamps), now, windowMs) + [later]
    {
      hide KeepsEnough, Limited, Recent;
      FilterKeepsEnough(requests, timestamps, clock, now, limit, windowMs);
      timestamps := Recent(timestamps, now, windowMs);
      AppendKeepsEnough(requests, timestamps, now, later, limit, windowMs);
      AppendKeepsLimited(requests, limit, windowMs, later);
      timestamps := timestamps + [later];
      requests := requests + [later];
      clock := later;
    }
  }
}
