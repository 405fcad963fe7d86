/**
 * The loops of the portfolio service: the single pass that draws the PnL chart, the price
 * look-up it uses, and the pass that fills the per-token table.
 */
module PnlService {
  import opened Wrappers
  import opened Arith
  import opened PnlEngine
  import StableSort

  const DAY_SEC := 86400

  ghost predicate Ascending(rows: seq<Row>) {
    forall i, j :: 0 <= i <= j < |rows| ==> rows[i].timestamp <= rows[j].timestamp
  }

  // ---- SOL price near an instant ----

  /** Daily prices in insertion order, one entry a day, oldest first. */
  ghost predicate DailyPrices(prices: seq<(int, real)>) {
    forall i, j :: 0 <= i < j < |prices| ==> prices[i].0 < prices[j].0
  }

  /** The latest price recorded at or before a day, zero when there is none. */
  function LatestPrice(prices: seq<(int, real)>, day: int): real {
    if prices == [] then 0.0
    else if prices[|prices| - 1].0 <= day then prices[|prices| - 1].1
    else LatestPrice(prices[..|prices| - 1], day)
  }

  function DayOf(sec: int): int { sec / DAY_SEC * DAY_SEC }

  /** The day a second falls in starts at the last multiple of 86400 seconds not after it. */
  lemma DayHoldsSecond(sec: int)
    ensures DayOf(sec) % 86400 == 0 && DayOf(sec) <= sec < DayOf(sec) + 86400
  {
  }

  ghost predicate KeyedByDay(prices: seq<(int, real)>) {
    forall i :: 0 <= i < |prices| ==> prices[i].0 % 86400 == 0
  }

  /** With prices keyed by day, what is latest for the day is latest for the second. */
  lemma {:induction false} LatestForDay(prices: seq<(int, real)>, sec: int)
    requires KeyedByDay(prices)
    ensures LatestPrice(prices, DayOf(sec)) == LatestPrice(prices, sec)
  {
    if prices != [] {
      var last := prices[|prices| - 1];
      DayHoldsSecond(sec);
      NoDayBetween(last.0, DayOf(sec), sec);
      hide DayOf;
      LatestForDay(prices[..|prices| - 1], sec);
    }
  }

  lemma NoDayBetween(day: int, start: int, sec: int)
    requires day % 86400 == 0 && start % 86400 == 0 && start <= sec < start + 86400
    ensures day <= start <==> day <= sec
  {
  }

  lemma {:induction false} LatestPriceAt(prices: seq<(int, real)>, day: int, i: nat)
    requires DailyPrices(prices) && i <= |prices|
    requires i > 0 ==> prices[i - 1].0 <= day
    requires i < |prices| ==> day < prices[i].0
    ensures LatestPrice(prices, day) == if i == 0 then 0.0 else prices[i - 1].1
    decreases |prices|
  {
    if i < |prices| {
      var init := prices[..|prices| - 1];
      assert day < prices[|prices| - 1].0;
      LatestPriceAt(init, day, i);
    }
  }

  /** Look up the day itself first, then the newest entry not after it. */
  method GetSolPriceNear(timestampSec: int, prices: seq<(int, real)>) returns (price: real)
    requires DailyPrices(prices)
    ensures price == LatestPrice(prices, DayOf(timestampSec))
    ensures KeyedByDay(prices) ==> price == LatestPrice(prices, timestampSec)
  {
    if KeyedByDay(prices) { LatestForDay(prices, timestampSec); }
    var dayTs := timestampSec / DAY_SEC * DAY_SEC;
    var hit := exists i :: 0 <= i < |prices| && prices[i].0 == dayTs;
    if hit {
      var i :| 0 <= i < |prices| && prices[i].0 == dayTs;
      LatestPriceAt(prices, dayTs, i + 1);
      return prices[i].1;
    }
    var latest, k := 0.0, 0;
    while k < |prices|
      invariant 0 <= k <= |prices|
      invariant k > 0 ==> prices[k - 1].0 <= dayTs
      invariant latest == if k == 0 then 0.0 else prices[k - 1].1
    {
      if prices[k].0 > dayTs { break; }
      latest := prices[k].1;
      k := k + 1;
    }
    LatestPriceAt(prices, dayTs, k);
    return latest;
  }

  // ---- The chart ----

  datatype Point = Point(timestamp: int, pnl: real, balanceUsd: real)

  /** Exactly the rows at or before a second, whatever their order. */
  function UpTo(rows: seq<Row>, sec: int): seq<Row> {
    if rows == [] then [] else
      var last := rows[|rows| - 1];
      UpTo(rows[..|rows| - 1], sec) + if last.timestamp <= sec then [last] else []
  }

  /** A chart point computed from scratch: book every row up to its second, then price the result. */
  function FreshPoint(rows: seq<Row>, prices: seq<(int, real)>, time: int): Point {
    var sec := time / 1000;
    var usd := ChartFold(UpTo(rows, sec)).pnl * LatestPrice(prices, DayOf(sec));
    Point(time, usd, usd)
  }

  /**
   * A point shows, as pnl and as balance, the SOL booked up to its second at the last price recorded
   * by then, prices being keyed by day.
   */
  ghost predicate PointShows(rows: seq<Row>, prices: seq<(int, real)>, p: Point) {
    && p.balanceUsd == p.pnl
    && (KeyedByDay(prices) ==>
          p.pnl == ChartFold(UpTo(rows, p.timestamp / 1000)).pnl * LatestPrice(prices, p.timestamp / 1000))
  }

  lemma FreshPointShows(rows: seq<Row>, prices: seq<(int, real)>, time: int)
    ensures FreshPoint(rows, prices, time).timestamp == time && PointShows(rows, prices, FreshPoint(rows, prices, time))
  {
    hide ChartFold, UpTo, LatestPrice, DayOf;
    if KeyedByDay(prices) { LatestForDay(prices, time / 1000); }
  }

  lemma {:induction false} UpToIsPrefix(rows: seq<Row>, sec: int, n: nat)
    requires n <= |rows|
    requires forall i :: 0 <= i < n ==> rows[i].timestamp <= sec
    requires forall i :: n <= i < |rows| ==> rows[i].timestamp > sec
    ensures UpTo(rows, sec) == rows[..n]
  {
    if rows != [] {
      var init := rows[..|rows| - 1];
      if n == |rows| {
        UpToIsPrefix(init, sec, n - 1);
        assert rows == init + [rows[n - 1]];
      } else {
        UpToIsPrefix(init, sec, n);
        assert init[..n] == rows[..n];
      }
    }
  }

  /** Book one trade on the running holdings. */
  method BookTrade(holdings: map<string, Holding>, pnl: real, trade: Trade)
    returns (holdings': map<string, Holding>, pnl': real)
    ensures Ledger(holdings', pnl') == ApplyTrade(Ledger(holdings, pnl), trade)
    ensures !trade.isBuy && trade.mint in holdings && holdings[trade.mint].tokens > 0.0 ==>
              (pnl + trade.sol - pnl') * holdings[trade.mint].tokens == trade.tokens * holdings[trade.mint].spent
  {
    if trade.mint in holdings && holdings[trade.mint].tokens > 0.0 {
      SaleCost(holdings[trade.mint].tokens, holdings[trade.mint].spent, trade.tokens);
    }
    pnl' := pnl;
    var tokens, spent := 0.0, 0.0;
    if trade.mint in holdings {
      tokens, spent := holdings[trade.mint].tokens, holdings[trade.mint].spent;
    }
    if trade.isBuy {
      tokens := tokens + trade.tokens;
      spent := spent + trade.sol;
    } else {
      var avgCost := if tokens > 0.0 then spent / tokens else 0.0;
      var costOfGoodsSold := trade.tokens * avgCost;
      pnl' := pnl' + (trade.sol - costOfGoodsSold);
      tokens := Max0(tokens - trade.tokens);
      spent := Max0(spent - costOfGoodsSold);
    }
    holdings' := holdings[trade.mint := Holding(tokens, spent)];
  }

  lemma OneMoreRow(rows: seq<Row>, n: nat)
    requires n < |rows|
    ensures ChartFold(rows[..n + 1]) == ApplyRow(ChartFold(rows[..n]), rows[n])
    ensures TableFold(rows[..n + 1]) == SettleRow(TableFold(rows[..n]), rows[n])
  {
    hide ApplyRow, SettleRow;
    assert rows[..n + 1][..n] == rows[..n];
  }

  /** Advance the cursor over every row up to a second, booking as it goes. */
  method BookUpTo(rows: seq<Row>, start: nat, holdings0: map<string, Holding>, pnl0: real, timeSec: int)
    returns (tradeIndex: nat, holdings: map<string, Holding>, pnl: real)
    requires start <= |rows| && ChartFold(rows[..start]) == Ledger(holdings0, pnl0)
    requires Ascending(rows) && forall i :: 0 <= i < start ==> rows[i].timestamp <= timeSec
    ensures start <= tradeIndex <= |rows| && rows[..tradeIndex] == UpTo(rows, timeSec)
    ensures ChartFold(rows[..tradeIndex]) == Ledger(holdings, pnl)
  {
    hide ApplyTrade, TradeOf, ChartFold, UpTo;
    tradeIndex, holdings, pnl := start, holdings0, pnl0;
    while tradeIndex < |rows| && rows[tradeIndex].timestamp <= timeSec
      invariant start <= tradeIndex <= |rows|
      invariant ChartFold(rows[..tradeIndex]) == Ledger(holdings, pnl)
      invariant forall i :: 0 <= i < tradeIndex ==> rows[i].timestamp <= timeSec
    {
      OneMoreRow(rows, tradeIndex);
      var decoded := TradeOf(rows[tradeIndex]);
      tradeIndex := tradeIndex + 1;
      if decoded.None? { continue; }
      holdings, pnl := BookTrade(holdings, pnl, decoded.value);
    }
    UpToIsPrefix(rows, timeSec, tradeIndex);
  }

  /**
   * One pass over the rows, carrying the holdings from point to point. Each point is the one a
   * fresh computation over the rows up to its second would give, and the points are evenly spaced
   * from the start of the range to its end.
   */
  method GetPnlChart(rows: seq<Row>, startTime: int, now: int, intervalMs: int, prices: seq<(int, real)>)
    returns (chart: seq<Point>)
    requires Ascending(rows) && DailyPrices(prices) && intervalMs > 0
    ensures |chart| == if startTime <= now then (now - startTime) / intervalMs + 1 else 0
    ensures forall k :: 0 <= k < |chart| ==> chart[k] == FreshPoint(rows, prices, startTime + k * intervalMs)
    ensures forall k :: 0 <= k < |chart| ==>
              chart[k].timestamp == startTime + k * intervalMs && PointShows(rows, prices, chart[k])
  {
    hide ChartFold, UpTo, LatestPrice, DayOf, PointShows, Instant;
    var runningHoldings: map<string, Holding> := map[];
    var cumulativePnlSol := 0.0;
    var tradeIndex := 0;
    chart := [];
    var time := startTime;
    EmptyChart(rows);
    Instants(startTime, intervalMs, 0);
    while time <= now
      invariant time == Instant(startTime, intervalMs, |chart|)
      invariant |chart| == 0 ==> time == startTime
      invariant |chart| > 0 ==> time - intervalMs <= now
      invariant 0 <= tradeIndex <= |rows|
      invariant ChartFold(rows[..tradeIndex]) == Ledger(runningHoldings, cumulativePnlSol)
      invariant forall i :: 0 <= i < tradeIndex ==> rows[i].timestamp <= time / 1000
      invariant forall k :: 0 <= k < |chart| ==> chart[k] == FreshPoint(rows, prices, Instant(startTime, intervalMs, k))
      decreases now - time
    {
      var timeSec := time / 1000;
      tradeIndex, runningHoldings, cumulativePnlSol :=
        BookUpTo(rows, tradeIndex, runningHoldings, cumulativePnlSol, timeSec);
      UpToMember(rows, timeSec, tradeIndex);
      var solPriceAtTime := GetSolPriceNear(timeSec, prices);
      var pnlUsd := cumulativePnlSol * solPriceAtTime;
      Instants(startTime, intervalMs, |chart|);
      chart := chart + [Point(time, pnlUsd, pnlUsd)];
      time := time + intervalMs;
    }
    hide FreshPoint;
    PointCount(startTime, now, intervalMs, |chart|);
    ChartShows(rows, prices, startTime, intervalMs, chart);
  }

  /** The instant of the k-th point. */
  ghost function Instant(startTime: int, intervalMs: int, k: nat): int { startTime + k * intervalMs }

  lemma Instants(startTime: int, intervalMs: int, k: nat)
    ensures Instant(startTime, intervalMs, 0) == startTime
    ensures Instant(startTime, intervalMs, k + 1) == Instant(startTime, intervalMs, k) + intervalMs
  {
    Distribute(k, 1, intervalMs);
  }

  lemma PointCount(startTime: int, now: int, intervalMs: int, n: nat)
    requires intervalMs > 0 && now < Instant(startTime, intervalMs, n)
    requires n > 0 ==> Instant(startTime, intervalMs, n) - intervalMs <= now
    ensures n == if startTime <= now then (now - startTime) / intervalMs + 1 else 0
  {
    if n > 0 {
      Distribute(n - 1, 1, intervalMs);
      assert (n - 1) * intervalMs >= 0;
      QuotientIs(now - startTime, intervalMs, n - 1);
    }
  }

  lemma ChartShows(rows: seq<Row>, prices: seq<(int, real)>, startTime: int, intervalMs: int, chart: seq<Point>)
    requires forall k :: 0 <= k < |chart| ==> chart[k] == FreshPoint(rows, prices, Instant(startTime, intervalMs, k))
    ensures forall k :: 0 <= k < |chart| ==> chart[k] == FreshPoint(rows, prices, startTime + k * intervalMs)
    ensures forall k :: 0 <= k < |chart| ==>
              chart[k].timestamp == startTime + k * intervalMs && PointShows(rows, prices, chart[k])
  {
    hide FreshPoint, PointShows;
    forall k | 0 <= k < |chart|
      ensures chart[k] == FreshPoint(rows, prices, startTime + k * intervalMs)
      ensures chart[k].timestamp == startTime + k * intervalMs && PointShows(rows, prices, chart[k])
    {
      FreshPointShows(rows, prices, startTime + k * intervalMs);
    }
  }

  lemma EmptyChart(rows: seq<Row>)
    ensures ChartFold(rows[..0]) == Ledger(map[], 0.0)
  {
  }

  lemma {:induction false} UpToMember(rows: seq<Row>, sec: int, n: nat)
    requires n <= |rows| && rows[..n] == UpTo(rows, sec)
    ensures forall i :: 0 <= i < n ==> rows[i].timestamp <= sec
  {
    UpToBound(rows, sec);
    forall i | 0 <= i < n ensures rows[i].timestamp <= sec { assert rows[i] == UpTo(rows, sec)[i]; }
  }

  lemma {:induction false} UpToBound(rows: seq<Row>, sec: int)
    ensures forall i :: 0 <= i < |UpTo(rows, sec)| ==> UpTo(rows, sec)[i].timestamp <= sec
  {
    if rows != [] { UpToBound(rows[..|rows| - 1], sec); }
  }

  // ---- The per-token table ----

  function Earlier(): (Row, Row) -> bool { (a: Row, b: Row) => a.timestamp < b.timestamp }

  function ByTime(trades: seq<Row>): seq<Row> { StableSort.Sort(trades, Earlier()) }

  function AtSecond(sec: int): Row -> bool { (row: Row) => row.timestamp == sec }

  /** The rows in time order, nothing lost or added, and the rows of any one second as they stood. */
  ghost predicate Chronological(trades: seq<Row>, sorted: seq<Row>) {
    && Ascending(sorted)
    && multiset(sorted) == multiset(trades)
    && forall sec :: StableSort.Filter(sorted, AtSecond(sec)) == StableSort.Filter(trades, AtSecond(sec))
  }

  lemma ByTimeIsChronological(trades: seq<Row>)
    ensures Chronological(trades, ByTime(trades))
  {
    assert StableSort.WeakOrder(Earlier());
    StableSort.SortSorted(trades, Earlier());
    StableSort.SortElements(trades, Earlier());
    var sorted := ByTime(trades);
    forall i, j | 0 <= i <= j < |sorted| ensures sorted[i].timestamp <= sorted[j].timestamp {
      assert i < j ==> !Earlier()(sorted[j], sorted[i]);
    }
    forall sec ensures StableSort.Filter(sorted, AtSecond(sec)) == StableSort.Filter(trades, AtSecond(sec)) {
      StableSort.FilterOfSort(trades, Earlier(), AtSecond(sec));
      OneSecondIsSorted(trades, sec);
      StableSort.SortOfSorted(StableSort.Filter(trades, AtSecond(sec)), Earlier());
    }
  }

  lemma OneSecondIsSorted(trades: seq<Row>, sec: int)
    ensures StableSort.Sorted(StableSort.Filter(trades, AtSecond(sec)), Earlier())
  {
    var rows := StableSort.Filter(trades, AtSecond(sec));
    forall k | 0 <= k < |rows| ensures rows[k].timestamp == sec {
      StableSort.FilterMember(trades, AtSecond(sec), rows[k]);
    }
  }

  /** Book one trade on a mint's record. A sell that meets no holding books nothing. */
  method BookRecord(record: Record, trade: Trade) returns (record': Record)
    ensures record' == SettleTrade(record, trade)
    ensures !trade.isBuy && record.tokens > 0.0 ==>
              (record.pnl + trade.sol - record'.pnl) * record.tokens == trade.tokens * record.spent
  {
    if record.tokens > 0.0 { SaleCost(record.tokens, record.spent, trade.tokens); }
    var pnl, investment, tokens, spent := record.pnl, record.investment, record.tokens, record.spent;
    if trade.isBuy {
      tokens := tokens + trade.tokens;
      spent := spent + trade.sol;
      investment := investment + trade.sol;
    } else if tokens > 0.0 {
      var avgCostPerToken := spent / tokens;
      var costOfGoodsSold := trade.tokens * avgCostPerToken;
      pnl := pnl + (trade.sol - costOfGoodsSold);
      tokens := tokens - trade.tokens;
      spent := spent - costOfGoodsSold;
      if tokens < 0.0 { tokens := 0.0; }
      if spent < 0.0 { spent := 0.0; }
    }
    return Record(pnl, investment, tokens, spent);
  }

  /** Book the rows in time order, rows of one second in the order given. */
  method CalculatePnl(trades: seq<Row>) returns (pnlMap: map<string, Record>)
    ensures pnlMap == TableFold(ByTime(trades)) && Chronological(trades, ByTime(trades))
  {
    ByTimeIsChronological(trades);
    hide TradeOf, SettleTrade, ByTime, Chronological;
    pnlMap := map[];
    var sortedTrades := ByTime(trades);
    var k := 0;
    while k < |sortedTrades|
      invariant 0 <= k <= |sortedTrades|
      invariant pnlMap == TableFold(sortedTrades[..k])
    {
      OneMoreRow(sortedTrades, k);
      var decoded := DescribedTradeOf(sortedTrades[k]);
      k := k + 1;
      if decoded.None? { continue; }
      var trade := decoded.value;
      var record := BLANK;
      if trade.mint in pnlMap { record := pnlMap[trade.mint]; }
      record := BookRecord(record, trade);
      pnlMap := pnlMap[trade.mint := record];
    }
    assert sortedTrades[..k] == sortedTrades;
  }

  /** On rows already in time order the table books them as they stand. */
  lemma ByTimeOfAscending(rows: seq<Row>)
    requires Ascending(rows)
    ensures ByTime(rows) == rows
  {
    StableSort.SortOfSorted(rows, Earlier());
  }

  /**
   * Chart and table over one list in time order: the last point shows, in SOL, the table's total
   * plus the proceeds of the sells that met nothing tracked, and both hold the same per mint.
   */
  lemma LastPointAgainstTable(rows: seq<Row>, prices: seq<(int, real)>, time: int)
    requires Ascending(rows) && AllDescribed(rows)
    requires forall i :: 0 <= i < |rows| ==> rows[i].timestamp <= time / 1000
    ensures SameHoldings(ChartFold(UpTo(rows, time / 1000)), TableFold(ByTime(rows)))
    ensures FreshPoint(rows, prices, time).pnl ==
            (TotalPnl(TableFold(ByTime(rows))) + UntrackedProceeds(rows)) * LatestPrice(prices, DayOf(time / 1000))
  {
    hide ChartFold, TableFold, UntrackedProceeds, TotalPnl, SameHoldings, AllDescribed, LatestPrice, DayOf, UpTo, ByTime;
    ByTimeOfAscending(rows);
    UpToIsPrefix(rows, time / 1000, |rows|);
    assert rows[..|rows|] == rows;
    EnginesAgree(rows);
  }
}
