/**
 * Average-cost profit and loss over swap rows: the accounting behind the PnL chart and behind
 * the per-token PnL table, each as a fold over the rows, and the laws both obey.
 * Amounts are exact reals.
 */
module PnlEngine {
  import opened Wrappers
  import opened MapSum

  const SOL_MINT := "So11111111111111111111111111111111111111112"

  /** A token transfer moves a non-negative amount; an empty account stands for a missing one. */
  type Amount = r: real | r >= 0.0
  type Positive = r: real | r > 0.0 witness 1.0

  datatype Transfer = Transfer(fromUserAccount: string, toUserAccount: string, mint: string, tokenAmount: Amount)
  datatype Row = Row(timestamp: int, kind: string, transfers: seq<Transfer>, description: string)

  datatype Trade = Trade(mint: string, isBuy: bool, sol: Positive, tokens: Positive)

  function FindSender(ts: seq<Transfer>): Option<Transfer> {
    if ts == [] then None
    else if ts[0].fromUserAccount != "" then Some(ts[0])
    else FindSender(ts[1..])
  }

  function FindReceiver(ts: seq<Transfer>): Option<Transfer> {
    if ts == [] then None
    else if ts[0].toUserAccount != "" then Some(ts[0])
    else FindReceiver(ts[1..])
  }

  /** The trade a row stands for, or None where both engines skip the row. */
  function TradeOf(row: Row): Option<Trade> {
    if row.kind != "SWAP" then None else
      match (FindSender(row.transfers), FindReceiver(row.transfers))
      case (Some(out), Some(into)) =>
        var isBuy := into.mint != SOL_MINT;
        var mint := if isBuy then into.mint else out.mint;
        var sol := if isBuy then out.tokenAmount else into.tokenAmount;
        var tokens := if isBuy then into.tokenAmount else out.tokenAmount;
        if mint == "" || sol == 0.0 || tokens == 0.0 then None else Some(Trade(mint, isBuy, sol, tokens))
      case _ => None
  }

  lemma {:induction false} FindsFirst(ts: seq<Transfer>, k: nat)
    requires k < |ts|
    ensures ts[k].fromUserAccount != "" && (forall i :: 0 <= i < k ==> ts[i].fromUserAccount == "") ==>
              FindSender(ts) == Some(ts[k])
    ensures ts[k].toUserAccount != "" && (forall i :: 0 <= i < k ==> ts[i].toUserAccount == "") ==>
              FindReceiver(ts) == Some(ts[k])
  {
    if k > 0 { FindsFirst(ts[1..], k - 1); }
  }

  /**
   * The leg sent is the first transfer with a sender, the leg received the first with a receiver.
   * Receiving SOL is a sale of the mint sent for the SOL received; receiving anything else is a
   * purchase of it, paid with what was sent.
   */
  lemma TradeOfLegs(row: Row, sent: nat, received: nat)
    requires row.kind == "SWAP" && sent < |row.transfers| && received < |row.transfers|
    requires row.transfers[sent].fromUserAccount != "" && forall i :: 0 <= i < sent ==> row.transfers[i].fromUserAccount == ""
    requires row.transfers[received].toUserAccount != "" && forall i :: 0 <= i < received ==> row.transfers[i].toUserAccount == ""
    ensures var out, into := row.transfers[sent], row.transfers[received];
            var sol := "So11111111111111111111111111111111111111112";
            && (TradeOf(row).None? <==>
                out.tokenAmount == 0.0 || into.tokenAmount == 0.0 ||
                into.mint == "" || (into.mint == sol && out.mint == ""))
            && (TradeOf(row).Some? && into.mint == sol ==>
                TradeOf(row).value == Trade(out.mint, false, into.tokenAmount, out.tokenAmount))
            && (TradeOf(row).Some? && into.mint != sol ==>
                TradeOf(row).value == Trade(into.mint, true, out.tokenAmount, into.tokenAmount))
  {
    FindsFirst(row.transfers, sent);
    FindsFirst(row.transfers, received);
  }

  function Max0(x: real): real { if x < 0.0 then 0.0 else x }

  // ---- The chart's accounting ----

  datatype Holding = Holding(tokens: real, spent: real)
  datatype Ledger = Ledger(holdings: map<string, Holding>, pnl: real)

  const NOTHING := Holding(0.0, 0.0)

  function HoldingOf(l: Ledger, mint: string): Holding {
    if mint in l.holdings then l.holdings[mint] else NOTHING
  }

  /** What the tokens of a sell cost on average, zero when nothing is held. */
  function CostOfSale(tokens: real, spent: real, sold: real): real {
    if tokens > 0.0 then sold * (spent / tokens) else 0.0
  }

  function ApplyTrade(l: Ledger, t: Trade): Ledger {
    var h := HoldingOf(l, t.mint);
    if t.isBuy then
      l.(holdings := l.holdings[t.mint := Holding(h.tokens + t.tokens, h.spent + t.sol)])
    else
      var cost := CostOfSale(h.tokens, h.spent, t.tokens);
      Ledger(l.holdings[t.mint := Holding(Max0(h.tokens - t.tokens), Max0(h.spent - cost))], l.pnl + t.sol - cost)
  }

  function ApplyRow(l: Ledger, row: Row): Ledger {
    match TradeOf(row)
    case None => l
    case Some(t) => ApplyTrade(l, t)
  }

  function ChartFold(rows: seq<Row>): Ledger {
    if rows == [] then Ledger(map[], 0.0) else ApplyRow(ChartFold(rows[..|rows| - 1]), rows[|rows| - 1])
  }

  // ---- The per-token table's accounting ----

  datatype Record = Record(pnl: real, investment: real, tokens: real, spent: real)

  const BLANK := Record(0.0, 0.0, 0.0, 0.0)

  function RecordOf(m: map<string, Record>, mint: string): Record {
    if mint in m then m[mint] else BLANK
  }

  /** The table also skips rows that carry no description. */
  function DescribedTradeOf(row: Row): Option<Trade> {
    if row.description == "" then None else TradeOf(row)
  }

  function SettleTrade(r: Record, t: Trade): Record {
    if t.isBuy then
      r.(tokens := r.tokens + t.tokens, spent := r.spent + t.sol, investment := r.investment + t.sol)
    else if r.tokens > 0.0 then
      var cost := CostOfSale(r.tokens, r.spent, t.tokens);
      r.(pnl := r.pnl + (t.sol - cost), tokens := Max0(r.tokens - t.tokens), spent := Max0(r.spent - cost))
    else r
  }

  function SettleRow(m: map<string, Record>, row: Row): map<string, Record> {
    match DescribedTradeOf(row)
    case None => m
    case Some(t) => m[t.mint := SettleTrade(RecordOf(m, t.mint), t)]
  }

  function TableFold(rows: seq<Row>): map<string, Record> {
    if rows == [] then map[] else SettleRow(TableFold(rows[..|rows| - 1]), rows[|rows| - 1])
  }

  // ---- Reachable states ----

  /** Nothing is negative, and tokens are held exactly when something was paid for them. */
  ghost predicate Sane(tokens: real, spent: real) {
    tokens >= 0.0 && spent >= 0.0 && (tokens == 0.0 <==> spent == 0.0)
  }

  lemma Average(tokens: real, spent: real) returns (avg: real)
    requires tokens > 0.0 && spent > 0.0
    ensures avg == spent / tokens && avg > 0.0 && avg * tokens == spent
  {
    avg := spent / tokens;
  }

  lemma ScaleBy(avg: real, x: real)
    requires avg > 0.0
    ensures x > 0.0 <==> avg * x > 0.0
    ensures x == 0.0 <==> avg * x == 0.0
    ensures x != 0.0 ==> (avg * x) / x == avg
  {
  }

  /** How a sell's cost compares with what was paid follows how its size compares with what is held. */
  lemma CostFollowsSize(tokens: real, spent: real, sold: real)
    requires Sane(tokens, spent) && tokens > 0.0 && sold > 0.0
    ensures var cost := CostOfSale(tokens, spent, sold);
            && cost > 0.0
            && (sold < tokens <==> cost < spent)
            && (sold == tokens <==> cost == spent)
            && (sold < tokens ==> (spent - cost) / (tokens - sold) == spent / tokens)
  {
    var avg := Average(tokens, spent);
    var cost := CostOfSale(tokens, spent, sold);
    assert cost == avg * sold;
    ScaleBy(avg, sold);
    ScaleBy(avg, tokens - sold);
    assert spent - cost == avg * (tokens - sold);
  }

  /** Whatever its size, a sale that meets a holding is charged the tokens sold at the average paid per token. */
  lemma SaleCost(tokens: real, spent: real, sold: real)
    requires tokens > 0.0
    ensures var cost := CostOfSale(tokens, spent, sold);
            cost * tokens == sold * spent && cost - spent == (sold - tokens) * spent / tokens
  {
    var avg := spent / tokens;
    assert avg * tokens == spent;
    assert CostOfSale(tokens, spent, sold) == avg * sold;
    TimesQuotient(sold, avg, tokens);
    ScaledDifference(sold - tokens, avg, tokens, spent);
  }

  lemma TimesQuotient(sold: real, avg: real, tokens: real)
    ensures avg * sold * tokens == sold * (avg * tokens)
  {
  }

  lemma ScaledDifference(excess: real, avg: real, tokens: real, spent: real)
    requires tokens > 0.0 && avg * tokens == spent
    ensures avg * excess == excess * spent / tokens
  {
    assert excess * spent == avg * excess * tokens;
  }

  lemma NothingHeldCostsNothing(spent: real, sold: real)
    ensures CostOfSale(0.0, spent, sold) == 0.0
  {
  }

  lemma SaleStaysSane(tokens: real, spent: real, sold: real)
    requires Sane(tokens, spent) && sold > 0.0
    ensures Sane(Max0(tokens - sold), Max0(spent - CostOfSale(tokens, spent, sold)))
  {
    if tokens > 0.0 {
      CostFollowsSize(tokens, spent, sold);
      hide CostOfSale;
    }
  }

  lemma {:induction false} TableIsSane(rows: seq<Row>, mint: string)
    ensures var r := RecordOf(TableFold(rows), mint); Sane(r.tokens, r.spent)
  {
    hide CostOfSale;
    if rows != [] {
      var init, row := rows[..|rows| - 1], rows[|rows| - 1];
      TableIsSane(init, mint);
      var r := RecordOf(TableFold(init), mint);
      match DescribedTradeOf(row)
      case None =>
      case Some(t) =>
        SaleStaysSane(r.tokens, r.spent, t.tokens);
    }
  }

  lemma {:induction false} ChartIsSane(rows: seq<Row>, mint: string)
    ensures var h := HoldingOf(ChartFold(rows), mint); Sane(h.tokens, h.spent)
  {
    hide CostOfSale;
    if rows != [] {
      var init, row := rows[..|rows| - 1], rows[|rows| - 1];
      ChartIsSane(init, mint);
      var h := HoldingOf(ChartFold(init), mint);
      match TradeOf(row)
      case None =>
      case Some(t) =>
        SaleStaysSane(h.tokens, h.spent, t.tokens);
    }
  }

  /** Selling part of a reachable holding leaves its average cost where it was: the chart. */
  lemma ChartPartialSellKeepsAverageCost(rows: seq<Row>, t: Trade)
    requires !t.isBuy && t.tokens < HoldingOf(ChartFold(rows), t.mint).tokens
    ensures var h, h' := HoldingOf(ChartFold(rows), t.mint), HoldingOf(ApplyTrade(ChartFold(rows), t), t.mint);
            h'.tokens > 0.0 && h'.spent / h'.tokens == h.spent / h.tokens
  {
    hide CostOfSale;
    ChartIsSane(rows, t.mint);
    var h := HoldingOf(ChartFold(rows), t.mint);
    CostFollowsSize(h.tokens, h.spent, t.tokens);
  }

  /** Selling part of a reachable holding leaves its average cost where it was: the table. */
  lemma TablePartialSellKeepsAverageCost(rows: seq<Row>, t: Trade)
    requires !t.isBuy && t.tokens < RecordOf(TableFold(rows), t.mint).tokens
    ensures var r := RecordOf(TableFold(rows), t.mint); var r' := SettleTrade(r, t);
            r'.tokens > 0.0 && r'.spent / r'.tokens == r.spent / r.tokens
  {
    hide CostOfSale;
    TableIsSane(rows, t.mint);
    var r := RecordOf(TableFold(rows), t.mint);
    CostFollowsSize(r.tokens, r.spent, t.tokens);
  }

  // ---- What one trade does ----

  /**
   * A buy adds what was paid and received. A sell that meets a holding gains its proceeds less the
   * tokens sold at the average paid, leaves the rest of the holding at that average or empties it;
   * a sell that meets none changes nothing.
   */
  lemma TableTradeIs(r: Record, t: Trade)
    requires r.tokens >= 0.0 && r.spent >= 0.0
    ensures var r' := SettleTrade(r, t);
            && (t.isBuy ==> r' == Record(r.pnl, r.investment + t.sol, r.tokens + t.tokens, r.spent + t.sol))
            && (!t.isBuy && r.tokens == 0.0 ==> r' == r)
            && (!t.isBuy && r.tokens > 0.0 ==>
                && r'.investment == r.investment
                && (r.pnl + t.sol - r'.pnl) * r.tokens == t.tokens * r.spent
                && r'.tokens == (if t.tokens < r.tokens then r.tokens - t.tokens else 0.0)
                && r'.spent * r.tokens == r'.tokens * r.spent)
  {
    hide CostOfSale;
    if !t.isBuy && r.tokens > 0.0 {
      SaleCost(r.tokens, r.spent, t.tokens);
      RestKeepsAverage(r.tokens, r.spent, t.tokens, CostOfSale(r.tokens, r.spent, t.tokens));
    }
  }

  lemma RestKeepsAverage(tokens: real, spent: real, sold: real, cost: real)
    requires tokens > 0.0 && spent >= 0.0 && sold > 0.0 && cost * tokens == sold * spent
    ensures Max0(spent - cost) * tokens == Max0(tokens - sold) * spent
  {
    Difference(spent, cost, tokens);
    Difference(tokens, sold, spent);
    assert (spent - cost) * tokens == (tokens - sold) * spent;
    SameSign(spent - cost, tokens, tokens - sold, spent);
  }

  lemma Difference(a: real, b: real, c: real)
    ensures (a - b) * c == a * c - b * c
  {
  }

  lemma SameSign(a: real, b: real, c: real, d: real)
    requires b > 0.0 && d >= 0.0 && a * b == c * d
    ensures Max0(a) * b == Max0(c) * d
  {
    if a < 0.0 {
      assert a * b < 0.0;
    } else if a > 0.0 {
      assert a * b > 0.0;
    }
  }

  /** The chart's holding moves in the same way; its pnl also takes the whole proceeds of a sell that meets none. */
  lemma ChartTradeIs(l: Ledger, t: Trade)
    requires HoldingOf(l, t.mint).tokens >= 0.0 && HoldingOf(l, t.mint).spent >= 0.0
    ensures var l' := ApplyTrade(l, t); var h, h' := HoldingOf(l, t.mint), HoldingOf(l', t.mint);
            && (forall other :: other != t.mint ==> HoldingOf(l', other) == HoldingOf(l, other))
            && (t.isBuy ==> l'.pnl == l.pnl && h' == Holding(h.tokens + t.tokens, h.spent + t.sol))
            && (!t.isBuy && h.tokens == 0.0 ==> l'.pnl == l.pnl + t.sol && h' == h)
            && (!t.isBuy && h.tokens > 0.0 ==>
                && (l.pnl + t.sol - l'.pnl) * h.tokens == t.tokens * h.spent
                && h'.tokens == (if t.tokens < h.tokens then h.tokens - t.tokens else 0.0)
                && h'.spent * h.tokens == h'.tokens * h.spent)
  {
    hide CostOfSale;
    var h := HoldingOf(l, t.mint);
    if !t.isBuy && h.tokens > 0.0 {
      SaleCost(h.tokens, h.spent, t.tokens);
      RestKeepsAverage(h.tokens, h.spent, t.tokens, CostOfSale(h.tokens, h.spent, t.tokens));
    } else {
      NothingHeldCostsNothing(h.spent, t.tokens);
    }
  }

  /** The table books the trade of a described swap and skips every other row; the chart asks for no description. */
  lemma RowsBooked(l: Ledger, m: map<string, Record>, row: Row)
    ensures row.description == "" || TradeOf(row).None? ==> SettleRow(m, row) == m
    ensures row.description != "" && TradeOf(row).Some? ==>
              var t := TradeOf(row).value;
              && RecordOf(SettleRow(m, row), t.mint) == SettleTrade(RecordOf(m, t.mint), t)
              && forall other :: other != t.mint ==> RecordOf(SettleRow(m, row), other) == RecordOf(m, other)
    ensures ApplyRow(l, row) == if TradeOf(row).None? then l else ApplyTrade(l, TradeOf(row).value)
    ensures row.kind != "SWAP" || FindSender(row.transfers).None? || FindReceiver(row.transfers).None? ==> TradeOf(row).None?
  {
    hide SettleTrade, ApplyTrade;
  }

  // ---- Conservation ----

  ghost function SaleProceeds(r: Record, t: Trade): real {
    if !t.isBuy && r.tokens > 0.0 then t.sol else 0.0
  }

  /** The tokens a sell gives beyond those held, at the average paid per token held. */
  ghost function SaleExcess(r: Record, t: Trade): real {
    if !t.isBuy && r.tokens > 0.0 && t.tokens > r.tokens then (t.tokens - r.tokens) * r.spent / r.tokens else 0.0
  }

  /** SOL received from the sells of one mint that met a holding. */
  ghost function CountedProceeds(rows: seq<Row>, mint: string): real {
    if rows == [] then 0.0 else
      var init := rows[..|rows| - 1];
      CountedProceeds(init, mint) +
      match DescribedTradeOf(rows[|rows| - 1])
      case Some(t) => if t.mint == mint then SaleProceeds(RecordOf(TableFold(init), mint), t) else 0.0
      case None => 0.0
  }

  ghost function OversoldCost(rows: seq<Row>, mint: string): real {
    if rows == [] then 0.0 else
      var init := rows[..|rows| - 1];
      OversoldCost(init, mint) +
      match DescribedTradeOf(rows[|rows| - 1])
      case Some(t) => if t.mint == mint then SaleExcess(RecordOf(TableFold(init), mint), t) else 0.0
      case None => 0.0
  }

  ghost predicate Oversells(r: Record, t: Trade) {
    !t.isBuy && r.tokens > 0.0 && t.tokens > r.tokens
  }

  /** No counted sell of the mint is larger than the holding it meets. */
  ghost predicate NeverOversold(rows: seq<Row>, mint: string) {
    forall i :: 0 <= i < |rows| ==>
      match DescribedTradeOf(rows[i])
      case Some(t) => t.mint == mint ==> !Oversells(RecordOf(TableFold(rows[..i]), mint), t)
      case None => true
  }

  lemma NeverOversoldPrefix(rows: seq<Row>, mint: string)
    requires rows != []
    ensures var init := rows[..|rows| - 1];
            NeverOversold(rows, mint) <==>
              NeverOversold(init, mint) &&
              match DescribedTradeOf(rows[|rows| - 1])
              case Some(t) => t.mint == mint ==> !Oversells(RecordOf(TableFold(init), mint), t)
              case None => true
  {
    var n := |rows| - 1;
    var init := rows[..n];
    forall i | 0 <= i < n
      ensures rows[..i] == init[..i] && rows[i] == init[i]
    {
    }
    assert rows[..n] == init;
  }

  /** One trade moves pnl + investment - spent by what the sell brought in, less the excess cost. */
  lemma SettleTradeConserves(r: Record, t: Trade)
    requires Sane(r.tokens, r.spent)
    ensures var r' := SettleTrade(r, t);
            r'.pnl + r'.investment - r'.spent == r.pnl + r.investment - r.spent + SaleProceeds(r, t) - SaleExcess(r, t)
    ensures SaleExcess(r, t) >= 0.0
    ensures SaleExcess(r, t) == 0.0 <==> !Oversells(r, t)
  {
    hide CostOfSale;
    if !t.isBuy && r.tokens > 0.0 {
      CostFollowsSize(r.tokens, r.spent, t.tokens);
      SaleCost(r.tokens, r.spent, t.tokens);
    }
  }

  /** Nothing the table books appears or vanishes, except the cost of selling more than was held. */
  lemma {:induction false} TableConserves(rows: seq<Row>, mint: string)
    ensures var r := RecordOf(TableFold(rows), mint);
            r.pnl + r.investment - r.spent == CountedProceeds(rows, mint) - OversoldCost(rows, mint)
    ensures OversoldCost(rows, mint) >= 0.0
    ensures OversoldCost(rows, mint) == 0.0 <==> NeverOversold(rows, mint)
  {
    if rows != [] {
      var init, row := rows[..|rows| - 1], rows[|rows| - 1];
      TableConserves(init, mint);
      TableIsSane(init, mint);
      NeverOversoldPrefix(rows, mint);
      match DescribedTradeOf(row)
      case None =>
      case Some(t) =>
        if t.mint == mint {
          SettleTradeConserves(RecordOf(TableFold(init), mint), t);
        }
    }
  }

  /** SOL paid and tokens received in the buys of one mint, and tokens given in its sells. */
  ghost function Total(rows: seq<Row>, mint: string, amount: Trade -> real): real {
    if rows == [] then 0.0 else
      Total(rows[..|rows| - 1], mint, amount) +
      match DescribedTradeOf(rows[|rows| - 1])
      case Some(t) => if t.mint == mint then amount(t) else 0.0
      case None => 0.0
  }

  ghost function SolPaid(t: Trade): real { if t.isBuy then t.sol else 0.0 }
  ghost function NetTokens(t: Trade): real { if t.isBuy then t.tokens else 0.0 - t.tokens }

  /** No sell of the mint gives more tokens than were held, not even when nothing was held. */
  ghost predicate AlwaysCovered(rows: seq<Row>, mint: string) {
    forall i :: 0 <= i < |rows| ==>
      match DescribedTradeOf(rows[i])
      case Some(t) => t.mint == mint && !t.isBuy ==> t.tokens <= RecordOf(TableFold(rows[..i]), mint).tokens
      case None => true
  }

  lemma AlwaysCoveredPrefix(rows: seq<Row>, mint: string)
    requires rows != []
    ensures var init := rows[..|rows| - 1];
            AlwaysCovered(rows, mint) <==>
              AlwaysCovered(init, mint) &&
              match DescribedTradeOf(rows[|rows| - 1])
              case Some(t) => t.mint == mint && !t.isBuy ==> t.tokens <= RecordOf(TableFold(init), mint).tokens
              case None => true
  {
    hide TableFold, DescribedTradeOf;
    var n := |rows| - 1;
    var init := rows[..n];
    forall i | 0 <= i < n
      ensures rows[..i] == init[..i] && rows[i] == init[i]
    {
    }
  }

  /**
   * The investment shown is all SOL ever paid for the mint. The tokens held are at least those
   * bought less those sold, and exactly those if and only if every sell was covered.
   */
  lemma {:induction false} TableCountsTrades(rows: seq<Row>, mint: string)
    ensures var r := RecordOf(TableFold(rows), mint);
            && r.investment == Total(rows, mint, SolPaid)
            && r.tokens >= Total(rows, mint, NetTokens)
            && (r.tokens == Total(rows, mint, NetTokens) <==> AlwaysCovered(rows, mint))
  {
    if rows != [] {
      hide CostOfSale, AlwaysCovered;
      var init, row := rows[..|rows| - 1], rows[|rows| - 1];
      TableCountsTrades(init, mint);
      TableIsSane(init, mint);
      AlwaysCoveredPrefix(rows, mint);
    }
  }

  // ---- The two engines against each other ----

  /** Every row that is a trade has a description, so both engines book the same rows. */
  ghost predicate AllDescribed(rows: seq<Row>) {
    forall i :: 0 <= i < |rows| && TradeOf(rows[i]).Some? ==> rows[i].description != ""
  }

  ghost function PnlWeight(r: Record): real { r.pnl }

  ghost function TotalPnl(m: map<string, Record>): real { SumReal(m, PnlWeight) }

  /** SOL received from sells that met no tracked holding, which only the chart counts. */
  ghost function UntrackedProceeds(rows: seq<Row>): real {
    if rows == [] then 0.0 else
      var init := rows[..|rows| - 1];
      UntrackedProceeds(init) +
      if OutOfNowhere(ChartFold(init), rows[|rows| - 1]) then TradeOf(rows[|rows| - 1]).value.sol else 0.0
  }

  ghost predicate OutOfNowhere(l: Ledger, row: Row) {
    match TradeOf(row)
    case Some(t) => !t.isBuy && HoldingOf(l, t.mint).tokens == 0.0
    case None => false
  }

  /** No sell comes out of nowhere: each meets a holding the rows before it built up. */
  ghost predicate EverySellTracked(rows: seq<Row>) {
    forall i :: 0 <= i < |rows| ==> !OutOfNowhere(ChartFold(rows[..i]), rows[i])
  }

  ghost predicate SameHoldings(l: Ledger, m: map<string, Record>) {
    && l.holdings.Keys == m.Keys
    && forall mint :: mint in m ==> l.holdings[mint] == Holding(m[mint].tokens, m[mint].spent)
  }

  /** Booking one trade in both engines keeps them in step. */
  lemma TradeKeepsAgreement(l: Ledger, m: map<string, Record>, t: Trade)
    requires SameHoldings(l, m)
    requires Sane(RecordOf(m, t.mint).tokens, RecordOf(m, t.mint).spent)
    ensures var l', m' := ApplyTrade(l, t), m[t.mint := SettleTrade(RecordOf(m, t.mint), t)];
            && SameHoldings(l', m')
            && l'.pnl - TotalPnl(m') == l.pnl - TotalPnl(m) +
               if !t.isBuy && HoldingOf(l, t.mint).tokens == 0.0 then t.sol else 0.0
  {
    hide CostOfSale;
    var r := RecordOf(m, t.mint);
    assert HoldingOf(l, t.mint) == Holding(r.tokens, r.spent);
    NothingHeldCostsNothing(r.spent, t.tokens);
    SumRealUpdate(m, t.mint, SettleTrade(r, t), PnlWeight);
  }

  lemma {:induction false} EnginesAgree(rows: seq<Row>)
    requires AllDescribed(rows)
    ensures SameHoldings(ChartFold(rows), TableFold(rows))
    ensures ChartFold(rows).pnl == TotalPnl(TableFold(rows)) + UntrackedProceeds(rows)
  {
    if rows != [] {
      hide ApplyTrade, SettleTrade;
      var init, row := rows[..|rows| - 1], rows[|rows| - 1];
      assert AllDescribed(init) by {
        forall i | 0 <= i < |init| ensures init[i] == rows[i] {}
      }
      EnginesAgree(init);
      match TradeOf(row)
      case None =>
        assert DescribedTradeOf(row) == None;
      case Some(t) =>
        assert DescribedTradeOf(row) == Some(t);
        TableIsSane(init, t.mint);
        TradeKeepsAgreement(ChartFold(init), TableFold(init), t);
    }
  }

  lemma EverySellTrackedPrefix(rows: seq<Row>)
    requires rows != []
    ensures var init := rows[..|rows| - 1];
            EverySellTracked(rows) <==> EverySellTracked(init) && !OutOfNowhere(ChartFold(init), rows[|rows| - 1])
  {
    hide ChartFold, OutOfNowhere;
    var n := |rows| - 1;
    var init := rows[..n];
    forall i | 0 <= i < n
      ensures rows[..i] == init[..i] && rows[i] == init[i]
    {
    }
  }

  lemma {:induction false} UntrackedExactly(rows: seq<Row>)
    ensures UntrackedProceeds(rows) >= 0.0
    ensures UntrackedProceeds(rows) == 0.0 <==> EverySellTracked(rows)
  {
    if rows != [] {
      hide ChartFold;
      UntrackedExactly(rows[..|rows| - 1]);
      EverySellTrackedPrefix(rows);
    }
  }

  /** The chart ends on the table's total exactly when no sell came out of nowhere. */
  lemma ChartTotalIsTableTotalIff(rows: seq<Row>)
    requires AllDescribed(rows)
    ensures ChartFold(rows).pnl == TotalPnl(TableFold(rows)) <==> EverySellTracked(rows)
  {
    EnginesAgree(rows);
    UntrackedExactly(rows);
  }
}
