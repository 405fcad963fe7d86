/**
 * The billing tables and the SQL statements that touch them, each one atomic step:
 * payment orders, credit balances and the daily free allowance.
 */
module Billing {
  import opened Wrappers

  datatype Status = Pending | Completed | Expired | Failed

  datatype Order = Order(
    userId: string, credits: nat, amountLamports: nat,
    status: Status, txSignature: Option<string>, expiresAt: int)

  datatype Db = Db(orders: map<string, Order>, balances: map<string, int>, usage: map<(string, int), int>)

  datatype Package = Package(credits: nat, lamports: nat)

  const PACKAGES: map<string, Package> := map[
    "credits_50" := Package(50, 50_000_000),
    "credits_120" := Package(120, 100_000_000)
  ]
  const ORDER_EXPIRY_MS := 30 * 60 * 1000
  const FREE_DAILY_QUOTA_LIMIT := 10

  datatype Source = Free | Paid

  function BalanceOf(db: Db, userId: string): int {
    if userId in db.balances then db.balances[userId] else 0
  }

  function FreeUsed(db: Db, userId: string, day: int): int {
    if (userId, day) in db.usage then db.usage[(userId, day)] else 0
  }

  // ---- Memos ----

  function BuildOrderMemo(orderId: string): string { "PAY:" + orderId }

  function ParseOrderIdFromMemo(memo: string): Option<string> {
    if "PAY:" <= memo then Some(memo[4..]) else None
  }

  lemma MemoRoundTrip(orderId: string, memo: string)
    ensures ParseOrderIdFromMemo(BuildOrderMemo(orderId)) == Some(orderId)
    ensures ParseOrderIdFromMemo(memo) == Some(orderId) ==> memo == BuildOrderMemo(orderId)
    ensures ParseOrderIdFromMemo(memo).Some? <==> |memo| >= 4 && memo[..4] == "PAY:"
  {
    assert BuildOrderMemo(orderId)[4..] == orderId;
    if "PAY:" <= memo {
      assert memo == "PAY:" + memo[4..];
    }
  }

  // ---- Orders ----

  /** A fresh order from a known package, or None when the package code is unknown. */
  function NewOrder(userId: string, packageCode: string, now: int): Option<Order> {
    if packageCode in PACKAGES then
      var pkg := PACKAGES[packageCode];
      Some(Order(userId, pkg.credits, pkg.lamports, Pending, None, now + ORDER_EXPIRY_MS))
    else None
  }

  datatype Completion = AlreadyProcessed | Credited(credits: nat) | DuplicateSignature

  ghost predicate SignatureTaken(db: Db, orderId: string, signature: string) {
    exists id :: id in db.orders && id != orderId && db.orders[id].txSignature == Some(signature)
  }

  lemma TakenByAnother(db: Db, orderId: string, order: Order, signature: string)
    ensures var orders' := db.orders[orderId := order];
            SignatureTaken(db, orderId, signature) <==>
            exists id :: id in orders' && id != orderId && orders'[id].txSignature == Some(signature)
  {
    var orders' := db.orders[orderId := order];
    assert forall id :: id != orderId ==> (id in db.orders <==> id in orders');
  }

  /** The whole completion transaction. A duplicate signature aborts it and leaves nothing behind. */
  ghost function CompleteOrder(db: Db, orderId: string, signature: string): (Db, Completion) {
    if orderId !in db.orders || db.orders[orderId].status != Pending then (db, AlreadyProcessed)
    else if SignatureTaken(db, orderId, signature) then (db, DuplicateSignature)
    else
      var order := db.orders[orderId];
      (db.(orders := db.orders[orderId := order.(status := Completed, txSignature := Some(signature))],
           balances := db.balances[order.userId := BalanceOf(db, order.userId) + order.credits]),
       Credited(order.credits))
  }

  function ExpireIfDue(order: Order, now: int): Order {
    if order.status == Pending && order.expiresAt < now then order.(status := Expired) else order
  }

  function ExpirePending(db: Db, now: int): Db {
    db.(orders := map id | id in db.orders :: ExpireIfDue(db.orders[id], now))
  }

  // ---- Quota ----

  /** First use of a day inserts the row, later uses add to it while the limit allows. */
  function ConsumeFree(db: Db, userId: string, day: int, amount: nat): (Db, bool) {
    var key := (userId, day);
    if key !in db.usage then
      (db.(usage := db.usage[key := if amount <= FREE_DAILY_QUOTA_LIMIT then amount else FREE_DAILY_QUOTA_LIMIT]), true)
    else if db.usage[key] + amount <= FREE_DAILY_QUOTA_LIMIT then
      (db.(usage := db.usage[key := db.usage[key] + amount]), true)
    else (db, false)
  }

  function ConsumePaid(db: Db, userId: string, amount: nat): (Db, bool) {
    if userId in db.balances && db.balances[userId] >= amount then
      (db.(balances := db.balances[userId := db.balances[userId] - amount]), true)
    else (db, false)
  }

  function RefundFree(db: Db, userId: string, day: int, amount: nat): Db {
    var key := (userId, day);
    if key in db.usage then
      db.(usage := db.usage[key := if db.usage[key] >= amount then db.usage[key] - amount else 0])
    else db
  }

  function RefundPaid(db: Db, userId: string, amount: nat): (Db, bool) {
    if userId in db.balances then
      (db.(balances := db.balances[userId := db.balances[userId] + amount]), true)
    else (db, false)
  }

  // ---- What the tables keep ----

  type Orders = map<string, Order>

  /** Completed orders carry a signature, no other order does, and no two share one. */
  ghost predicate OrdersSound(orders: Orders) {
    && (forall id :: id in orders ==> orders[id].status != Failed)
    && (forall id :: id in orders ==> (orders[id].status == Completed <==> orders[id].txSignature.Some?))
    && (forall id1, id2 :: id1 in orders && id2 in orders && id1 != id2 && orders[id1].txSignature.Some? ==>
          orders[id1].txSignature != orders[id2].txSignature)
  }

  ghost predicate CompletedIn(orders: Orders, id: string) {
    id in orders && orders[id].status == Completed
  }

  ghost predicate RowsBounded(usage: map<(string, int), int>) {
    forall key :: key in usage ==> 0 <= usage[key] <= FREE_DAILY_QUOTA_LIMIT
  }

  ghost predicate TablesValid(db: Db) {
    && OrdersSound(db.orders) && RowsBounded(db.usage)
    && forall u :: u in db.balances ==> db.balances[u] >= 0
  }

  lemma CompleteKeepsValid(db: Db, orderId: string, signature: string)
    requires TablesValid(db)
    ensures TablesValid(CompleteOrder(db, orderId, signature).0)
  {
  }

  lemma ExpireKeepsValid(db: Db, now: int)
    requires TablesValid(db)
    ensures TablesValid(ExpirePending(db, now))
  {
  }

  /** After a tick nothing is pending past its time, so a tick at any earlier time changes nothing. */
  lemma TickIsFinal(db: Db, now: int)
    ensures var db' := ExpirePending(db, now);
            && (forall id :: id in db'.orders && db'.orders[id].status == Pending ==> now <= db'.orders[id].expiresAt)
            && (forall id :: id in db'.orders && db'.orders[id] != db.orders[id] ==>
                  db.orders[id].status == Pending && db.orders[id].expiresAt < now && db'.orders[id].status == Expired)
            && (forall earlier :: earlier <= now ==> ExpirePending(db', earlier) == db')
  {
    forall earlier | earlier <= now
      ensures ExpirePending(ExpirePending(db, now), earlier) == ExpirePending(db, now)
    {
      EarlierTickIsVoid(db, now, earlier);
    }
  }

  lemma EarlierTickIsVoid(db: Db, now: int, earlier: int)
    requires earlier <= now
    ensures ExpirePending(ExpirePending(db, now), earlier) == ExpirePending(db, now)
  {
    var orders := ExpirePending(db, now).orders;
    assert forall id :: id in orders ==> ExpireIfDue(orders[id], earlier) == orders[id];
    assert ExpirePending(ExpirePending(db, now), earlier).orders == orders;
  }

  /** A use within the allowance is granted exactly when it fits what is left of it. */
  lemma FreeGrantedIff(db: Db, userId: string, day: int, amount: nat)
    requires amount <= FREE_DAILY_QUOTA_LIMIT
    ensures var (db', granted) := ConsumeFree(db, userId, day, amount);
            && (granted <==> FreeUsed(db, userId, day) + amount <= FREE_DAILY_QUOTA_LIMIT)
            && FreeUsed(db', userId, day) == FreeUsed(db, userId, day) + (if granted then amount else 0)
  {
  }

  lemma PaidGrantedIff(db: Db, userId: string, amount: nat)
    requires amount >= 1
    ensures var (db', granted) := ConsumePaid(db, userId, amount);
            && (granted <==> BalanceOf(db, userId) >= amount)
            && BalanceOf(db', userId) == BalanceOf(db, userId) - (if granted then amount else 0)
  {
  }

  // ---- A use and its refund ----

  /** Free first, then paid. */
  function Charge(db: Db, userId: string, day: int, amount: nat): (Db, Option<Source>) {
    var (db1, free) := ConsumeFree(db, userId, day, amount);
    if free then (db1, Some(Free)) else
      var (db2, paid) := ConsumePaid(db1, userId, amount);
      (db2, if paid then Some(Paid) else None)
  }

  function GiveBack(db: Db, userId: string, source: Source, day: int, amount: nat): Db {
    if source == Free then RefundFree(db, userId, day, amount) else RefundPaid(db, userId, amount).0
  }

  /** Two tables that no user, day or order can tell apart. */
  ghost predicate SameAccounts(db: Db, db': Db) {
    && db.orders == db'.orders
    && (forall u :: BalanceOf(db, u) == BalanceOf(db', u))
    && (forall u, day :: FreeUsed(db, u, day) == FreeUsed(db', u, day))
  }

  /**
   * A refund of a granted use leaves every account as before the use if and only if the use was
   * paid or the day has not changed since: a free unit refunded after midnight is not given back.
   */
  lemma RefundUndoesUseIff(db: Db, userId: string, day: int, amount: nat, refundDay: int)
    requires TablesValid(db) && amount >= 1 && Charge(db, userId, day, amount).1.Some?
    ensures var (db', source) := Charge(db, userId, day, amount);
            SameAccounts(db, GiveBack(db', userId, source.value, refundDay, amount)) <==>
            source == Some(Paid) || refundDay == day
  {
    var (db', source) := Charge(db, userId, day, amount);
    if source == Some(Free) && refundDay != day {
      FreeStaysUsed(db, userId, day, amount, refundDay);
    }
  }

  lemma FreeStaysUsed(db: Db, userId: string, day: int, amount: nat, refundDay: int)
    requires amount >= 1 && refundDay != day && ConsumeFree(db, userId, day, amount).1
    ensures FreeUsed(RefundFree(ConsumeFree(db, userId, day, amount).0, userId, refundDay, amount), userId, day) >
            FreeUsed(db, userId, day)
  {
  }

  /** The tables as the services write them, row by row. */
  class BillingTables {
    var orders: map<string, Order>
    var balances: map<string, int>
    var usage: map<(string, int), int>

    ghost function Tables(): Db
      reads this
    {
      Db(orders, balances, usage)
    }

    ghost predicate Valid()
      reads this
    {
      TablesValid(Tables())
    }

    constructor ()
      ensures Valid() && Tables() == Db(map[], map[], map[])
    {
      orders, balances, usage := map[], map[], map[];
    }

    /** A new order outlives exactly the ticks of its half hour, and pays out its package when completed. */
    method InsertOrder(id: string, userId: string, packageCode: string, now: int) returns (ok: bool)
      requires Valid() && id !in orders
      modifies this
      ensures Valid() && balances == old(balances) && usage == old(usage)
      ensures ok == NewOrder(userId, packageCode, now).Some?
      ensures Tables() == if ok then old(Tables()).(orders := old(orders)[id := NewOrder(userId, packageCode, now).value])
                          else old(Tables())
      ensures ok <==> packageCode == "credits_50" || packageCode == "credits_120"
      ensures ok ==>
                && orders[id].userId == userId
                && orders[id].credits == (if packageCode == "credits_50" then 50 else 120)
                && orders[id].amountLamports == (if packageCode == "credits_50" then 50_000_000 else 100_000_000)
      ensures ok ==> forall t :: ExpirePending(Tables(), t).orders[id].status == Pending <==> t <= now + 1_800_000
      ensures ok ==> forall signature :: !SignatureTaken(Tables(), id, signature) ==>
                       CompleteOrder(Tables(), id, signature).1 == Credited(PACKAGES[packageCode].credits)
    {
      ok := packageCode in PACKAGES;
      if !ok { return; }
      var pkg := PACKAGES[packageCode];
      orders := orders[id := Order(userId, pkg.credits, pkg.lamports, Pending, None, now + ORDER_EXPIRY_MS)];
    }

    /**
     * Two statements inside one transaction: flip the pending row, then add the credits to the
     * balance. The unique index on signatures fails the first one and rolls everything back.
     */
    method CompleteOrderTransaction(orderId: string, signature: string) returns (result: Completion)
      requires Valid()
      modifies this
      ensures Valid()
      ensures (Tables(), result) == CompleteOrder(old(Tables()), orderId, signature)
    {
      hide TablesValid;
      CompleteKeepsValid(Tables(), orderId, signature);
      var ordersBefore := orders;
      if orderId !in orders || orders[orderId].status != Pending {
        return AlreadyProcessed;
      }
      orders := orders[orderId := orders[orderId].(status := Completed, txSignature := Some(signature))];
      TakenByAnother(old(Tables()), orderId, orders[orderId], signature);
      if exists id :: id in orders && id != orderId && orders[id].txSignature == Some(signature) {
        orders := ordersBefore;
        return DuplicateSignature;
      }
      var credits, userId := orders[orderId].credits, orders[orderId].userId;
      if userId in balances {
        balances := balances[userId := balances[userId] + credits];
      } else {
        balances := balances[userId := credits];
      }
      return Credited(credits);
    }

    /** A tick leaves nothing for any earlier tick to do, and touches only overdue pending orders. */
    method ExpirePendingOrders(now: int)
      requires Valid()
      modifies this
      ensures Valid() && balances == old(balances) && usage == old(usage)
      ensures Tables() == ExpirePending(old(Tables()), now)
      ensures forall id :: id in orders && orders[id].status == Pending ==> now <= orders[id].expiresAt
      ensures forall id :: id in orders && orders[id] != old(orders)[id] ==>
                old(orders)[id].status == Pending && old(orders)[id].expiresAt < now && orders[id].status == Expired
      ensures forall earlier :: earlier <= now ==> ExpirePending(Tables(), earlier) == Tables()
    {
      ghost var before := Tables();
      orders := map id | id in orders ::
        if orders[id].status == Pending && orders[id].expiresAt < now then orders[id].(status := Expired) else orders[id];
      assert Tables() == ExpirePending(before, now);
      ExpireKeepsValid(before, now);
      TickIsFinal(before, now);
      hide TablesValid, ExpirePending;
    }

    method ConsumeFreeQuota(userId: string, day: int, amount: nat) returns (granted: bool)
      requires Valid()
      modifies this`usage
      ensures Valid()
      ensures (Tables(), granted) == ConsumeFree(old(Tables()), userId, day, amount)
    {
      var key := (userId, day);
      if key !in usage {
        var least := amount;
        if least > FREE_DAILY_QUOTA_LIMIT { least := FREE_DAILY_QUOTA_LIMIT; }
        usage := usage[key := least];
        return true;
      }
      granted := usage[key] + amount <= FREE_DAILY_QUOTA_LIMIT;
      if granted { usage := usage[key := usage[key] + amount]; }
    }

    method ConsumePaidCredits(userId: string, amount: nat) returns (granted: bool)
      requires Valid()
      modifies this`balances
      ensures Valid()
      ensures (Tables(), granted) == ConsumePaid(old(Tables()), userId, amount)
    {
      granted := userId in balances && balances[userId] >= amount;
      if granted { balances := balances[userId := balances[userId] - amount]; }
    }

    /**
     * A use of at most the allowance is charged once, to the free units when it fits what is left
     * of them and else to the balance when that covers it, and to nobody else.
     */
    method ConsumeQuota(userId: string, day: int, amount: nat) returns (source: Option<Source>)
      requires Valid()
      modifies this`usage, this`balances
      ensures Valid() && (Tables(), source) == Charge(old(Tables()), userId, day, amount)
      ensures 1 <= amount <= 10 ==>
                var left := 10 - FreeUsed(old(Tables()), userId, day);
                var free := FreeUsed(Tables(), userId, day) - FreeUsed(old(Tables()), userId, day);
                var paid := BalanceOf(old(Tables()), userId) - BalanceOf(Tables(), userId);
                && (source == Some(Free) <==> amount <= left)
                && (source == Some(Paid) <==> left < amount <= BalanceOf(old(Tables()), userId))
                && free >= 0 && paid >= 0 && free + paid == if source.Some? then amount else 0
      ensures forall u :: u != userId ==> BalanceOf(Tables(), u) == BalanceOf(old(Tables()), u)
      ensures forall u, d :: (u, d) != (userId, day) ==> FreeUsed(Tables(), u, d) == FreeUsed(old(Tables()), u, d)
    {
      if 1 <= amount <= FREE_DAILY_QUOTA_LIMIT {
        FreeGrantedIff(Tables(), userId, day, amount);
        PaidGrantedIff(Tables(), userId, amount);
      }
      var free := ConsumeFreeQuota(userId, day, amount);
      if free { return Some(Free); }
      var paid := ConsumePaidCredits(userId, amount);
      return if paid then Some(Paid) else None;
    }

    method RefundFreeQuota(userId: string, day: int, amount: nat)
      requires Valid()
      modifies this`usage
      ensures Valid()
      ensures Tables() == RefundFree(old(Tables()), userId, day, amount)
    {
      var key := (userId, day);
      if key in usage {
        var greatest := usage[key] - amount;
        if greatest < 0 { greatest := 0; }
        usage := usage[key := greatest];
      }
    }

    method RefundPaidCredits(userId: string, amount: nat) returns (found: bool)
      requires Valid()
      modifies this`balances
      ensures Valid()
      ensures (Tables(), found) == RefundPaid(old(Tables()), userId, amount)
    {
      found := userId in balances;
      if found { balances := balances[userId := balances[userId] + amount]; }
    }

    /** Undoes a granted use, by RefundUndoesUseIff, as long as it was paid or the day is the same. */
    method RefundQuota(userId: string, source: Source, day: int, amount: nat)
      requires Valid()
      modifies this`usage, this`balances
      ensures Valid() && Tables() == GiveBack(old(Tables()), userId, source, day, amount)
      ensures forall before: Db ::
                && TablesValid(before) && amount >= 1
                && Charge(before, userId, day, amount) == (old(Tables()), Some(source))
                ==> SameAccounts(before, Tables())
    {
      forall before: Db |
        && TablesValid(before) && amount >= 1
        && Charge(before, userId, day, amount) == (Tables(), Some(source))
        ensures SameAccounts(before, GiveBack(Tables(), userId, source, day, amount))
      {
        RefundUndoesUseIff(before, userId, day, amount, day);
      }
      hide SameAccounts, Charge, TablesValid;
      if source == Free {
        RefundFreeQuota(userId, day, amount);
        return;
      }
      var _ := RefundPaidCredits(userId, amount);
    }
  }
}
