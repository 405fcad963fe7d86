/**
 * Every actor that touches the billing tables, interleaved at the grain of single SQL statements:
 * clients submitting payments, the on-chain transfer listener, the expiry cron, and callers
 * consuming and refunding quota.
 */
module BillingProtocol {
  import opened Wrappers
  import opened MapSum
  import opened Billing
  import opened QuotaClock

  datatype SubmitReply =
    | NotFound
    | Rejected(status: Status)
    | SendFailed
    | SignatureConflict
    | Succeeded(creditsAdded: nat, alreadyProcessed: bool)

  datatype SubmitPhase = Sending | Confirmed(signature: string) | Answered(reply: SubmitReply)
  datatype ConsumePhase = TryFree | TryPaid | Granted(source: Source) | Denied

  /** One request in progress or answered, with what it read so far. */
  datatype Call =
    | Submit(orderId: string, credits: nat, submitPhase: SubmitPhase)
    | Consume(userId: string, day: int, amount: nat, consumePhase: ConsumePhase)
    | Refund(userId: string, day: int, amount: nat, refundOf: Source, applied: bool)

  /** One execution of the crediting statement; kept only to count them. */
  datatype Grant = Grant(orderId: string, userId: string, credits: nat)

  datatype System = System(db: Db, calls: map<nat, Call>, grants: seq<Grant>)

  datatype Event =
    | CreateOrder(id: string, userId: string, packageCode: string, now: int)
    | SubmitRead(call: nat, userId: string, orderId: string)
    | SubmitSend(call: nat, confirmed: Option<string>)
    | SubmitComplete(call: nat)
    | Transfer(merchantWallet: string, toWallet: string, lamports: nat, memo: string, signature: string)
    | ExpireTick(now: int)
    | ConsumeStart(call: nat, userId: string, amount: nat, now: int)
    | ConsumeFreeStatement(call: nat)
    | ConsumePaidStatement(call: nat)
    | RefundStatement(call: nat, userId: string, source: Source, amount: nat, now: int)

  const EMPTY := System(Db(map[], map[], map[]), map[], [])

  // ---- Steps ----

  ghost function Complete(s: System, orderId: string, signature: string): (System, Completion) {
    var (db', result) := Billing.CompleteOrder(s.db, orderId, signature);
    var grants' := if result.Credited? then s.grants + [Grant(orderId, s.db.orders[orderId].userId, result.credits)]
                   else s.grants;
    (s.(db := db', grants := grants'), result)
  }

  /** What submitPayment does on reading the order, before anything is sent. */
  function ReadForSubmit(db: Db, userId: string, orderId: string): Call {
    if orderId !in db.orders || db.orders[orderId].userId != userId then Submit(orderId, 0, Answered(NotFound)) else
      var order := db.orders[orderId];
      Submit(orderId, order.credits,
             if order.status == Completed then Answered(Succeeded(order.credits, true))
             else if order.status != Pending then Answered(Rejected(order.status))
             else Sending)
  }

  /** The order a transfer event completes, or None where the listener returns early. */
  function OrderPaidBy(merchantWallet: string, toWallet: string, memo: string): Option<string> {
    if merchantWallet == "" || toWallet != merchantWallet || memo == "" then None else
      match ParseOrderIdFromMemo(memo)
      case Some(orderId) => if orderId == "" then None else Some(orderId)
      case None => None
  }

  function ReplyTo(result: Completion, creditsRead: nat): SubmitReply {
    match result
    case AlreadyProcessed => Succeeded(creditsRead, true)
    case Credited(credits) => Succeeded(credits, false)
    case DuplicateSignature => SignatureConflict
  }

  ghost predicate InPhase(s: System, call: nat, phase: SubmitPhase) {
    call in s.calls && s.calls[call].Submit? && s.calls[call].submitPhase == phase
  }

  ghost predicate Consuming(s: System, call: nat, phase: ConsumePhase) {
    call in s.calls && s.calls[call].Consume? && s.calls[call].consumePhase == phase
  }

  ghost function FinishSubmit(s: System, call: nat): System
    requires call in s.calls && s.calls[call].Submit? && s.calls[call].submitPhase.Confirmed?
  {
    var c := s.calls[call];
    var (s', result) := Complete(s, c.orderId, c.submitPhase.signature);
    s'.(calls := s.calls[call := c.(submitPhase := Answered(ReplyTo(result, c.credits)))])
  }

  ghost function Apply(s: System, e: Event): System {
    match e
    case CreateOrder(id, userId, packageCode, now) =>
      (match NewOrder(userId, packageCode, now)
       case Some(order) => if id in s.db.orders then s else s.(db := s.db.(orders := s.db.orders[id := order]))
       case None => s)
    case SubmitRead(call, userId, orderId) =>
      if call in s.calls then s else s.(calls := s.calls[call := ReadForSubmit(s.db, userId, orderId)])
    case SubmitSend(call, confirmed) =>
      if !InPhase(s, call, Sending) then s else
        var phase := if confirmed.Some? then Confirmed(confirmed.value) else Answered(SendFailed);
        s.(calls := s.calls[call := s.calls[call].(submitPhase := phase)])
    case SubmitComplete(call) =>
      if call in s.calls && s.calls[call].Submit? && s.calls[call].submitPhase.Confirmed? then FinishSubmit(s, call) else s
    case Transfer(merchantWallet, toWallet, _, memo, signature) =>
      (match OrderPaidBy(merchantWallet, toWallet, memo)
       case Some(orderId) => Complete(s, orderId, signature).0
       case None => s)
    case ExpireTick(now) => s.(db := ExpirePending(s.db, now))
    case ConsumeStart(call, userId, amount, now) =>
      if call in s.calls then s
      else s.(calls := s.calls[call := Consume(userId, UsageDay(now), amount, TryFree)])
    case ConsumeFreeStatement(call) =>
      if !Consuming(s, call, TryFree) then s else
        var c := s.calls[call];
        var (db', granted) := ConsumeFree(s.db, c.userId, c.day, c.amount);
        s.(db := db', calls := s.calls[call := c.(consumePhase := if granted then Granted(Free) else TryPaid)])
    case ConsumePaidStatement(call) =>
      if !Consuming(s, call, TryPaid) then s else
        var c := s.calls[call];
        var (db', granted) := ConsumePaid(s.db, c.userId, c.amount);
        s.(db := db', calls := s.calls[call := c.(consumePhase := if granted then Granted(Paid) else Denied)])
    case RefundStatement(call, userId, source, amount, now) =>
      if call in s.calls then s
      else if source == Free then
        s.(db := RefundFree(s.db, userId, UsageDay(now), amount),
           calls := s.calls[call := Refund(userId, UsageDay(now), amount, Free, true)])
      else
        var (db', found) := RefundPaid(s.db, userId, amount);
        s.(db := db', calls := s.calls[call := Refund(userId, UsageDay(now), amount, Paid, found)])
  }

  /** Any interleaving of events, from empty tables. */
  ghost function Run(es: seq<Event>): System {
    if es == [] then EMPTY else Apply(Run(es[..|es| - 1]), es[|es| - 1])
  }

  // ---- The ledger ----

  ghost function CreditsTo(u: string): Order -> int {
    (o: Order) => if o.userId == u && o.status == Completed then o.credits else 0
  }

  ghost function PaidBy(u: string): Call -> int {
    (c: Call) => if c.Consume? && c.userId == u && c.consumePhase == Granted(Paid) then c.amount else 0
  }

  ghost function RefundedTo(u: string): Call -> int {
    (c: Call) => if c.Refund? && c.userId == u && c.refundOf == Paid && c.applied then c.amount else 0
  }

  /** A user's balance is what their completed orders bought, less what calls were told they paid, plus refunds. */
  ghost predicate Reconciled(s: System, u: string) {
    && BalanceOf(s.db, u) == SumInt(s.db.orders, CreditsTo(u)) - SumInt(s.calls, PaidBy(u)) + SumInt(s.calls, RefundedTo(u))
    && BalanceOf(s.db, u) >= 0
  }

  lemma OrdersMove(s: System, id: string, order: Order, u: string)
    ensures SumInt(s.db.orders[id := order], CreditsTo(u)) ==
            SumInt(s.db.orders, CreditsTo(u)) - (if id in s.db.orders then CreditsTo(u)(s.db.orders[id]) else 0) + CreditsTo(u)(order)
  {
    SumIntUpdate(s.db.orders, id, order, CreditsTo(u));
  }

  lemma CallsMove(s: System, call: nat, c: Call, u: string)
    ensures SumInt(s.calls[call := c], PaidBy(u)) ==
            SumInt(s.calls, PaidBy(u)) - (if call in s.calls then PaidBy(u)(s.calls[call]) else 0) + PaidBy(u)(c)
    ensures SumInt(s.calls[call := c], RefundedTo(u)) ==
            SumInt(s.calls, RefundedTo(u)) - (if call in s.calls then RefundedTo(u)(s.calls[call]) else 0) + RefundedTo(u)(c)
  {
    SumIntUpdate(s.calls, call, c, PaidBy(u));
    SumIntUpdate(s.calls, call, c, RefundedTo(u));
  }

  lemma CompleteReconciles(s: System, orderId: string, signature: string, u: string)
    requires Reconciled(s, u)
    ensures Reconciled(Complete(s, orderId, signature).0, u)
  {
    hide SumInt, SignatureTaken;
    if orderId in s.db.orders {
      var order := s.db.orders[orderId];
      OrdersMove(s, orderId, order.(status := Completed, txSignature := Some(signature)), u);
    }
  }

  lemma CallReconciles(s: System, call: nat, c: Call, u: string)
    requires Reconciled(s, u)
    requires PaidBy(u)(c) == RefundedTo(u)(c) == 0
    requires call in s.calls ==> PaidBy(u)(s.calls[call]) == RefundedTo(u)(s.calls[call]) == 0
    ensures Reconciled(s.(calls := s.calls[call := c]), u)
  {
    hide SumInt;
    CallsMove(s, call, c, u);
  }

  lemma ExpireReconciles(s: System, now: int, u: string)
    requires Reconciled(s, u)
    ensures Reconciled(s.(db := ExpirePending(s.db, now)), u)
  {
    SumIntSame(s.db.orders, ExpirePending(s.db, now).orders, CreditsTo(u));
  }

  lemma ConsumeReconciles(s: System, call: nat, u: string)
    requires Reconciled(s, u)
    ensures Reconciled(Apply(s, ConsumeFreeStatement(call)), u)
    ensures Reconciled(Apply(s, ConsumePaidStatement(call)), u)
  {
    hide SumInt;
    if Consuming(s, call, TryFree) {
      CallsMove(s, call, Apply(s, ConsumeFreeStatement(call)).calls[call], u);
    }
    if Consuming(s, call, TryPaid) {
      CallsMove(s, call, Apply(s, ConsumePaidStatement(call)).calls[call], u);
    }
  }

  lemma RefundReconciles(s: System, call: nat, userId: string, source: Source, amount: nat, now: int, u: string)
    requires Reconciled(s, u)
    ensures Reconciled(Apply(s, RefundStatement(call, userId, source, amount, now)), u)
  {
    hide SumInt, UsageDay;
    if call !in s.calls {
      CallsMove(s, call, Apply(s, RefundStatement(call, userId, source, amount, now)).calls[call], u);
    }
  }

  lemma SubmitReconciles(s: System, e: Event, u: string)
    requires Reconciled(s, u)
    requires e.SubmitRead? || e.SubmitSend? || e.SubmitComplete?
    ensures Reconciled(Apply(s, e), u)
  {
    hide SumInt, Complete;
    var call := e.call;
    var s1 := s;
    if e.SubmitComplete? && call in s.calls && s.calls[call].Submit? && s.calls[call].submitPhase.Confirmed? {
      var c := s.calls[call];
      CompleteReconciles(s, c.orderId, c.submitPhase.signature, u);
      s1 := Complete(s, c.orderId, c.submitPhase.signature).0;
      CompleteKeepsCalls(s, c.orderId, c.submitPhase.signature);
    }
    var s' := Apply(s, e);
    if s'.calls != s.calls {
      CallReconciles(s1, call, s'.calls[call], u);
    }
  }

  lemma CompleteKeepsCalls(s: System, orderId: string, signature: string)
    ensures Complete(s, orderId, signature).0.calls == s.calls
  {
  }

  lemma StepReconciles(s: System, e: Event, u: string)
    requires Reconciled(s, u)
    ensures Reconciled(Apply(s, e), u)
  {
    hide SumInt, Complete, Reconciled;
    match e
    case CreateOrder(id, userId, packageCode, now) =>
      if NewOrder(userId, packageCode, now).Some? && id !in s.db.orders {
        NewOrderReconciles(s, id, NewOrder(userId, packageCode, now).value, u);
      }
    case Transfer(merchantWallet, toWallet, _, memo, signature) =>
      var paid := OrderPaidBy(merchantWallet, toWallet, memo);
      if paid.Some? { CompleteReconciles(s, paid.value, signature, u); }
    case ExpireTick(now) =>
      ExpireReconciles(s, now, u);
    case ConsumeStart(call, userId, amount, now) =>
      if call !in s.calls { CallReconciles(s, call, Consume(userId, UsageDay(now), amount, TryFree), u); }
    case ConsumeFreeStatement(call) =>
      ConsumeReconciles(s, call, u);
    case ConsumePaidStatement(call) =>
      ConsumeReconciles(s, call, u);
    case RefundStatement(call, userId, source, amount, now) =>
      RefundReconciles(s, call, userId, source, amount, now, u);
    case _ =>
      SubmitReconciles(s, e, u);
  }

  lemma NewOrderReconciles(s: System, id: string, order: Order, u: string)
    requires Reconciled(s, u) && id !in s.db.orders && order.status == Pending
    ensures Reconciled(s.(db := s.db.(orders := s.db.orders[id := order])), u)
  {
    hide SumInt;
    OrdersMove(s, id, order, u);
  }

  lemma {:induction false} BalancesReconcile(es: seq<Event>, u: string)
    ensures Reconciled(Run(es), u)
  {
    if es != [] {
      BalancesReconcile(es[..|es| - 1], u);
      StepReconciles(Run(es[..|es| - 1]), es[|es| - 1], u);
    }
  }

  // ---- What every reachable state keeps ----

  ghost function TimesCredited(grants: seq<Grant>, orderId: string): nat {
    if grants == [] then 0 else
      TimesCredited(grants[..|grants| - 1], orderId) + if grants[|grants| - 1].orderId == orderId then 1 else 0
  }

  /** The crediting statement ran once for each completed order, with its owner and credits, and for no other. */
  ghost predicate GrantsSound(orders: Orders, grants: seq<Grant>) {
    && (forall id :: TimesCredited(grants, id) == if CompletedIn(orders, id) then 1 else 0)
    && (forall i :: 0 <= i < |grants| ==>
          var g := grants[i];
          g.orderId in orders && g.userId == orders[g.orderId].userId && g.credits == orders[g.orderId].credits)
  }

  /** A submission under way, or answered with success, read the credits its order carries. */
  ghost predicate SubmissionSound(orders: Orders, c: Call) {
    c.Submit? ==>
      match c.submitPhase
      case Answered(Succeeded(creditsAdded, _)) =>
        c.orderId in orders && c.credits == creditsAdded == orders[c.orderId].credits
      case Answered(_) => true
      case _ => c.orderId in orders && c.credits == orders[c.orderId].credits
  }

  ghost predicate SubmissionsSound(orders: Orders, calls: map<nat, Call>) {
    forall call :: call in calls ==> SubmissionSound(orders, calls[call])
  }

  ghost predicate TablesSound(s: System) {
    OrdersSound(s.db.orders) && GrantsSound(s.db.orders, s.grants) && RowsBounded(s.db.usage)
  }

  ghost predicate Inv(s: System) {
    TablesSound(s) && SubmissionsSound(s.db.orders, s.calls)
  }

  /** Orders only appear, never change owner or credits, and never change at all once out of Pending. */
  ghost predicate OrdersAdvance(orders: Orders, orders': Orders) {
    forall id :: id in orders ==>
      && id in orders'
      && orders'[id].userId == orders[id].userId
      && orders'[id].credits == orders[id].credits
      && (orders[id].status != Pending ==> orders'[id] == orders[id])
  }

  lemma CompletionKeepsOrders(orders: Orders, id: string, signature: string)
    requires OrdersSound(orders) && id in orders && orders[id].status == Pending
    requires forall other :: other in orders && other != id ==> orders[other].txSignature != Some(signature)
    ensures var orders' := orders[id := orders[id].(status := Completed, txSignature := Some(signature))];
            OrdersSound(orders') && OrdersAdvance(orders, orders')
  {
  }

  lemma CompletionIsGrantedOnce(orders: Orders, grants: seq<Grant>, id: string, signature: string)
    requires GrantsSound(orders, grants) && id in orders && orders[id].status == Pending
    ensures var orders' := orders[id := orders[id].(status := Completed, txSignature := Some(signature))];
            GrantsSound(orders', grants + [Grant(id, orders[id].userId, orders[id].credits)])
  {
    var g := Grant(id, orders[id].userId, orders[id].credits);
    assert (grants + [g])[..|grants|] == grants;
  }

  lemma CompleteKeepsSound(s: System, orderId: string, signature: string)
    requires TablesSound(s)
    ensures var s' := Complete(s, orderId, signature).0;
            TablesSound(s') && OrdersAdvance(s.db.orders, s'.db.orders)
  {
    var (s', result) := Complete(s, orderId, signature);
    assert OrdersAdvance(s.db.orders, s.db.orders);
    hide OrdersSound, GrantsSound, RowsBounded, OrdersAdvance;
    if result.Credited? {
      CompletionKeepsOrders(s.db.orders, orderId, signature);
      CompletionIsGrantedOnce(s.db.orders, s.grants, orderId, signature);
    }
  }

  lemma NewOrderKeepsSound(orders: Orders, grants: seq<Grant>, id: string, order: Order)
    requires OrdersSound(orders) && GrantsSound(orders, grants)
    requires id !in orders && order.status == Pending && order.txSignature == None
    ensures var orders' := orders[id := order];
            OrdersSound(orders') && GrantsSound(orders', grants) && OrdersAdvance(orders, orders')
  {
    hide TimesCredited;
  }

  lemma ExpireKeepsOrders(db: Db, now: int)
    requires OrdersSound(db.orders)
    ensures var orders' := ExpirePending(db, now).orders; OrdersSound(orders') && OrdersAdvance(db.orders, orders')
  {
  }

  lemma ExpireKeepsGrants(db: Db, grants: seq<Grant>, now: int)
    requires GrantsSound(db.orders, grants)
    ensures GrantsSound(ExpirePending(db, now).orders, grants)
  {
    hide TimesCredited;
    var orders' := ExpirePending(db, now).orders;
    assert forall id :: CompletedIn(orders', id) == CompletedIn(db.orders, id);
  }

  lemma QuotaKeepsRows(db: Db, userId: string, day: int, amount: nat)
    requires RowsBounded(db.usage)
    ensures var db' := ConsumeFree(db, userId, day, amount).0; RowsBounded(db'.usage) && db'.orders == db.orders
    ensures var db' := RefundFree(db, userId, day, amount); RowsBounded(db'.usage) && db'.orders == db.orders
  {
  }

  lemma PaidMovesBalancesOnly(db: Db, userId: string, amount: nat)
    ensures ConsumePaid(db, userId, amount).0.orders == RefundPaid(db, userId, amount).0.orders == db.orders
    ensures ConsumePaid(db, userId, amount).0.usage == RefundPaid(db, userId, amount).0.usage == db.usage
  {
  }

  lemma CompletionStepKeepsTables(s: System, e: Event)
    requires TablesSound(s) && (e.SubmitComplete? || e.Transfer?)
    ensures TablesSound(Apply(s, e)) && OrdersAdvance(s.db.orders, Apply(s, e).db.orders)
  {
    assert OrdersAdvance(s.db.orders, s.db.orders);
    hide OrdersSound, GrantsSound, RowsBounded, OrdersAdvance, SignatureTaken, Complete, ReplyTo, OrderPaidBy;
    match e
    case SubmitComplete(call) =>
      if call in s.calls && s.calls[call].Submit? && s.calls[call].submitPhase.Confirmed? {
        CompleteKeepsSound(s, s.calls[call].orderId, s.calls[call].submitPhase.signature);
      }
    case Transfer(merchantWallet, toWallet, _, memo, signature) =>
      var paid := OrderPaidBy(merchantWallet, toWallet, memo);
      if paid.Some? { CompleteKeepsSound(s, paid.value, signature); }
  }

  lemma QuotaStepKeepsTables(s: System, e: Event)
    requires TablesSound(s)
    requires e.ConsumeStart? || e.ConsumeFreeStatement? || e.ConsumePaidStatement? || e.RefundStatement?
    ensures TablesSound(Apply(s, e)) && Apply(s, e).db.orders == s.db.orders
  {
    hide OrdersSound, GrantsSound, RowsBounded, ConsumeFree, RefundFree, ConsumePaid, RefundPaid, UsageDay;
    match e
    case ConsumeFreeStatement(call) =>
      if Consuming(s, call, TryFree) { QuotaKeepsRows(s.db, s.calls[call].userId, s.calls[call].day, s.calls[call].amount); }
    case ConsumePaidStatement(call) =>
      if Consuming(s, call, TryPaid) { PaidMovesBalancesOnly(s.db, s.calls[call].userId, s.calls[call].amount); }
    case RefundStatement(call, userId, source, amount, now) =>
      QuotaKeepsRows(s.db, userId, UsageDay(now), amount);
      PaidMovesBalancesOnly(s.db, userId, amount);
    case _ =>
  }

  lemma OrderStepKeepsTables(s: System, e: Event)
    requires TablesSound(s)
    requires e.CreateOrder? || e.SubmitRead? || e.SubmitSend? || e.ExpireTick?
    ensures TablesSound(Apply(s, e)) && OrdersAdvance(s.db.orders, Apply(s, e).db.orders)
  {
    assert OrdersAdvance(s.db.orders, s.db.orders);
    hide OrdersSound, GrantsSound, RowsBounded, OrdersAdvance, ReadForSubmit;
    match e
    case CreateOrder(id, userId, packageCode, now) =>
      var order := NewOrder(userId, packageCode, now);
      if order.Some? && id !in s.db.orders { NewOrderKeepsSound(s.db.orders, s.grants, id, order.value); }
    case ExpireTick(now) =>
      ExpireKeepsOrders(s.db, now);
      ExpireKeepsGrants(s.db, s.grants, now);
    case _ =>
  }

  lemma StepKeepsTables(s: System, e: Event)
    requires TablesSound(s)
    ensures TablesSound(Apply(s, e)) && OrdersAdvance(s.db.orders, Apply(s, e).db.orders)
  {
    hide Apply, TablesSound;
    if e.SubmitComplete? || e.Transfer? {
      CompletionStepKeepsTables(s, e);
    } else if e.CreateOrder? || e.SubmitRead? || e.SubmitSend? || e.ExpireTick? {
      OrderStepKeepsTables(s, e);
    } else {
      QuotaStepKeepsTables(s, e);
    }
  }

  /** Submissions stay sound while orders only advance. */
  lemma SubmissionsFollow(orders: Orders, orders': Orders, calls: map<nat, Call>)
    requires SubmissionsSound(orders, calls) && OrdersAdvance(orders, orders')
    ensures SubmissionsSound(orders', calls)
  {
  }

  lemma FinishSubmitKeepsSubmissions(s: System, call: nat)
    requires Inv(s)
    requires call in s.calls && s.calls[call].Submit? && s.calls[call].submitPhase.Confirmed?
    ensures SubmissionsSound(FinishSubmit(s, call).db.orders, FinishSubmit(s, call).calls)
  {
    hide GrantsSound, OrdersSound, RowsBounded, SignatureTaken;
    var c := s.calls[call];
    CompleteKeepsSound(s, c.orderId, c.submitPhase.signature);
    var s1 := Complete(s, c.orderId, c.submitPhase.signature).0;
    SubmissionsFollow(s.db.orders, s1.db.orders, s.calls);
    assert SubmissionSound(s.db.orders, c);
  }

  lemma StepKeepsSubmissions(s: System, e: Event)
    requires Inv(s)
    ensures SubmissionsSound(Apply(s, e).db.orders, Apply(s, e).calls)
  {
    hide GrantsSound, OrdersSound, RowsBounded, OrdersAdvance, SignatureTaken, Complete, ConsumeFree, ConsumePaid,
         RefundFree, RefundPaid, ExpirePending, NewOrder, UsageDay;
    StepKeepsTables(s, e);
    SubmissionsFollow(s.db.orders, Apply(s, e).db.orders, s.calls);
    match e
    case SubmitComplete(call) =>
      if call in s.calls && s.calls[call].Submit? && s.calls[call].submitPhase.Confirmed? {
        FinishSubmitKeepsSubmissions(s, call);
      }
    case Transfer(merchantWallet, toWallet, _, memo, signature) =>
      var paid := OrderPaidBy(merchantWallet, toWallet, memo);
      if paid.Some? { CompleteKeepsCalls(s, paid.value, signature); }
    case SubmitRead(call, userId, orderId) =>
      assert SubmissionSound(s.db.orders, ReadForSubmit(s.db, userId, orderId));
    case SubmitSend(call, confirmed) =>
      if call in s.calls { assert SubmissionSound(s.db.orders, s.calls[call]); }
    case _ =>
  }

  lemma {:induction false} ReachableInv(es: seq<Event>)
    ensures Inv(Run(es))
  {
    if es != [] {
      hide Apply, SubmissionsSound, GrantsSound, OrdersSound, RowsBounded;
      ReachableInv(es[..|es| - 1]);
      StepKeepsTables(Run(es[..|es| - 1]), es[|es| - 1]);
      StepKeepsSubmissions(Run(es[..|es| - 1]), es[|es| - 1]);
    } else {
      assert Run(es) == EMPTY;
    }
  }

  // ---- Safety over whole runs ----

  /** From any moment of a run to its end: terminal orders are frozen, the others keep owner and credits. */
  lemma {:induction false} OrdersOnlyAdvance(es: seq<Event>, n: nat)
    requires n <= |es|
    ensures OrdersAdvance(Run(es[..n]).db.orders, Run(es).db.orders)
  {
    if n == |es| {
      assert es[..n] == es;
    } else {
      hide Apply, TablesSound;
      var init := es[..|es| - 1];
      OrdersOnlyAdvance(init, n);
      assert init[..n] == es[..n];
      ReachableInv(init);
      StepKeepsTables(Run(init), es[|es| - 1]);
    }
  }

  /** An order is credited once if it is completed and never otherwise, however submits and transfers race. */
  lemma CreditedExactlyOnce(es: seq<Event>, id: string)
    ensures TimesCredited(Run(es).grants, id) == if CompletedIn(Run(es).db.orders, id) then 1 else 0
  {
    hide Run, TimesCredited;
    ReachableInv(es);
  }

  lemma NoSharedSignature(es: seq<Event>, id1: string, id2: string)
    requires CompletedIn(Run(es).db.orders, id1) && CompletedIn(Run(es).db.orders, id2) && id1 != id2
    ensures Run(es).db.orders[id1].txSignature != Run(es).db.orders[id2].txSignature
  {
    hide Run;
    ReachableInv(es);
  }

  lemma CompleteExpiresNothing(s: System, orderId: string, signature: string, id: string)
    ensures var orders' := Complete(s, orderId, signature).0.db.orders;
            id in orders' && orders'[id].status == Expired ==> id in s.db.orders && s.db.orders[id] == orders'[id]
  {
    hide SignatureTaken;
  }

  lemma StepExpiresOnlyDue(s: System, e: Event, id: string)
    requires id in Apply(s, e).db.orders && Apply(s, e).db.orders[id].status == Expired
    ensures id in s.db.orders && s.db.orders[id].expiresAt == Apply(s, e).db.orders[id].expiresAt
    ensures s.db.orders[id].status == Expired || (e.ExpireTick? && s.db.orders[id].expiresAt < e.now)
  {
    hide Complete, UsageDay, ReadForSubmit, ReplyTo;
    match e
    case SubmitComplete(call) =>
      if call in s.calls && s.calls[call].Submit? && s.calls[call].submitPhase.Confirmed? {
        CompleteExpiresNothing(s, s.calls[call].orderId, s.calls[call].submitPhase.signature, id);
      }
    case Transfer(merchantWallet, toWallet, _, memo, signature) =>
      var paid := OrderPaidBy(merchantWallet, toWallet, memo);
      if paid.Some? { CompleteExpiresNothing(s, paid.value, signature, id); }
    case _ =>
  }

  /** An expired order was expired by a tick after its time: no step expires one early. */
  lemma {:induction false} ExpiredOnlyWhenDue(es: seq<Event>, id: string) returns (i: nat)
    requires id in Run(es).db.orders && Run(es).db.orders[id].status == Expired
    ensures i < |es| && es[i].ExpireTick? && Run(es).db.orders[id].expiresAt < es[i].now
  {
    hide Apply;
    var n := |es| - 1;
    StepExpiresOnlyDue(Run(es[..n]), es[n], id);
    if Run(es[..n]).db.orders[id].status == Expired {
      i := ExpiredOnlyWhenDue(es[..n], id);
    } else {
      i := n;
    }
  }

  /** And a tick leaves no order pending past its time. */
  lemma TickLeavesNoneOverdue(s: System, now: int, id: string)
    ensures var orders' := Apply(s, ExpireTick(now)).db.orders;
            id in orders' && orders'[id].status == Pending ==> now <= orders'[id].expiresAt
  {
  }

  // ---- What submitPayment does on reading the order ----

  /**
   * Payment is sent exactly for the owner of a pending order. Anybody else is told that it is not
   * found, the owner of an expired order that it is, and the owner of a completed one, which was
   * credited once, that it succeeded before. Nothing but the call's own state changes.
   */
  lemma SubmitReadAnswer(es: seq<Event>, call: nat, userId: string, orderId: string)
    requires call !in Run(es).calls
    ensures var s, s' := Run(es), Apply(Run(es), SubmitRead(call, userId, orderId));
            var owned := orderId in s.db.orders && s.db.orders[orderId].userId == userId;
            && s'.db == s.db && s'.calls.Keys == s.calls.Keys + {call}
            && s'.calls[call].Submit? && s'.calls[call].orderId == orderId
            && var phase := s'.calls[call].submitPhase;
            && (phase == Sending <==> owned && s.db.orders[orderId].status == Pending)
            && (phase == Answered(NotFound) <==> !owned)
            && (phase == Answered(Rejected(Expired)) <==> owned && s.db.orders[orderId].status == Expired)
            && (owned && s.db.orders[orderId].status == Completed <==>
                phase.Answered? && phase.reply.Succeeded?)
            && (phase.Answered? && phase.reply.Succeeded? ==>
                && phase.reply == Succeeded(s.db.orders[orderId].credits, true)
                && TimesCredited(s.grants, orderId) == 1)
  {
    hide Run, TimesCredited;
    ReachableInv(es);
  }

  // ---- Every credit has a confirmed payment behind it ----

  /** The call began by reading the order for this user. */
  ghost predicate ReadAt(es: seq<Event>, m: nat, call: nat, userId: string, id: string) {
    m < |es| && es[m] == SubmitRead(call, userId, id) && call !in Run(es[..m]).calls
  }

  /** The call sent its transaction and had it confirmed under this signature. */
  ghost predicate SentAt(es: seq<Event>, n: nat, call: nat, signature: string) {
    n < |es| && es[n] == SubmitSend(call, Some(signature)) && InPhase(Run(es[..n]), call, Sending)
  }

  ghost predicate WasRead(es: seq<Event>, call: nat, userId: string, id: string) {
    exists m :: ReadAt(es, m, call, userId, id)
  }

  ghost predicate WasSent(es: seq<Event>, call: nat, userId: string, id: string, signature: string) {
    exists m, n :: m < n && ReadAt(es, m, call, userId, id) && SentAt(es, n, call, signature)
  }

  /** A transfer to the merchant with the order's memo and this signature was seen. */
  ghost predicate TransferSeen(es: seq<Event>, id: string, signature: string) {
    exists n, wallet, lamports ::
      0 <= n < |es| && es[n] == Transfer(wallet, wallet, lamports, BuildOrderMemo(id), signature) && wallet != ""
  }

  ghost predicate PaymentMade(es: seq<Event>, id: string, userId: string, signature: string) {
    (exists call :: WasSent(es, call, userId, id, signature)) || TransferSeen(es, id, signature)
  }

  ghost predicate CallTraced(es: seq<Event>, orders: Orders, call: nat, c: Call) {
    c.Submit? ==>
      match c.submitPhase
      case Sending => c.orderId in orders && WasRead(es, call, orders[c.orderId].userId, c.orderId)
      case Confirmed(signature) => c.orderId in orders && WasSent(es, call, orders[c.orderId].userId, c.orderId, signature)
      case Answered(_) => true
  }

  ghost predicate OrderTraced(es: seq<Event>, id: string, order: Order) {
    order.status == Completed ==> order.txSignature.Some? && PaymentMade(es, id, order.userId, order.txSignature.value)
  }

  ghost predicate Traced(es: seq<Event>, s: System) {
    && (forall call :: call in s.calls ==> CallTraced(es, s.db.orders, call, s.calls[call]))
    && (forall id :: id in s.db.orders ==> OrderTraced(es, id, s.db.orders[id]))
  }

  lemma ReadStays(es: seq<Event>, e: Event, m: nat, call: nat, userId: string, id: string)
    requires ReadAt(es, m, call, userId, id)
    ensures ReadAt(es + [e], m, call, userId, id)
  {
    hide Run;
    assert (es + [e])[..m] == es[..m];
  }

  lemma SentStays(es: seq<Event>, e: Event, n: nat, call: nat, signature: string)
    requires SentAt(es, n, call, signature)
    ensures SentAt(es + [e], n, call, signature)
  {
    hide Run, InPhase;
    assert (es + [e])[..n] == es[..n];
  }

  /** What happened stays in the record. */
  lemma TraceStays(es: seq<Event>, e: Event, call: nat, userId: string, id: string, signature: string)
    ensures WasRead(es, call, userId, id) ==> WasRead(es + [e], call, userId, id)
    ensures WasSent(es, call, userId, id, signature) ==> WasSent(es + [e], call, userId, id, signature)
  {
    hide ReadAt, SentAt;
    if WasRead(es, call, userId, id) {
      var m :| ReadAt(es, m, call, userId, id);
      ReadStays(es, e, m, call, userId, id);
    }
    if WasSent(es, call, userId, id, signature) {
      var m, n :| m < n && ReadAt(es, m, call, userId, id) && SentAt(es, n, call, signature);
      ReadStays(es, e, m, call, userId, id);
      SentStays(es, e, n, call, signature);
    }
  }

  lemma PaidStays(es: seq<Event>, e: Event, id: string, userId: string, signature: string)
    requires PaymentMade(es, id, userId, signature)
    ensures PaymentMade(es + [e], id, userId, signature)
  {
    hide WasSent;
    if TransferSeen(es, id, signature) {
      var n, wallet, lamports :|
        0 <= n < |es| && es[n] == Transfer(wallet, wallet, lamports, BuildOrderMemo(id), signature) && wallet != "";
      assert (es + [e])[n] == es[n];
    } else {
      var call :| WasSent(es, call, userId, id, signature);
      TraceStays(es, e, call, userId, id, signature);
    }
  }

  lemma CallStaysTraced(es: seq<Event>, e: Event, orders: Orders, orders': Orders, call: nat, c: Call)
    requires CallTraced(es, orders, call, c) && OrdersAdvance(orders, orders')
    ensures CallTraced(es + [e], orders', call, c)
  {
    hide WasRead, WasSent;
    if c.Submit? && !c.submitPhase.Answered? {
      TraceStays(es, e, call, orders[c.orderId].userId, c.orderId,
                 if c.submitPhase.Confirmed? then c.submitPhase.signature else "");
    }
  }

  lemma StepTracesCalls(es: seq<Event>, e: Event, call: nat)
    requires var s := Run(es); Traced(es, s) && OrdersAdvance(s.db.orders, Apply(s, e).db.orders)
    requires call in Apply(Run(es), e).calls
    ensures CallTraced(es + [e], Apply(Run(es), e).db.orders, call, Apply(Run(es), e).calls[call])
  {
    var s, s' := Run(es), Apply(Run(es), e);
    var longer := es + [e];
    assert longer[..|es|] == es && longer[|es|] == e;
    hide Run, Complete, ConsumeFree, ConsumePaid, RefundFree, RefundPaid, ExpirePending, NewOrder, UsageDay, OrderPaidBy;
    if call in s.calls { CallStaysTraced(es, e, s.db.orders, s'.db.orders, call, s.calls[call]); }
    match e
    case SubmitRead(c, userId, orderId) =>
      if c == call && call !in s.calls && s'.calls[call].submitPhase == Sending {
        assert ReadAt(longer, |es|, call, userId, orderId);
      }
    case SubmitSend(c, confirmed) =>
      if c == call && InPhase(s, call, Sending) && confirmed.Some? {
        SendIsTraced(es, call, confirmed.value);
      }
    case Transfer(merchantWallet, toWallet, _, memo, signature) =>
      var paid := OrderPaidBy(merchantWallet, toWallet, memo);
      if paid.Some? { CompleteKeepsCalls(s, paid.value, signature); }
    case _ =>
  }

  lemma SendIsTraced(es: seq<Event>, call: nat, signature: string)
    requires InPhase(Run(es), call, Sending)
    requires CallTraced(es, Run(es).db.orders, call, Run(es).calls[call])
    ensures var c := Run(es).calls[call];
            WasSent(es + [SubmitSend(call, Some(signature))], call, Run(es).db.orders[c.orderId].userId, c.orderId, signature)
  {
    var e := SubmitSend(call, Some(signature));
    var longer := es + [e];
    assert longer[..|es|] == es && longer[|es|] == e;
    hide Run;
    var c := Run(es).calls[call];
    var userId := Run(es).db.orders[c.orderId].userId;
    var m :| ReadAt(es, m, call, userId, c.orderId);
    ReadStays(es, e, m, call, userId, c.orderId);
    assert SentAt(longer, |es|, call, signature);
  }

  lemma CompleteTraces(es: seq<Event>, e: Event, s: System, orderId: string, signature: string, id: string)
    requires id in Complete(s, orderId, signature).0.db.orders
    requires id in s.db.orders ==> OrderTraced(es, id, s.db.orders[id])
    requires orderId in s.db.orders ==> PaymentMade(es + [e], orderId, s.db.orders[orderId].userId, signature)
    ensures OrderTraced(es + [e], id, Complete(s, orderId, signature).0.db.orders[id])
  {
    hide PaymentMade, SignatureTaken;
    var order := s.db.orders[id];
    if order.status == Completed { PaidStays(es, e, id, order.userId, order.txSignature.value); }
  }

  lemma StepTracesOrders(es: seq<Event>, e: Event, id: string)
    requires Traced(es, Run(es)) && id in Apply(Run(es), e).db.orders
    ensures OrderTraced(es + [e], id, Apply(Run(es), e).db.orders[id])
  {
    var s, s' := Run(es), Apply(Run(es), e);
    hide Run, Complete, PaymentMade, ConsumeFree, ConsumePaid, RefundFree, RefundPaid, UsageDay, OrderPaidBy, ReadForSubmit;
    if id in s.db.orders && s.db.orders[id].status == Completed {
      PaidStays(es, e, id, s.db.orders[id].userId, s.db.orders[id].txSignature.value);
    }
    match e
    case SubmitComplete(call) =>
      if call in s.calls && s.calls[call].Submit? && s.calls[call].submitPhase.Confirmed? {
        var c := s.calls[call];
        assert CallTraced(es, s.db.orders, call, c);
        SubmittedIsPaid(es, e, call, s.db.orders[c.orderId].userId, c.orderId, c.submitPhase.signature);
        CompleteTraces(es, e, s, c.orderId, c.submitPhase.signature, id);
      }
    case Transfer(merchantWallet, toWallet, lamports, memo, signature) =>
      var paid := OrderPaidBy(merchantWallet, toWallet, memo);
      if paid.Some? {
        TransferIsPaid(es, merchantWallet, toWallet, lamports, memo, signature, paid.value);
        if paid.value in s.db.orders {
          PaidByTransfer(es + [e], paid.value, s.db.orders[paid.value].userId, signature);
        }
        CompleteTraces(es, e, s, paid.value, signature, id);
      }
    case ConsumePaidStatement(call) =>
      if Consuming(s, call, TryPaid) { PaidMovesBalancesOnly(s.db, s.calls[call].userId, s.calls[call].amount); }
    case ConsumeFreeStatement(call) =>
      if Consuming(s, call, TryFree) { FreeMovesUsageOnly(s.db, s.calls[call].userId, s.calls[call].day, s.calls[call].amount); }
    case RefundStatement(_, userId, _, amount, now) =>
      PaidMovesBalancesOnly(s.db, userId, amount);
      FreeMovesUsageOnly(s.db, userId, UsageDay(now), amount);
    case _ =>
  }

  lemma FreeMovesUsageOnly(db: Db, userId: string, day: int, amount: nat)
    ensures ConsumeFree(db, userId, day, amount).0.orders == RefundFree(db, userId, day, amount).orders == db.orders
  {
  }

  lemma SubmittedIsPaid(es: seq<Event>, e: Event, call: nat, userId: string, id: string, signature: string)
    requires WasSent(es, call, userId, id, signature)
    ensures PaymentMade(es + [e], id, userId, signature)
  {
    hide WasSent;
    TraceStays(es, e, call, userId, id, signature);
  }

  lemma PaidByTransfer(es: seq<Event>, id: string, userId: string, signature: string)
    requires TransferSeen(es, id, signature)
    ensures PaymentMade(es, id, userId, signature)
  {
  }

  lemma TransferIsPaid(es: seq<Event>, merchantWallet: string, toWallet: string, lamports: nat, memo: string,
                       signature: string, id: string)
    requires OrderPaidBy(merchantWallet, toWallet, memo) == Some(id)
    ensures TransferSeen(es + [Transfer(merchantWallet, toWallet, lamports, memo, signature)], id, signature)
  {
    MemoRoundTrip(id, memo);
    var longer := es + [Transfer(merchantWallet, toWallet, lamports, memo, signature)];
    assert longer[|es|] == Transfer(merchantWallet, merchantWallet, lamports, BuildOrderMemo(id), signature);
  }

  lemma {:induction false} RunIsTraced(es: seq<Event>)
    ensures Traced(es, Run(es))
  {
    if es == [] {
      assert Run(es) == EMPTY;
    } else {
      var init, e := es[..|es| - 1], es[|es| - 1];
      assert init + [e] == es;
      RunIsTraced(init);
      ReachableInv(init);
      assert Run(es) == Apply(Run(init), e);
      hide Run, Apply, CallTraced, OrderTraced, TablesSound, SubmissionsSound;
      StepKeepsTables(Run(init), e);
      forall call | call in Run(es).calls ensures CallTraced(es, Run(es).db.orders, call, Run(es).calls[call]) {
        StepTracesCalls(init, e, call);
      }
      forall id | id in Run(es).db.orders ensures OrderTraced(es, id, Run(es).db.orders[id]) {
        StepTracesOrders(init, e, id);
      }
    }
  }

  /**
   * Every completed order carries the signature of a payment: one that a submission, begun by its
   * owner's reading of that order, sent and had confirmed, or a seen transfer to the merchant with
   * the order's memo.
   */
  lemma CompletedIsPaid(es: seq<Event>, id: string)
    requires CompletedIn(Run(es).db.orders, id)
    ensures var order := Run(es).db.orders[id];
            order.txSignature.Some? && PaymentMade(es, id, order.userId, order.txSignature.value)
  {
    hide Run, PaymentMade;
    RunIsTraced(es);
  }

  /** A send that fails answers so, and the call never completes anything. */
  lemma FailedSendAnswers(s: System, call: nat)
    requires InPhase(s, call, Sending)
    ensures var s' := Apply(s, SubmitSend(call, None));
            && s'.db == s.db && s'.calls[call].submitPhase == Answered(SendFailed)
            && Apply(s', SubmitComplete(call)) == s'
  {
  }

  // ---- What a success reply means ----

  /**
   * A submission that reports success always quotes the order's credits. It added them itself
   * exactly when it says the order was not processed before; otherwise nothing changed, and the
   * order it calls paid is completed exactly when the cron had not expired it first.
   */
  lemma SuccessReply(es: seq<Event>, call: nat, creditsAdded: nat, already: bool)
    requires call in Run(es).calls && Run(es).calls[call].Submit? && Run(es).calls[call].submitPhase.Confirmed?
    requires Apply(Run(es), SubmitComplete(call)).calls[call].submitPhase == Answered(Succeeded(creditsAdded, already))
    ensures var s, s', c := Run(es), Apply(Run(es), SubmitComplete(call)), Run(es).calls[call];
            && c.orderId in s.db.orders
            && var order := s.db.orders[c.orderId];
            && creditsAdded == order.credits
            && (!already <==> order.status == Pending)
            && (!already ==> && BalanceOf(s'.db, order.userId) == BalanceOf(s.db, order.userId) + creditsAdded
                             && s'.db.orders[c.orderId].txSignature == Some(c.submitPhase.signature))
            && (already ==> s'.db == s.db)
            && (CompletedIn(s'.db.orders, c.orderId) <==> order.status != Expired)
  {
    hide Run, TimesCredited, SignatureTaken;
    ReachableInv(es);
    var s := Run(es);
    assert SubmissionSound(s.db.orders, s.calls[call]);
  }

  /** Every answer a confirmed submission can get, and when: it credits, it finds its signature taken, or it finds the order decided. */
  lemma SubmitCompleteAnswer(es: seq<Event>, call: nat)
    requires call in Run(es).calls && Run(es).calls[call].Submit? && Run(es).calls[call].submitPhase.Confirmed?
    ensures var s, s', c := Run(es), Apply(Run(es), SubmitComplete(call)), Run(es).calls[call];
            && c.orderId in s.db.orders
            && var order, used := s.db.orders[c.orderId], SignatureUsed(s.db.orders, c.submitPhase.signature);
            && s'.calls[call].orderId == c.orderId && s'.calls[call].submitPhase.Answered?
            && var reply := s'.calls[call].submitPhase.reply;
            && (order.status != Pending <==> reply == Succeeded(order.credits, true))
            && (order.status == Pending && used <==> reply == SignatureConflict)
            && (order.status == Pending && !used <==> reply == Succeeded(order.credits, false))
            && (reply != Succeeded(order.credits, false) ==> s'.db == s.db && s'.grants == s.grants)
  {
    hide Run, TimesCredited;
    ReachableInv(es);
    var s, c := Run(es), Run(es).calls[call];
    assert SubmissionSound(s.db.orders, c);
    if s.db.orders[c.orderId].status == Pending {
      SignatureTakenIsUsed(s.db, c.orderId, c.submitPhase.signature);
    }
    hide SignatureTaken, SignatureUsed;
  }

  lemma RunSnoc(es: seq<Event>, e: Event)
    ensures Run(es + [e]) == Apply(Run(es), e)
  {
    assert (es + [e])[..|es|] == es;
  }

  lemma RunFive(e1: Event, e2: Event, e3: Event, e4: Event, e5: Event)
    ensures Run([e1] + [e2] + [e3] + [e4] + [e5]) == Apply(Apply(Apply(Apply(Apply(EMPTY, e1), e2), e3), e4), e5)
  {
    assert Run([]) == EMPTY;
    hide Apply, Run;
    RunSnoc([], e1);
    assert [] + [e1] == [e1];
    RunSnoc([e1], e2);
    RunSnoc([e1] + [e2], e3);
    RunSnoc([e1] + [e2] + [e3], e4);
    RunSnoc([e1] + [e2] + [e3] + [e4], e5);
  }

  lemma UntilConfirmed(order: Order)
    requires order == Order("u", 50, 50_000_000, Pending, None, ORDER_EXPIRY_MS)
    ensures Apply(Apply(Apply(EMPTY, CreateOrder("o", "u", "credits_50", 0)), SubmitRead(0, "u", "o")), SubmitSend(0, Some("sig"))) ==
            System(Db(map["o" := order], map[], map[]), map[0 := Submit("o", 50, Confirmed("sig"))], [])
  {
    var s1 := Apply(EMPTY, CreateOrder("o", "u", "credits_50", 0));
    assert s1 == System(Db(map["o" := order], map[], map[]), map[], []);
    var s2 := Apply(s1, SubmitRead(0, "u", "o"));
    assert s2 == s1.(calls := map[0 := Submit("o", 50, Sending)]);
  }

  /** The cron can win between the read and the completion: success is reported and nothing is credited. */
  lemma SuccessWithoutCredit() returns (es: seq<Event>)
    ensures var s := Run(es);
            && 0 in s.calls
            && s.calls[0] == Submit("o", 50, Answered(Succeeded(50, true)))
            && "o" in s.db.orders && s.db.orders["o"].status == Expired
            && BalanceOf(s.db, "u") == 0
  {
    var e1 := CreateOrder("o", "u", "credits_50", 0);
    var e2 := SubmitRead(0, "u", "o");
    var e3 := SubmitSend(0, Some("sig"));
    var e4 := ExpireTick(ORDER_EXPIRY_MS + 1);
    var e5 := SubmitComplete(0);
    es := [e1] + [e2] + [e3] + [e4] + [e5];
    RunFive(e1, e2, e3, e4, e5);
    var order := Order("u", 50, 50_000_000, Pending, None, ORDER_EXPIRY_MS);
    UntilConfirmed(order);
    var s3 := Apply(Apply(Apply(EMPTY, e1), e2), e3);
    hide Run, NewOrder, ReadForSubmit, SignatureTaken, ConsumeFree, ConsumePaid, RefundFree, RefundPaid, OrderPaidBy, UsageDay;
    var s4 := Apply(s3, e4);
    assert s4 == System(Db(map["o" := order.(status := Expired)], map[], map[]), s3.calls, []);
  }

  ghost predicate SignatureUsed(orders: Orders, signature: string) {
    exists id :: CompletedIn(orders, id) && orders[id].txSignature == Some(signature)
  }

  /**
   * A transfer the listener sees completes a pending order exactly when it goes to the merchant,
   * its memo is the one built for the order, and its signature completed no order before. How many
   * lamports it moves plays no part: no amount decides otherwise.
   */
  lemma TransferCompletesIff(es: seq<Event>, merchantWallet: string, toWallet: string, lamports: nat,
                             memo: string, signature: string, id: string)
    requires id in Run(es).db.orders && Run(es).db.orders[id].status == Pending
    ensures CompletedIn(Apply(Run(es), Transfer(merchantWallet, toWallet, lamports, memo, signature)).db.orders, id) <==>
            && merchantWallet != "" && toWallet == merchantWallet
            && id != "" && memo == BuildOrderMemo(id)
            && !SignatureUsed(Run(es).db.orders, signature)
  {
    hide Run, TimesCredited, BuildOrderMemo, ParseOrderIdFromMemo;
    ReachableInv(es);
    var s := Run(es);
    MemoRoundTrip(id, memo);
    SignatureTakenIsUsed(s.db, id, signature);
    MemoNotEmpty(id);
  }

  /** So a transfer of any amount, one lamport say, completes and credits a pending order of any price. */
  lemma AnyAmountCompletes(es: seq<Event>, wallet: string, lamports: nat, signature: string, id: string)
    requires id in Run(es).db.orders && Run(es).db.orders[id].status == Pending && id != "" && wallet != ""
    requires !SignatureUsed(Run(es).db.orders, signature)
    ensures var s, s' := Run(es), Apply(Run(es), Transfer(wallet, wallet, lamports, BuildOrderMemo(id), signature));
            var order := s.db.orders[id];
            && CompletedIn(s'.db.orders, id)
            && BalanceOf(s'.db, order.userId) == BalanceOf(s.db, order.userId) + order.credits
  {
    TransferCompletesIff(es, wallet, wallet, lamports, BuildOrderMemo(id), signature, id);
    MemoRoundTrip(id, BuildOrderMemo(id));
    hide Run, BuildOrderMemo, ParseOrderIdFromMemo, SignatureTaken, SignatureUsed;
  }

  /** One lamport completes an order of 50 000 000. */
  lemma OneLamportCompletes() returns (es: seq<Event>)
    ensures var s := Run(es);
            && CompletedIn(s.db.orders, "o") && s.db.orders["o"].amountLamports == 50_000_000
            && BalanceOf(s.db, "u") == 50
            && es == [CreateOrder("o", "u", "credits_50", 0)] + [Transfer("m", "m", 1, BuildOrderMemo("o"), "sig")]
  {
    var e1, e2 := CreateOrder("o", "u", "credits_50", 0), Transfer("m", "m", 1, BuildOrderMemo("o"), "sig");
    es := [e1] + [e2];
    RunSnoc([], e1);
    assert [] + [e1] == [e1];
    RunSnoc([e1], e2);
    assert Run([]) == EMPTY;
    var order := Order("u", 50, 50_000_000, Pending, None, ORDER_EXPIRY_MS);
    assert Run([e1]) == System(Db(map["o" := order], map[], map[]), map[], []);
    AnyAmountCompletes([e1], "m", 1, "sig", "o");
    OrderKeepsPrice(Run([e1]), e2, "o");
  }

  lemma OrderKeepsPrice(s: System, e: Event, id: string)
    requires id in s.db.orders
    ensures id in Apply(s, e).db.orders && Apply(s, e).db.orders[id].amountLamports == s.db.orders[id].amountLamports
  {
    hide SignatureTaken, UsageDay, OrderPaidBy, ReadForSubmit, ReplyTo;
  }

  lemma MemoNotEmpty(id: string)
    ensures BuildOrderMemo(id) != ""
  {
  }

  lemma SignatureTakenIsUsed(db: Db, id: string, signature: string)
    requires OrdersSound(db.orders) && id in db.orders && db.orders[id].status == Pending
    ensures SignatureTaken(db, id, signature) <==> SignatureUsed(db.orders, signature)
  {
    if SignatureTaken(db, id, signature) {
      var other :| other in db.orders && other != id && db.orders[other].txSignature == Some(signature);
      assert CompletedIn(db.orders, other);
    }
  }

  // ---- One caller's use and refund, seen as one ----

  /** A use whose two statements nothing interrupts is the charge of the service, on the UTC+7 day of its start. */
  lemma UseAlone(s: System, call: nat, userId: string, amount: nat, now: int)
    requires call !in s.calls
    ensures var (db', source) := Charge(s.db, userId, UsageDay(now), amount);
            var s' := Apply(Apply(Apply(s, ConsumeStart(call, userId, amount, now)), ConsumeFreeStatement(call)), ConsumePaidStatement(call));
            && s'.db == db' && s'.grants == s.grants
            && s'.calls == s.calls[call := Consume(userId, UsageDay(now), amount,
                                                   if source.Some? then Granted(source.value) else Denied)]
  {
    hide UsageDay, ConsumeFree, ConsumePaid;
    var s1 := Apply(s, ConsumeStart(call, userId, amount, now));
    assert s1.calls[call] == Consume(userId, UsageDay(now), amount, TryFree) && s1.db == s.db;
  }

  /** A refund gives back to the source it names, on the UTC+7 day it is asked for, and is recorded as that. */
  lemma RefundGivesBack(s: System, call: nat, userId: string, source: Source, amount: nat, now: int)
    requires call !in s.calls
    ensures var s' := Apply(s, RefundStatement(call, userId, source, amount, now));
            && s'.db == GiveBack(s.db, userId, source, UsageDay(now), amount) && s'.grants == s.grants
            && s'.calls == s.calls[call := Refund(userId, UsageDay(now), amount, source,
                                                  source == Free || userId in s.db.balances)]
  {
    hide UsageDay, RefundFree;
  }

  // ---- The free allowance ----

  ghost function FreeTo(u: string, day: int): Call -> int {
    (c: Call) => if c.Consume? && c.userId == u && c.day == day && c.consumePhase == Granted(Free) then c.amount else 0
  }

  ghost function FreeBack(u: string, day: int): Call -> int {
    (c: Call) => if c.Refund? && c.userId == u && c.day == day && c.refundOf == Free then c.amount else 0
  }

  ghost function FreeGranted(s: System, u: string, day: int): int { SumInt(s.calls, FreeTo(u, day)) }
  ghost function FreeRefunded(s: System, u: string, day: int): int { SumInt(s.calls, FreeBack(u, day)) }

  /** The day's row shows exactly what calls were granted less what was refunded. */
  ghost predicate RowExact(s: System, u: string, day: int) {
    FreeUsed(s.db, u, day) == FreeGranted(s, u, day) - FreeRefunded(s, u, day)
  }

  /** The first use of a day asks for more than a day's allowance; the row records only the allowance. */
  ghost predicate OversizedFirstUse(s: System, e: Event, u: string, day: int) {
    && e.ConsumeFreeStatement? && Consuming(s, e.call, TryFree)
    && s.calls[e.call].userId == u && s.calls[e.call].day == day
    && (u, day) !in s.db.usage && s.calls[e.call].amount > FREE_DAILY_QUOTA_LIMIT
  }

  lemma FreeMoves(s: System, call: nat, c: Call, u: string, day: int)
    ensures SumInt(s.calls[call := c], FreeTo(u, day)) ==
            FreeGranted(s, u, day) - (if call in s.calls then FreeTo(u, day)(s.calls[call]) else 0) + FreeTo(u, day)(c)
    ensures SumInt(s.calls[call := c], FreeBack(u, day)) ==
            FreeRefunded(s, u, day) - (if call in s.calls then FreeBack(u, day)(s.calls[call]) else 0) + FreeBack(u, day)(c)
  {
    SumIntUpdate(s.calls, call, c, FreeTo(u, day));
    SumIntUpdate(s.calls, call, c, FreeBack(u, day));
  }

  lemma ConsumeStepRow(s: System, call: nat, u: string, day: int)
    requires RowsBounded(s.db.usage) && RowExact(s, u, day)
    ensures var e := ConsumeFreeStatement(call); var s' := Apply(s, e);
            && (RowExact(s', u, day) <==> !OversizedFirstUse(s, e, u, day))
            && FreeRefunded(s', u, day) <= FreeGranted(s', u, day)
  {
    hide SumInt;
    var s' := Apply(s, ConsumeFreeStatement(call));
    if Consuming(s, call, TryFree) {
      FreeMoves(s, call, s'.calls[call], u, day);
    }
  }

  lemma RefundStepRow(s: System, e: Event, u: string, day: int)
    requires RowsBounded(s.db.usage) && RowExact(s, u, day) && e.RefundStatement?
    ensures var s' := Apply(s, e); RowExact(s', u, day) <==> FreeRefunded(s', u, day) <= FreeGranted(s', u, day)
  {
    hide SumInt, UsageDay;
    if e.call !in s.calls {
      FreeMoves(s, e.call, Apply(s, e).calls[e.call], u, day);
    }
  }

  lemma OtherStepRow(s: System, e: Event, u: string, day: int)
    requires RowsBounded(s.db.usage) && RowExact(s, u, day) && !e.RefundStatement? && !e.ConsumeFreeStatement?
    ensures RowExact(Apply(s, e), u, day)
    ensures FreeRefunded(Apply(s, e), u, day) <= FreeGranted(Apply(s, e), u, day)
  {
    hide SumInt, UsageDay, Complete, ReplyTo, OrderPaidBy;
    var s' := Apply(s, e);
    match e
    case SubmitRead(call, _, _) => if call !in s.calls { FreeMoves(s, call, s'.calls[call], u, day); }
    case SubmitSend(call, _) => if InPhase(s, call, Sending) { FreeMoves(s, call, s'.calls[call], u, day); }
    case SubmitComplete(call) =>
      if s' != s {
        CompleteKeepsUsage(s, s.calls[call].orderId, s.calls[call].submitPhase.signature);
        FreeMoves(s, call, s'.calls[call], u, day);
      }
    case Transfer(merchantWallet, toWallet, _, memo, signature) =>
      var paid := OrderPaidBy(merchantWallet, toWallet, memo);
      if paid.Some? { CompleteKeepsUsage(s, paid.value, signature); }
    case ConsumeStart(call, _, _, _) => if call !in s.calls { FreeMoves(s, call, s'.calls[call], u, day); }
    case ConsumePaidStatement(call) => if Consuming(s, call, TryPaid) { FreeMoves(s, call, s'.calls[call], u, day); }
    case _ =>
  }

  lemma CompleteKeepsUsage(s: System, orderId: string, signature: string)
    ensures Complete(s, orderId, signature).0.db.usage == s.db.usage && Complete(s, orderId, signature).0.calls == s.calls
  {
  }

  ghost predicate NeverOverRefunded(es: seq<Event>, u: string, day: int) {
    forall n :: 0 <= n <= |es| ==> FreeRefunded(Run(es[..n]), u, day) <= FreeGranted(Run(es[..n]), u, day)
  }

  ghost predicate NoOversizedFirstUse(es: seq<Event>, u: string, day: int) {
    forall n :: 0 <= n < |es| ==> !OversizedFirstUse(Run(es[..n]), es[n], u, day)
  }

  ghost predicate RowExactThroughout(es: seq<Event>, u: string, day: int) {
    forall n :: 0 <= n <= |es| ==> RowExact(Run(es[..n]), u, day)
  }

  /** A step from an exact row lands on an exact row just when neither kind of mismatch occurs. */
  lemma StepRow(s: System, e: Event, u: string, day: int)
    requires RowsBounded(s.db.usage) && RowExact(s, u, day)
    ensures var s' := Apply(s, e);
            RowExact(s', u, day) <==>
            FreeRefunded(s', u, day) <= FreeGranted(s', u, day) && !OversizedFirstUse(s, e, u, day)
  {
    hide Apply, RowExact, RowsBounded, FreeGranted, FreeRefunded;
    if e.ConsumeFreeStatement? { ConsumeStepRow(s, e.call, u, day); }
    else if e.RefundStatement? { RefundStepRow(s, e, u, day); }
    else { OtherStepRow(s, e, u, day); }
  }

  /** Each claim about a whole run is the claim about the run so far and one about its last step. */
  lemma ThroughoutSplits(es: seq<Event>, u: string, day: int)
    requires es != []
    ensures var k := |es| - 1; var init := es[..k];
            && (RowExactThroughout(es, u, day) <==> RowExactThroughout(init, u, day) && RowExact(Run(es), u, day))
            && (NeverOverRefunded(es, u, day) <==>
                NeverOverRefunded(init, u, day) && FreeRefunded(Run(es), u, day) <= FreeGranted(Run(es), u, day))
            && (NoOversizedFirstUse(es, u, day) <==>
                NoOversizedFirstUse(init, u, day) && !OversizedFirstUse(Run(init), es[k], u, day))
            && (RowExactThroughout(init, u, day) ==> RowExact(Run(init), u, day))
  {
    hide Run, RowExact, FreeGranted, FreeRefunded, OversizedFirstUse;
    var k := |es| - 1;
    var init := es[..k];
    assert forall n :: 0 <= n <= k ==> init[..n] == es[..n];
    assert es[..|es|] == es && init[..k] == init;
  }

  /**
   * Every row stays within the allowance. It is exact throughout a run if and only if no day opens
   * with an oversized use and refunds never run ahead of grants.
   */
  lemma {:induction false} FreeRowExactIff(es: seq<Event>, u: string, day: int)
    ensures 0 <= FreeUsed(Run(es).db, u, day) <= 10
    ensures RowExactThroughout(es, u, day) <==> NeverOverRefunded(es, u, day) && NoOversizedFirstUse(es, u, day)
  {
    ReachableRows(es);
    if es == [] {
      assert es[..0] == [];
      assert RowExact(EMPTY, u, day);
    } else {
      hide Apply, RowExact, FreeGranted, FreeRefunded, OversizedFirstUse,
           RowExactThroughout, NeverOverRefunded, NoOversizedFirstUse;
      var init := es[..|es| - 1];
      FreeRowExactIff(init, u, day);
      ThroughoutSplits(es, u, day);
      if RowExactThroughout(init, u, day) {
        ReachableRows(init);
        StepRow(Run(init), es[|es| - 1], u, day);
      }
    }
  }

  lemma ReachableRows(es: seq<Event>)
    ensures RowsBounded(Run(es).db.usage)
  {
    ReachableInv(es);
  }
}
