/**
 * Pending registrations when calls interleave. Calls run one Redis command at a time, so other
 * calls and the clock move between any two commands.
 */
module PendingRegistrationRaces {
  import opened Wrappers
  import opened PendingRegistration

  /** A call in progress, named by the command it runs next. */
  datatype Session =
    | SaveRead(data: Registration)
    | SaveDrop(data: Registration, existing: Token)
    | SaveSetToken(data: Registration)
    | SaveSetEmail(data: Registration)
    | ResendFind(email: string, found: Token)
    | VerifyDropToken(data: Registration)
    | VerifyDropEmail(data: Registration)

  /** `issued` remembers which address each random token was drawn for. */
  datatype System = System(store: Store, sessions: map<nat, Session>, issued: map<Token, string>)

  datatype Event =
    | Register(id: nat, data: Registration)
    | Resend(id: nat, email: string)
    | Verify(id: nat, token: Token)
    | Step(id: nat, random: Token)
    | Elapse(seconds: nat)

  function Address(session: Session): string {
    if session.ResendFind? then Lower(session.email) else Lower(session.data.email)
  }

  function Goto(s: System, id: nat, session: Session): System {
    s.(sessions := s.sessions[id := session])
  }

  function Finish(s: System, id: nat): System {
    s.(sessions := s.sessions - {id})
  }

  /** One command of one call. `random` is a token that has not been drawn before. */
  function Advance(s: System, id: nat, random: Token): System
    requires id in s.sessions && random !in s.issued
  {
    match s.sessions[id]
    case SaveRead(data) =>
      var existing := FindTokenByEmail(s.store, data.email);
      if existing.Some? && existing.value != data.token then Goto(s, id, SaveDrop(data, existing.value))
      else Goto(s, id, SaveSetToken(data))
    case SaveDrop(data, existing) =>
      Goto(s.(store := DropToken(s.store, existing)), id, SaveSetToken(data))
    case SaveSetToken(data) =>
      Goto(s.(store := SetToken(s.store, data)), id, SaveSetEmail(data))
    case SaveSetEmail(data) =>
      Finish(s.(store := SetEmail(s.store, data)), id)
    case ResendFind(_, found) =>
      var pending := FindByToken(s.store, found);
      if pending.None? then Finish(s, id)
      else
        Goto(s.(issued := s.issued[random := Lower(pending.value.email)]), id,
             SaveRead(pending.value.(token := random)))
    case VerifyDropToken(data) =>
      Goto(s.(store := DropToken(s.store, data.token)), id, VerifyDropEmail(data))
    case VerifyDropEmail(data) =>
      Finish(s.(store := DropEmail(s.store, data.email)), id)
  }

  /** An event that cannot happen (an identifier in use, a token drawn twice) changes nothing. */
  function Apply(s: System, e: Event): System {
    match e
    case Register(id, data) =>
      if id in s.sessions || data.token in s.issued then s
      else Goto(s.(issued := s.issued[data.token := Lower(data.email)]), id, SaveRead(data))
    case Resend(id, email) =>
      var found := FindTokenByEmail(s.store, email);
      if id in s.sessions || found.None? then s else Goto(s, id, ResendFind(email, found.value))
    case Verify(id, token) =>
      var pending := FindByToken(s.store, token);
      if id in s.sessions || pending.None? then s else Goto(s, id, VerifyDropToken(pending.value))
    case Step(id, random) =>
      if id !in s.sessions || random in s.issued then s else Advance(s, id, random)
    case Elapse(seconds) =>
      s.(store := s.store.(now := s.store.now + seconds))
  }

  function Run(s: System, events: seq<Event>): System
    decreases |events|
  {
    if events == [] then s else Run(Apply(s, events[0]), events[1..])
  }

  const INITIAL := System(Store(map[], map[], 0), map[], map[])

  // ---------------------------------------------------------------------------------------------
  // What holds under every interleaving
  // ---------------------------------------------------------------------------------------------

  /** The token a call is still going to write, if any. */
  function Unwritten(session: Session): Option<Token> {
    if session.SaveRead? || session.SaveDrop? || session.SaveSetToken? then Some(session.data.token) else None
  }

  ghost predicate SessionIssued(s: System, session: Session) {
    && (session.SaveDrop? ==>
          && session.existing in s.issued && s.issued[session.existing] == Address(session))
    && (if session.ResendFind?
        then session.found in s.issued && s.issued[session.found] == Address(session)
        else session.data.token in s.issued && s.issued[session.data.token] == Address(session))
  }

  ghost predicate TokenIssued(s: System, t: Token)
    requires t in s.store.tokens
  {
    var data := s.store.tokens[t].value;
    data.token == t && t in s.issued && s.issued[t] == Lower(data.email)
  }

  ghost predicate EmailIssued(s: System, a: string)
    requires a in s.store.emails
  {
    var t := s.store.emails[a].value;
    t in s.issued && s.issued[t] == a
  }

  /** A token still to be written is neither stored nor in the hands of another call. */
  ghost predicate WriteOnce(s: System, i: nat)
    requires i in s.sessions
  {
    Unwritten(s.sessions[i]).Some? ==>
      && Unwritten(s.sessions[i]).value !in s.store.tokens
      && forall j <- s.sessions | j != i :: Unwritten(s.sessions[j]) != Unwritten(s.sessions[i])
  }

  /** Every key and every call holds what was drawn for its address, and a token is written once. */
  ghost predicate Registry(s: System) {
    && (forall t <- s.store.tokens :: TokenIssued(s, t))
    && (forall a <- s.store.emails :: EmailIssued(s, a))
    && (forall i <- s.sessions :: SessionIssued(s, s.sessions[i]) && WriteOnce(s, i))
  }

  /** Only the call that runs changes, and only by drawing a fresh token does it get a new one to write. */
  lemma StepMovesOneCall(s: System, e: Event, i: nat)
    requires i in Apply(s, e).sessions
    ensures e.Elapse? || i != e.id ==> i in s.sessions
    ensures i in s.sessions && !(e.Step? && i == e.id) ==> Apply(s, e).sessions[i] == s.sessions[i]
    ensures var unwritten := Unwritten(Apply(s, e).sessions[i]);
            && unwritten.Some?
            && !(i in s.sessions && Unwritten(s.sessions[i]) == unwritten)
            ==> !e.Elapse? && i == e.id && unwritten.value !in s.issued
  {
    hide Lower, Read;
  }

  lemma StepKeepsIssued(s: System, e: Event, token: Token)
    requires token in s.issued
    ensures token in Apply(s, e).issued && Apply(s, e).issued[token] == s.issued[token]
  {
    hide Lower, Read;
  }

  lemma MoverKeepsSessionIssued(s: System, e: Event)
    requires Registry(s) && !e.Elapse? && e.id in Apply(s, e).sessions
    ensures SessionIssued(Apply(s, e), Apply(s, e).sessions[e.id])
  {
    hide Lower, WriteOnce;
  }

  lemma StepKeepsSessionIssued(s: System, e: Event, i: nat)
    requires Registry(s) && i in Apply(s, e).sessions
    ensures SessionIssued(Apply(s, e), Apply(s, e).sessions[i])
  {
    hide Lower, WriteOnce, TokenIssued, EmailIssued, Apply;
    if !e.Elapse? && i == e.id {
      MoverKeepsSessionIssued(s, e);
    } else {
      StepMovesOneCall(s, e, i);
      var session := s.sessions[i];
      StepKeepsIssued(s, e, if session.ResendFind? then session.found else session.data.token);
      if session.SaveDrop? {
        StepKeepsIssued(s, e, session.existing);
      }
    }
  }

  /** A stored registration was stored before, or is the one a running save sets under its own token. */
  lemma StepStores(s: System, e: Event, t: Token)
    requires t in Apply(s, e).store.tokens
    ensures (t in s.store.tokens && Apply(s, e).store.tokens[t] == s.store.tokens[t])
            || (e.Step? && e.id in s.sessions && s.sessions[e.id].SaveSetToken?
                && t == s.sessions[e.id].data.token && Apply(s, e).store.tokens[t].value == s.sessions[e.id].data)
  {
    hide Lower, Read;
  }

  lemma StepKeepsTokenIssued(s: System, e: Event, t: Token)
    requires Registry(s) && t in Apply(s, e).store.tokens
    ensures TokenIssued(Apply(s, e), t)
  {
    hide Lower, WriteOnce, EmailIssued, Apply;
    StepStores(s, e, t);
    StepKeepsIssued(s, e, t);
  }

  lemma StepKeepsEmailIssued(s: System, e: Event, a: string)
    requires Registry(s) && a in Apply(s, e).store.emails
    ensures EmailIssued(Apply(s, e), a)
  {
    hide Lower, WriteOnce, TokenIssued, Read;
  }

  lemma StepWritesUnwritten(s: System, e: Event, t: Token)
    requires t in Apply(s, e).store.tokens && t !in s.store.tokens
    ensures !e.Elapse? && e.id in s.sessions && Unwritten(s.sessions[e.id]) == Some(t)
    ensures e.id in Apply(s, e).sessions && Unwritten(Apply(s, e).sessions[e.id]).None?
  {
    hide Lower, Read;
  }

  lemma StepKeepsWriteOnce(s: System, e: Event, i: nat)
    requires Registry(s) && i in Apply(s, e).sessions
    ensures WriteOnce(Apply(s, e), i)
  {
    hide Lower, EmailIssued, Apply;
    var next := Apply(s, e);
    StepMovesOneCall(s, e, i);
    var unwritten := Unwritten(next.sessions[i]);
    if unwritten.Some? {
      if unwritten.value in next.store.tokens && unwritten.value !in s.store.tokens {
        StepWritesUnwritten(s, e, unwritten.value);
      }
      forall j <- next.sessions | j != i ensures Unwritten(next.sessions[j]) != unwritten {
        StepMovesOneCall(s, e, j);
      }
    }
  }

  lemma StepKeepsRegistry(s: System, e: Event)
    requires Registry(s)
    ensures Registry(Apply(s, e))
  {
    hide Lower, WriteOnce, TokenIssued, EmailIssued, SessionIssued, Apply;
    var next := Apply(s, e);
    forall t <- next.store.tokens ensures TokenIssued(next, t) {
      StepKeepsTokenIssued(s, e, t);
    }
    forall a <- next.store.emails ensures EmailIssued(next, a) {
      StepKeepsEmailIssued(s, e, a);
    }
    forall i <- next.sessions ensures SessionIssued(next, next.sessions[i]) && WriteOnce(next, i) {
      StepKeepsSessionIssued(s, e, i);
      StepKeepsWriteOnce(s, e, i);
    }
  }

  predicate Usable(s: System, token: Token) {
    FindByToken(s.store, token).Some?
  }

  /** The token has been drawn and no call is still going to write it. */
  ghost predicate Settled(s: System, token: Token) {
    token in s.issued && forall i <- s.sessions :: Unwritten(s.sessions[i]) != Some(token)
  }

  lemma StepKeepsSettled(s: System, e: Event, token: Token)
    requires Settled(s, token)
    ensures Settled(Apply(s, e), token)
  {
    hide Lower, Apply;
    StepKeepsIssued(s, e, token);
    forall i <- Apply(s, e).sessions ensures Unwritten(Apply(s, e).sessions[i]) != Some(token) {
      StepMovesOneCall(s, e, i);
    }
  }

  lemma StepKeepsSpent(s: System, e: Event, token: Token)
    requires Settled(s, token) && !Usable(s, token)
    ensures !Usable(Apply(s, e), token)
  {
    hide Lower;
  }

  lemma {:induction false} SpentStaysSpent(s: System, events: seq<Event>, token: Token)
    requires Settled(s, token) && !Usable(s, token)
    ensures !Usable(Run(s, events), token)
    decreases |events|
  {
    if events != [] {
      StepKeepsSettled(s, events[0], token);
      StepKeepsSpent(s, events[0], token);
      SpentStaysSpent(Apply(s, events[0]), events[1..], token);
    }
  }

  lemma {:induction false} RunKeepsSettled(s: System, events: seq<Event>, token: Token)
    requires Settled(s, token)
    ensures Settled(Run(s, events), token)
    decreases |events|
  {
    if events != [] {
      StepKeepsSettled(s, events[0], token);
      RunKeepsSettled(Apply(s, events[0]), events[1..], token);
    }
  }

  lemma {:induction false} RunKeepsRegistry(s: System, events: seq<Event>)
    requires Registry(s)
    ensures Registry(Run(s, events))
    decreases |events|
  {
    if events != [] {
      StepKeepsRegistry(s, events[0]);
      RunKeepsRegistry(Apply(s, events[0]), events[1..]);
    }
  }

  /**
   * A link that once worked and then stopped, because it was verified, replaced or a day old, never
   * works again, under every interleaving of every call.
   */
  lemma LinkStopsForGood(start: seq<Event>, until: seq<Event>, after: seq<Event>, token: Token)
    requires Usable(Run(INITIAL, start), token)
    requires !Usable(Run(Run(INITIAL, start), until), token)
    ensures !Usable(Run(Run(Run(INITIAL, start), until), after), token)
  {
    var s := Run(INITIAL, start);
    RunKeepsRegistry(INITIAL, start);
    assert TokenIssued(s, token);
    forall i <- s.sessions ensures Unwritten(s.sessions[i]) != Some(token) {
      assert WriteOnce(s, i);
    }
    RunKeepsSettled(s, until, token);
    SpentStaysSpent(Run(s, until), after, token);
  }

  // ---------------------------------------------------------------------------------------------
  // What holds when no two calls for one address overlap
  // ---------------------------------------------------------------------------------------------

  predicate OneCallPerAddress(s: System) {
    forall i <- s.sessions, j <- s.sessions | i != j :: Address(s.sessions[i]) != Address(s.sessions[j])
  }

  predicate Disciplined(s: System, events: seq<Event>)
    decreases |events|
  {
    OneCallPerAddress(s) && (events != [] ==> Disciplined(Apply(s, events[0]), events[1..]))
  }

  function Home(s: System, token: Token): string
    requires token in s.store.tokens
  {
    HomeIn(s.store, token)
  }

  ghost predicate NoneUsableBut(s: System, address: string, keep: set<Token>) {
    forall t <- s.store.tokens :: Usable(s, t) && Home(s, t) == address ==> t in keep
  }

  /** What a call has made sure of by the time it runs its next command. */
  ghost predicate Prepared(s: System, session: Session) {
    match session
    case SaveDrop(data, existing) => NoneUsableBut(s, Lower(data.email), {existing})
    case SaveSetToken(data) => NoneUsableBut(s, Lower(data.email), {})
    case SaveSetEmail(data) =>
      && NoneUsableBut(s, Lower(data.email), {data.token})
      && (data.token in s.store.tokens ==> s.store.tokens[data.token].expiresAt <= s.store.now + TTL)
    case VerifyDropToken(data) => NoneUsableBut(s, Lower(data.email), {data.token})
    case VerifyDropEmail(data) => NoneUsableBut(s, Lower(data.email), {})
    case _ => true
  }

  ghost predicate PointsBack(s: System, t: Token)
    requires t in s.store.tokens
  {
    PointsBackIn(s.store, t)
  }

  predicate AboutToLink(session: Session, t: Token) {
    session.SaveSetEmail? && session.data.token == t
  }

  ghost predicate Linked(s: System, t: Token)
    requires t in s.store.tokens
  {
    Usable(s, t) ==> PointsBack(s, t) || exists i <- s.sessions :: AboutToLink(s.sessions[i], t)
  }

  ghost predicate Consistent(s: System) {
    && Registry(s)
    && (forall i <- s.sessions :: Prepared(s, s.sessions[i]))
    && (forall t <- s.store.tokens :: Linked(s, t))
  }

  lemma UnlinkedIsAlone(s: System, t: Token, u: Token)
    requires Consistent(s) && Usable(s, t) && Usable(s, u) && Home(s, t) == Home(s, u)
    requires !PointsBack(s, t)
    ensures t == u
  {
    hide Lower, WriteOnce, EmailIssued;
    assert Linked(s, t) && TokenIssued(s, t);
    var i :| i in s.sessions && AboutToLink(s.sessions[i], t);
    assert SessionIssued(s, s.sessions[i]) && Prepared(s, s.sessions[i]);
  }

  /** At most one token per address is usable, even in the middle of a call. */
  lemma UsableIsUnique(s: System, t: Token, u: Token)
    requires Consistent(s) && Usable(s, t) && Usable(s, u) && Home(s, t) == Home(s, u)
    ensures t == u
  {
    if !PointsBack(s, t) {
      UnlinkedIsAlone(s, t, u);
    } else if !PointsBack(s, u) {
      UnlinkedIsAlone(s, u, t);
    }
  }

  predicate RunsAt(s: System, e: Event, address: string) {
    e.Step? && e.id in s.sessions && Address(s.sessions[e.id]) == address
  }

  /** A call touches only its own address. */
  lemma StepStaysHome(s: System, e: Event, t: Token)
    requires t in Apply(s, e).store.tokens
    requires !RunsAt(s, e, Home(Apply(s, e), t))
    ensures t in s.store.tokens && s.store.tokens[t] == Apply(s, e).store.tokens[t]
    ensures Usable(Apply(s, e), t) ==> Usable(s, t)
    ensures var a := Home(s, t);
            && (a in s.store.emails <==> a in Apply(s, e).store.emails)
            && (a in s.store.emails ==> s.store.emails[a] == Apply(s, e).store.emails[a])
  {
    hide Lower;
  }

  lemma StepKeepsTime(s: System, e: Event)
    ensures s.store.now <= Apply(s, e).store.now
  {
    hide Lower, Read;
  }

  lemma StepElsewhereKeepsPrepared(s: System, e: Event, session: Session)
    requires Registry(s) && SessionIssued(s, session)
    requires Prepared(s, session) && !RunsAt(s, e, Address(session))
    ensures Prepared(Apply(s, e), session)
  {
    hide Lower, Apply, Usable, WriteOnce, EmailIssued;
    var next := Apply(s, e);
    StepKeepsTime(s, e);
    StepKeepsRegistry(s, e);
    forall t <- next.store.tokens | Home(next, t) == Address(session)
      ensures t in s.store.tokens && s.store.tokens[t] == next.store.tokens[t]
      ensures Usable(next, t) ==> Usable(s, t)
    {
      StepStaysHome(s, e, t);
    }
    if session.SaveSetEmail? && session.data.token in next.store.tokens {
      assert TokenIssued(next, session.data.token);
      StepKeepsIssued(s, e, session.data.token);
    }
  }

  /** The address key a save reads first leads to the one token that has to go. */
  lemma ReadFindsUsable(s: System, i: nat, t: Token)
    requires Consistent(s) && OneCallPerAddress(s)
    requires i in s.sessions && s.sessions[i].SaveRead?
    requires t in s.store.tokens && Usable(s, t) && Home(s, t) == Address(s.sessions[i])
    ensures FindTokenByEmail(s.store, s.sessions[i].data.email) == Some(t) && t != s.sessions[i].data.token
  {
    hide Lower, EmailIssued, Prepared;
    assert Linked(s, t) && TokenIssued(s, t) && WriteOnce(s, i);
    forall j <- s.sessions ensures !AboutToLink(s.sessions[j], t) {
      assert SessionIssued(s, s.sessions[j]);
    }
  }

  lemma ReadPreparesSave(s: System, e: Event)
    requires Consistent(s) && OneCallPerAddress(s)
    requires e.Step? && e.id in s.sessions && s.sessions[e.id].SaveRead?
    requires e.id in Apply(s, e).sessions
    ensures Prepared(Apply(s, e), Apply(s, e).sessions[e.id])
  {
    hide Lower, Registry, Linked;
    forall t <- s.store.tokens | Usable(s, t) && Home(s, t) == Address(s.sessions[e.id])
      ensures FindTokenByEmail(s.store, s.sessions[e.id].data.email) == Some(t) && t != s.sessions[e.id].data.token
    {
      ReadFindsUsable(s, e.id, t);
    }
  }

  /** Each command leaves the store as the call's next command expects it. */
  lemma StepPreparesItself(s: System, e: Event)
    requires Consistent(s) && OneCallPerAddress(s)
    requires e.Step? && e.id in s.sessions && e.id in Apply(s, e).sessions
    ensures Prepared(Apply(s, e), Apply(s, e).sessions[e.id])
  {
    hide Lower, Registry, Linked;
    if s.sessions[e.id].SaveRead? {
      ReadPreparesSave(s, e);
    }
  }

  lemma VerifyPreparesItself(s: System, e: Event)
    requires Consistent(s) && e.Verify? && FindByToken(s.store, e.token).Some?
    ensures Prepared(s, VerifyDropToken(FindByToken(s.store, e.token).value))
  {
    hide Lower, EmailIssued, WriteOnce, Linked;
    assert TokenIssued(s, e.token);
    forall t <- s.store.tokens | Usable(s, t) && Home(s, t) == Home(s, e.token) ensures t == e.token {
      UsableIsUnique(s, t, e.token);
    }
  }

  lemma StartIsPrepared(s: System, e: Event)
    requires Consistent(s) && !e.Elapse? && e.id !in s.sessions && e.id in Apply(s, e).sessions
    ensures Prepared(Apply(s, e), Apply(s, e).sessions[e.id])
  {
    hide Lower, Registry, Linked;
    if e.Verify? {
      VerifyPreparesItself(s, e);
    }
  }

  lemma StepKeepsPrepared(s: System, e: Event, i: nat)
    requires Consistent(s) && OneCallPerAddress(s) && i in Apply(s, e).sessions
    ensures Prepared(Apply(s, e), Apply(s, e).sessions[i])
  {
    hide Lower, SessionIssued, TokenIssued, EmailIssued, WriteOnce, Linked, Apply, Advance, Prepared;
    if !e.Elapse? && i == e.id && i !in s.sessions {
      StartIsPrepared(s, e);
    } else {
      StepMovesOneCall(s, e, i);
      if e.Step? && i == e.id {
        StepPreparesItself(s, e);
      } else {
        StepElsewhereKeepsPrepared(s, e, s.sessions[i]);
      }
    }
  }

  /** The call that runs leaves no usable token of its address unlinked. */
  lemma StepLinksItself(s: System, e: Event, t: Token)
    requires Consistent(s) && t in Apply(s, e).store.tokens
    requires RunsAt(s, e, Home(Apply(s, e), t))
    ensures Linked(Apply(s, e), t)
  {
    hide Lower, Registry;
    var next := Apply(s, e);
    if t in s.store.tokens && Usable(s, t) && !PointsBack(s, t) {
      assert Linked(s, t);
      var i :| i in s.sessions && AboutToLink(s.sessions[i], t);
      assert i != e.id ==> i in next.sessions && next.sessions[i] == s.sessions[i];
    }
    if s.sessions[e.id].SaveSetToken? && e.random !in s.issued {
      assert t == s.sessions[e.id].data.token ==> AboutToLink(next.sessions[e.id], t);
    }
  }

  lemma StepKeepsOtherCalls(s: System, e: Event, i: nat)
    requires i in s.sessions && !(e.Step? && i == e.id)
    ensures i in Apply(s, e).sessions && Apply(s, e).sessions[i] == s.sessions[i]
  {
    hide Lower, Read;
  }

  lemma StepElsewhereKeepsLinked(s: System, e: Event, t: Token)
    requires Consistent(s) && t in Apply(s, e).store.tokens
    requires !RunsAt(s, e, Home(Apply(s, e), t))
    ensures Linked(Apply(s, e), t)
  {
    hide Lower, WriteOnce, EmailIssued, Prepared, Apply;
    StepStaysHome(s, e, t);
    assert Linked(s, t) && TokenIssued(s, t);
    if Usable(s, t) && !PointsBack(s, t) {
      var i :| i in s.sessions && AboutToLink(s.sessions[i], t);
      assert SessionIssued(s, s.sessions[i]);
      StepKeepsOtherCalls(s, e, i);
    }
  }

  lemma StepKeepsConsistent(s: System, e: Event)
    requires Consistent(s) && OneCallPerAddress(s)
    ensures Consistent(Apply(s, e))
  {
    hide Lower, Registry, Prepared, Linked, Apply, OneCallPerAddress;
    var next := Apply(s, e);
    StepKeepsRegistry(s, e);
    forall i <- next.sessions ensures Prepared(next, next.sessions[i]) {
      StepKeepsPrepared(s, e, i);
    }
    forall t <- next.store.tokens ensures Linked(next, t) {
      if RunsAt(s, e, Home(next, t)) {
        StepLinksItself(s, e, t);
      } else {
        StepElsewhereKeepsLinked(s, e, t);
      }
    }
  }

  // ---------------------------------------------------------------------------------------------
  // When exactly one address gets two usable tokens
  // ---------------------------------------------------------------------------------------------

  ghost predicate AtMostOne(s: System) {
    forall t <- s.store.tokens, u <- s.store.tokens ::
      Usable(s, t) && Usable(s, u) && Home(s, t) == Home(s, u) ==> t == u
  }

  /** A save writes its token while another token of the address is still usable. */
  ghost predicate Blind(s: System, e: Event) {
    && e.Step? && e.id in s.sessions && e.random !in s.issued && s.sessions[e.id].SaveSetToken?
    && exists t <- s.store.tokens :: Usable(s, t) && Home(s, t) == Address(s.sessions[e.id])
  }

  lemma StepKeepsUsable(s: System, e: Event, t: Token)
    requires t in Apply(s, e).store.tokens && Usable(Apply(s, e), t)
    ensures (t in s.store.tokens && Usable(s, t) && s.store.tokens[t] == Apply(s, e).store.tokens[t])
            || (e.Step? && e.id in s.sessions && e.random !in s.issued && s.sessions[e.id].SaveSetToken?
                && t == s.sessions[e.id].data.token && Home(Apply(s, e), t) == Address(s.sessions[e.id]))
  {
    hide Lower;
  }

  lemma BlindLeavesTwo(s: System, e: Event)
    requires Registry(s) && Blind(s, e)
    ensures !AtMostOne(Apply(s, e))
  {
    hide Lower;
    var data := s.sessions[e.id].data;
    var t :| t in s.store.tokens && Usable(s, t) && Home(s, t) == Address(s.sessions[e.id]);
    assert WriteOnce(s, e.id);
    var next := Apply(s, e);
    assert t != data.token && t in next.store.tokens && Usable(next, t) && Home(next, t) == Home(s, t);
    assert data.token in next.store.tokens && Usable(next, data.token) && Home(next, data.token) == Lower(data.email);
  }

  /** From at most one usable token an address, a step leads to two exactly when it is a blind write. */
  lemma StepKeepsAtMostOneIff(s: System, e: Event)
    requires Registry(s) && AtMostOne(s)
    ensures AtMostOne(Apply(s, e)) <==> !Blind(s, e)
  {
    if Blind(s, e) {
      BlindLeavesTwo(s, e);
    } else {
      hide Lower, Apply, Usable;
      var next := Apply(s, e);
      forall t <- next.store.tokens, u <- next.store.tokens |
        Usable(next, t) && Usable(next, u) && Home(next, t) == Home(next, u)
        ensures t == u
      {
        StepKeepsUsable(s, e, t);
        StepKeepsUsable(s, e, u);
      }
    }
  }

  ghost predicate AtMostOneThroughout(s: System, events: seq<Event>)
    decreases |events|
  {
    AtMostOne(s) && (events != [] ==> AtMostOneThroughout(Apply(s, events[0]), events[1..]))
  }

  ghost predicate NeverBlind(s: System, events: seq<Event>)
    decreases |events|
  {
    events != [] ==> !Blind(s, events[0]) && NeverBlind(Apply(s, events[0]), events[1..])
  }

  lemma {:induction false} ThroughoutIff(s: System, events: seq<Event>)
    requires Registry(s) && AtMostOne(s)
    ensures AtMostOneThroughout(s, events) <==> NeverBlind(s, events)
    decreases |events|
  {
    if events != [] {
      hide Registry, AtMostOne, Blind, Apply;
      StepKeepsRegistry(s, events[0]);
      StepKeepsAtMostOneIff(s, events[0]);
      if !Blind(s, events[0]) {
        ThroughoutIff(Apply(s, events[0]), events[1..]);
      }
    }
  }

  /**
   * In every interleaving of every call, at most one link per address works at every moment if and
   * only if no save writes its token while another token of the address is usable.
   */
  lemma OneUsableThroughoutIff(events: seq<Event>)
    ensures AtMostOneThroughout(INITIAL, events) <==> NeverBlind(INITIAL, events)
  {
    ThroughoutIff(INITIAL, events);
  }

  lemma PreparedIsNotBlind(s: System, e: Event)
    requires Consistent(s)
    ensures !Blind(s, e)
  {
    hide Lower, Registry, Linked;
    if e.Step? && e.id in s.sessions { assert Prepared(s, s.sessions[e.id]); }
  }

  lemma {:induction false} DisciplinedIsNeverBlind(s: System, events: seq<Event>)
    requires Consistent(s) && Disciplined(s, events)
    ensures NeverBlind(s, events)
    decreases |events|
  {
    if events != [] {
      hide Consistent, Blind, Apply, OneCallPerAddress;
      PreparedIsNotBlind(s, events[0]);
      StepKeepsConsistent(s, events[0]);
      DisciplinedIsNeverBlind(Apply(s, events[0]), events[1..]);
    }
  }

  lemma {:induction false} ThroughoutAtEnd(s: System, events: seq<Event>)
    requires AtMostOneThroughout(s, events)
    ensures AtMostOne(Run(s, events))
    decreases |events|
  {
    if events != [] {
      hide AtMostOne, Apply;
      ThroughoutAtEnd(Apply(s, events[0]), events[1..]);
    }
  }

  /**
   * Calls for one address that never overlap never write blindly, so then at most one link per
   * address works, whatever calls for other addresses and the clock do in between.
   */
  lemma OneUsableTokenPerAddress(events: seq<Event>, t: Token, u: Token)
    requires Disciplined(INITIAL, events)
    requires Usable(Run(INITIAL, events), t) && Usable(Run(INITIAL, events), u)
    requires Home(Run(INITIAL, events), t) == Home(Run(INITIAL, events), u)
    ensures t == u
  {
    hide Disciplined, Run, Lower, AtMostOneThroughout, NeverBlind;
    assert Consistent(INITIAL);
    DisciplinedIsNeverBlind(INITIAL, events);
    OneUsableThroughoutIff(events);
    ThroughoutAtEnd(INITIAL, events);
  }

  lemma RunNone(s: System)
    ensures Run(s, []) == s
  {
  }

  lemma RunOne(s: System, e: Event, events: seq<Event>)
    ensures Run(s, [e] + events) == Run(Apply(s, e), events)
  {
    assert ([e] + events)[1..] == events;
  }

  function OverlapEnd(one: Event, two: Event): seq<Event> {
    [one] + ([one] + ([two] + ([two] + [])))
  }

  lemma OverlapEnds(first: Registration, second: Registration, random: Token, s: System)
    requires first.token != second.token && random !in s.issued
    requires s.store == INITIAL.store
    requires s.sessions == map[1 := SaveSetToken(first), 2 := SaveSetToken(second)]
    ensures var end := Run(s, OverlapEnd(Step(1, random), Step(2, random)));
            && end.sessions == map[]
            && FindByToken(end.store, first.token) == Some(first)
            && FindByToken(end.store, second.token) == Some(second)
  {
    hide Lower, Run;
    var one, two := Step(1, random), Step(2, random);
    RunOne(s, one, [one] + ([two] + ([two] + [])));
    var s1 := Apply(s, one);
    RunOne(s1, one, [two] + ([two] + []));
    var s2 := Apply(s1, one);
    assert s2.sessions == map[2 := SaveSetToken(second)];
    RunOne(s2, two, [two] + []);
    var s3 := Apply(s2, two);
    RunOne(s3, two, []);
    RunNone(Apply(s3, two));
    assert Apply(s3, two).sessions == map[];
  }

  /** Two registrations of one address that overlap leave two links that both work. */
  lemma OverlapLeavesTwoUsable(first: Registration, second: Registration, random: Token)
    returns (events: seq<Event>)
    requires Lower(first.email) == Lower(second.email)
    requires first.token != second.token && random != first.token && random != second.token
    ensures var s := Run(INITIAL, events);
            && s.sessions == map[]
            && FindByToken(s.store, first.token) == Some(first)
            && FindByToken(s.store, second.token) == Some(second)
  {
    var a := Lower(first.email);
    var issued := map[first.token := a, second.token := a];
    var tokens := map[first.token := Entry(first, TTL), second.token := Entry(second, TTL)];
    hide Lower, Run;
    var one, two := Step(1, random), Step(2, random);
    events := [Register(1, first)] + ([Register(2, second)] + ([one] + ([two] + OverlapEnd(one, two))));
    RunOne(INITIAL, Register(1, first), [Register(2, second)] + ([one] + ([two] + OverlapEnd(one, two))));
    var s1 := Apply(INITIAL, Register(1, first));
    RunOne(s1, Register(2, second), [one] + ([two] + OverlapEnd(one, two)));
    var s2 := Apply(s1, Register(2, second));
    RunOne(s2, one, [two] + OverlapEnd(one, two));
    var s3 := Apply(s2, one);
    RunOne(s3, two, OverlapEnd(one, two));
    var s4 := Apply(s3, two);
    assert s4 == System(INITIAL.store, map[1 := SaveSetToken(first), 2 := SaveSetToken(second)], issued);
    OverlapEnds(first, second, random, s4);
  }

  lemma SaveWrites(before: System, s: System, i: nat, random: Token, setToken: nat, setEmail: nat)
    requires i in before.sessions && !before.sessions[i].ResendFind? && random !in s.issued
    requires s.sessions == before.sessions[i := SaveSetToken(before.sessions[i].data)]
    ensures var data := before.sessions[i].data;
            var end := Run(s, [Elapse(setToken)] + ([Step(i, random)] + ([Elapse(setEmail)] + ([Step(i, random)] + []))));
            && end.sessions == before.sessions - {i} && end.issued == s.issued
            && end.store == SetEmail(Later(SetToken(Later(s.store, setToken), data), setEmail), data)
  {
    hide Lower, Run, Read, Advance, Apply;
    var step, data := Step(i, random), before.sessions[i].data;
    RunOne(s, Elapse(setToken), [step] + ([Elapse(setEmail)] + ([step] + [])));
    ElapseOnly(s, setToken);
    var s1 := Apply(s, Elapse(setToken));
    RunOne(s1, step, [Elapse(setEmail)] + ([step] + []));
    SetTokenStep(s1, i, random);
    var s2 := Apply(s1, step);
    RunOne(s2, Elapse(setEmail), [step] + []);
    ElapseOnly(s2, setEmail);
    var s3 := Apply(s2, Elapse(setEmail));
    RunOne(s3, step, []);
    SetEmailStep(s3, i, random);
    RunNone(Apply(s3, step));
    assert s3.sessions - {i} == before.sessions - {i};
  }

  lemma ElapseOnly(s: System, seconds: nat)
    ensures Apply(s, Elapse(seconds)) == s.(store := Later(s.store, seconds))
  {
  }

  lemma SetTokenStep(s: System, i: nat, random: Token)
    requires i in s.sessions && s.sessions[i].SaveSetToken? && random !in s.issued
    ensures var data := s.sessions[i].data;
            Apply(s, Step(i, random)) == System(SetToken(s.store, data), s.sessions[i := SaveSetEmail(data)], s.issued)
  {
  }

  lemma SetEmailStep(s: System, i: nat, random: Token)
    requires i in s.sessions && s.sessions[i].SaveSetEmail? && random !in s.issued
    ensures Apply(s, Step(i, random)) == System(SetEmail(s.store, s.sessions[i].data), s.sessions - {i}, s.issued)
  {
  }

  /** The save of the protocol, run with nothing but the clock in between, is the save of the service. */
  lemma SaveAlone(s: System, i: nat, random: Token, drop: nat, setToken: nat, setEmail: nat)
    returns (events: seq<Event>)
    requires i in s.sessions && s.sessions[i].SaveRead? && random !in s.issued
    ensures var end := Run(s, events);
            && end.store == Saved(s.store, s.sessions[i].data, drop, setToken, setEmail)
            && end.sessions == s.sessions - {i} && end.issued == s.issued
  {
    hide Lower, Run;
    var step := Step(i, random);
    var write := [Elapse(setToken)] + ([step] + ([Elapse(setEmail)] + ([step] + [])));
    var s1 := Apply(Apply(s, step), Elapse(drop));
    if s1.sessions[i].SaveDrop? {
      events := [step] + ([Elapse(drop)] + ([step] + write));
      RunOne(s, step, [Elapse(drop)] + ([step] + write));
      RunOne(Apply(s, step), Elapse(drop), [step] + write);
      RunOne(s1, step, write);
      SaveWrites(s, Apply(s1, step), i, random, setToken, setEmail);
    } else {
      events := [step] + ([Elapse(drop)] + write);
      RunOne(s, step, [Elapse(drop)] + write);
      RunOne(Apply(s, step), Elapse(drop), write);
      SaveWrites(s, s1, i, random, setToken, setEmail);
    }
  }

  lemma {:induction false} RunAppend(s: System, es: seq<Event>, more: seq<Event>)
    ensures Run(s, es + more) == Run(Run(s, es), more)
    decreases |es|
  {
    if es == [] {
      assert es + more == more;
    } else {
      assert (es + more)[0] == es[0] && (es + more)[1..] == es[1..] + more;
      RunAppend(Apply(s, es[0]), es[1..], more);
    }
  }

  lemma RunFirst(s: System, e: Event)
    ensures Run(s, [e]) == Apply(s, e)
  {
    RunOne(s, e, []);
    assert [e] + [] == [e];
    RunNone(Apply(s, e));
  }

  /** A whole registration that no other call interrupts. */
  lemma RegisterAlone(s: System, data: Registration, random: Token) returns (events: seq<Event>)
    requires 1 !in s.sessions && data.token !in s.issued && random !in s.issued && random != data.token
    ensures var end := Run(s, events);
            && end.store == Saved(s.store, data, 0, 0, 0) && end.sessions == s.sessions
            && end.issued == s.issued[data.token := Lower(data.email)]
  {
    hide Lower, Run, Saved;
    var s1 := Apply(s, Register(1, data));
    assert s1 == Goto(s.(issued := s.issued[data.token := Lower(data.email)]), 1, SaveRead(data));
    var rest := SaveAlone(s1, 1, random, 0, 0, 0);
    events := [Register(1, data)] + rest;
    RunOne(s, Register(1, data), rest);
    assert s1.sessions - {1} == s.sessions;
  }

  /** Verification of the first link, begun before a second registration and ended after it. */
  lemma LateVerify(first: Registration, second: Registration, random: Token) returns (events: seq<Event>)
    requires Lower(first.email) == Lower(second.email)
    requires first.token != second.token && random != first.token && random != second.token
    ensures var s := Run(INITIAL, events);
            && s.sessions == map[] && s.issued.Keys == {first.token, second.token}
            && s.store == Store(map[second.token := Entry(second, TTL)], map[], 0)
  {
    hide Lower, Run;
    var a := Lower(first.email);
    var es1 := RegisterAlone(INITIAL, first, random);
    var s1 := Run(INITIAL, es1);
    assert s1.store == Store(map[first.token := Entry(first, TTL)], map[a := Entry(first.token, TTL)], 0);
    var verify := Verify(2, first.token);
    var s2 := Apply(s1, verify);
    assert s2 == s1.(sessions := map[2 := VerifyDropToken(first)]);
    var es2 := RegisterAlone(s2, second, random);
    var s3 := Run(s2, es2);
    assert s3.store.tokens == map[second.token := Entry(second, TTL)];
    assert s3.store.emails == map[a := Entry(second.token, TTL)];
    var step := Step(2, random);
    var s4 := Apply(s3, step);
    assert s4.store == s3.store && s4.sessions == map[2 := VerifyDropEmail(first)];
    var s5 := Apply(s4, step);
    assert s5.store == Store(s3.store.tokens, map[], 0) && s5.sessions == map[];
    events := es1 + ([verify] + (es2 + ([step] + [step])));
    RunAppend(INITIAL, es1, [verify] + (es2 + ([step] + [step])));
    RunOne(s1, verify, es2 + ([step] + [step]));
    RunAppend(s2, es2, [step] + [step]);
    RunOne(s3, step, [step]);
    RunFirst(s4, step);
  }

  predicate Different(a: Token, b: Token, c: Token, d: Token) {
    a != b && a != c && a != d && b != c && b != d && c != d
  }

  /**
   * A verification that ends after a second registration takes the second link's address key with
   * it. A third registration, overlapping nothing, is then blind to the second link.
   */
  lemma LateVerifyHidesNewerLink(first: Registration, second: Registration, third: Registration, random: Token)
    returns (events: seq<Event>, more: seq<Event>)
    requires Lower(first.email) == Lower(second.email) == Lower(third.email)
    requires Different(first.token, second.token, third.token, random)
    ensures Run(INITIAL, events).sessions == map[] && AtMostOne(Run(INITIAL, events))
    ensures var s := Run(Run(INITIAL, events), more);
            && s.sessions == map[]
            && FindByToken(s.store, second.token) == Some(second)
            && FindByToken(s.store, third.token) == Some(third)
  {
    events := LateVerify(first, second, random);
    hide Lower, Run;
    more := RegisterAlone(Run(INITIAL, events), third, random);
  }

  /** A verification that nothing interrupts finds what its token leads to and leaves neither key of it. */
  lemma VerifyAlone(s: System, id: nat, token: Token, random: Token)
    requires id !in s.sessions && random !in s.issued && FindByToken(s.store, token).Some?
    ensures var data := FindByToken(s.store, token).value;
            Run(s, [Verify(id, token)] + ([Step(id, random)] + [Step(id, random)])) ==
            s.(store := DropEmail(DropToken(s.store, data.token), data.email))
  {
    hide Lower, Run;
    var data := FindByToken(s.store, token).value;
    var verify, step := Verify(id, token), Step(id, random);
    RunOne(s, verify, [step] + [step]);
    var s1 := Apply(s, verify);
    assert s1 == s.(sessions := s.sessions[id := VerifyDropToken(data)]);
    RunOne(s1, step, [step]);
    var s2 := Apply(s1, step);
    assert s2 == System(DropToken(s.store, data.token), s.sessions[id := VerifyDropEmail(data)], s.issued);
    RunFirst(s2, step);
    assert s2.sessions - {id} == s.sessions;
  }

  /** A verification of a token that leads nowhere, and a resend to an address that does, do nothing. */
  lemma NothingFoundNothingDone(s: System, id: nat, token: Token, email: string)
    ensures FindByToken(s.store, token).None? ==> Apply(s, Verify(id, token)) == s
    ensures FindTokenByEmail(s.store, email).None? ==> Apply(s, Resend(id, email)) == s
  {
    hide Lower;
  }

  /**
   * A resend that nothing interrupts saves the registration its address leads to once more, under a
   * fresh token and otherwise unchanged, or does nothing when the address leads to none.
   */
  lemma ResendAlone(s: System, id: nat, email: string, drawn: Token, random: Token) returns (events: seq<Event>)
    requires id !in s.sessions && drawn !in s.issued && random !in s.issued && random != drawn
    requires FindTokenByEmail(s.store, email).Some?
    ensures var pending := FindByToken(s.store, FindTokenByEmail(s.store, email).value);
            var end := Run(s, events);
            && end.sessions == s.sessions
            && end.store == (if pending.None? then s.store else Saved(s.store, pending.value.(token := drawn), 0, 0, 0))
            && end.issued == (if pending.None? then s.issued else s.issued[drawn := Lower(pending.value.email)])
  {
    hide Lower, Run, Saved;
    var token := FindTokenByEmail(s.store, email).value;
    var pending := FindByToken(s.store, token);
    var resend, find := Resend(id, email), Step(id, drawn);
    var s1 := Apply(s, resend);
    assert s1 == s.(sessions := s.sessions[id := ResendFind(email, token)]);
    var s2 := Apply(s1, find);
    if pending.None? {
      events := [resend] + [find];
      RunOne(s, resend, [find]);
      RunFirst(s1, find);
      assert s1.sessions - {id} == s.sessions;
    } else {
      assert s2.sessions[id] == SaveRead(pending.value.(token := drawn)) && s2.store == s.store;
      var rest := SaveAlone(s2, id, random, 0, 0, 0);
      events := [resend] + ([find] + rest);
      RunOne(s, resend, [find] + rest);
      RunOne(s1, find, rest);
      assert s2.sessions - {id} == s.sessions;
    }
  }
}
