/**
 * Pending registrations, kept in Redis under two families of expiring keys: the registration under
 * its token, and the token under the lower-cased address. The service's methods, one call at a
 * time, with the time that passes before each command.
 */
module PendingRegistration {
  import opened Wrappers

  // One day, in seconds, for both families.
  const TTL := 86400

  type Token = string

  datatype Registration = Registration(email: string, details: string, token: Token)

  datatype Entry<T> = Entry(value: T, expiresAt: int)

  datatype Store = Store(tokens: map<Token, Entry<Registration>>, emails: map<string, Entry<Token>>, now: int)

  function Lower(email: string): string {
    seq(|email|, i requires 0 <= i < |email| =>
      if 'A' <= email[i] <= 'Z' then ((email[i] as int) + 32) as char else email[i])
  }

  /** Two letters that differ at most in case, within ASCII. */
  ghost predicate SameLetter(a: char, b: char) {
    || a == b
    || ('A' <= a <= 'Z' && 'a' <= b <= 'z' && b as int - a as int == 'a' as int - 'A' as int)
    || ('a' <= a <= 'z' && 'A' <= b <= 'Z' && a as int - b as int == 'a' as int - 'A' as int)
  }

  /** Two addresses share a key exactly when they agree letter by letter up to case. */
  lemma SameKeyIff(a: string, b: string)
    ensures Lower(a) == Lower(b) <==>
            |a| == |b| && forall i :: 0 <= i < |a| ==> SameLetter(a[i], b[i])
  {
    if Lower(a) == Lower(b) {
      assert |a| == |Lower(a)| == |Lower(b)| == |b|;
      forall i | 0 <= i < |a| ensures SameLetter(a[i], b[i]) {
        assert Lower(a)[i] == Lower(b)[i];
      }
    }
  }

  function Read<T>(entries: map<string, Entry<T>>, key: string, now: int): Option<T> {
    if key in entries && now < entries[key].expiresAt then Some(entries[key].value) else None
  }

  /** What a verification link carrying the token finds. */
  function FindByToken(store: Store, token: Token): Option<Registration> {
    Read(store.tokens, token, store.now)
  }

  function FindTokenByEmail(store: Store, email: string): Option<Token> {
    Read(store.emails, Lower(email), store.now)
  }

  function DropToken(store: Store, token: Token): Store {
    store.(tokens := store.tokens - {token})
  }

  function DropEmail(store: Store, email: string): Store {
    store.(emails := store.emails - {Lower(email)})
  }

  function SetToken(store: Store, data: Registration): Store {
    store.(tokens := store.tokens[data.token := Entry(data, store.now + TTL)])
  }

  function SetEmail(store: Store, data: Registration): Store {
    store.(emails := store.emails[Lower(data.email) := Entry(data.token, store.now + TTL)])
  }

  function HomeIn(store: Store, token: Token): string
    requires token in store.tokens
  {
    Lower(store.tokens[token].value.email)
  }

  /** The address points back at the token, for at least as long as the token lives. */
  ghost predicate PointsBackIn(store: Store, t: Token)
    requires t in store.tokens
  {
    && HomeIn(store, t) in store.emails
    && store.emails[HomeIn(store, t)].value == t
    && store.tokens[t].expiresAt <= store.emails[HomeIn(store, t)].expiresAt
  }

  function Later(store: Store, seconds: nat): Store {
    store.(now := store.now + seconds)
  }

  /** The store after a save that no other call for any address interrupts. */
  function Saved(store: Store, data: Registration, drop: nat, setToken: nat, setEmail: nat): Store {
    var existing := FindTokenByEmail(store, data.email);
    var dropped := if existing.Some? && existing.value != data.token
                   then DropToken(Later(store, drop), existing.value) else Later(store, drop);
    SetEmail(Later(SetToken(Later(dropped, setToken), data), setEmail), data)
  }

  /** What sequential use keeps: tokens under their own key, and an address for every usable one. */
  ghost predicate StoreValid(store: Store) {
    && (forall t <- store.tokens :: store.tokens[t].value.token == t)
    && (forall t <- store.tokens :: FindByToken(store, t).Some? ==> PointsBackIn(store, t))
    && (forall a <- store.emails :: store.emails[a].value in store.tokens ==> HomeIn(store, store.emails[a].value) == a)
  }

  /** No usable token of the address but those given. */
  ghost predicate OnlyFor(store: Store, email: string, keep: set<Token>) {
    forall t <- store.tokens :: FindByToken(store, t).Some? && HomeIn(store, t) == Lower(email) ==> t in keep
  }

  ghost predicate Fresh(store: Store, token: Token) {
    token !in store.tokens && forall a <- store.emails :: store.emails[a].value != token
  }

  lemma TimeKeepsValid(store: Store, seconds: nat)
    requires StoreValid(store)
    ensures StoreValid(Later(store, seconds))
    ensures forall t <- store.tokens :: FindByToken(Later(store, seconds), t).Some? ==> FindByToken(store, t).Some?
  {
    hide Lower;
  }

  /** In a valid store the address key leads to the one usable token of the address. */
  lemma KeyLeadsToUsable(store: Store, email: string, t: Token)
    requires StoreValid(store) && t in store.tokens && FindByToken(store, t).Some? && HomeIn(store, t) == Lower(email)
    ensures FindTokenByEmail(store, email) == Some(t)
  {
    hide Lower;
    assert PointsBackIn(store, t);
  }

  lemma DroppedStaysValid(store: Store, data: Registration)
    requires StoreValid(store)
    ensures var existing := FindTokenByEmail(store, data.email);
            var dropped := if existing.Some? then DropToken(store, existing.value) else store;
            StoreValid(dropped) && OnlyFor(dropped, data.email, {})
  {
    hide Lower;
    forall t <- store.tokens | FindByToken(store, t).Some? && HomeIn(store, t) == Lower(data.email)
      ensures FindTokenByEmail(store, data.email) == Some(t)
    {
      KeyLeadsToUsable(store, data.email, t);
    }
  }

  lemma SavedStaysValid(store: Store, data: Registration, drop: nat, setToken: nat, setEmail: nat)
    requires StoreValid(store) && Fresh(store, data.token)
    ensures var saved := Saved(store, data, drop, setToken, setEmail);
            StoreValid(saved) && OnlyFor(saved, data.email, {data.token})
  {
    hide Lower;
    var existing := FindTokenByEmail(store, data.email);
    var dropped := if existing.Some? then DropToken(store, existing.value) else store;
    DroppedStaysValid(store, data);
    TimeKeepsValid(dropped, drop + setToken);
    var before := Later(dropped, drop + setToken);
    assert Saved(store, data, drop, setToken, setEmail) == SetEmail(Later(SetToken(before, data), setEmail), data);
    WrittenStaysValid(before, data, setEmail);
  }

  /** A save touches nothing of any other address. */
  lemma SavedLeavesOthers(store: Store, data: Registration, drop: nat, setToken: nat, setEmail: nat)
    requires StoreValid(store) && Fresh(store, data.token)
    ensures var saved := Saved(store, data, drop, setToken, setEmail);
            && (forall t <- store.tokens :: HomeIn(store, t) != Lower(data.email) ==> t in saved.tokens && saved.tokens[t] == store.tokens[t])
            && (forall a <- store.emails :: a != Lower(data.email) ==> a in saved.emails && saved.emails[a] == store.emails[a])
  {
    hide Lower;
  }

  lemma WrittenStaysValid(store: Store, data: Registration, setEmail: nat)
    requires StoreValid(store) && Fresh(store, data.token) && OnlyFor(store, data.email, {})
    ensures var saved := SetEmail(Later(SetToken(store, data), setEmail), data);
            StoreValid(saved) && OnlyFor(saved, data.email, {data.token})
  {
    hide Lower;
  }

  lemma DeletedStaysValid(store: Store, data: Registration)
    requires StoreValid(store) && OnlyFor(store, data.email, {data.token})
    ensures var deleted := DropEmail(DropToken(store, data.token), data.email);
            StoreValid(deleted) && OnlyFor(deleted, data.email, {})
  {
    hide Lower;
  }

  lemma SpentWhenDeleted(store: Store, data: Registration, seconds: nat)
    requires StoreValid(store) && OnlyFor(store, data.email, {data.token})
    ensures var deleted := DropEmail(DropToken(Later(store, seconds), data.token), data.email);
            StoreValid(deleted) && OnlyFor(deleted, data.email, {})
  {
    hide Lower;
    TimeKeepsValid(store, seconds);
    DeletedStaysValid(Later(store, seconds), data);
  }

  class PendingRegistrations {
    var tokens: map<Token, Entry<Registration>>
    var emails: map<string, Entry<Token>>
    var now: int

    function Contents(): Store
      reads this
    {
      Store(tokens, emails, now)
    }

    ghost predicate Valid()
      reads this
    {
      StoreValid(Contents())
    }

    constructor ()
      ensures Valid() && tokens == map[] && emails == map[]
    {
      tokens, emails, now := map[], map[], 0;
    }

    method SavePendingRegistration(data: Registration, drop: nat, setToken: nat, setEmail: nat)
      modifies this
      ensures Contents() == Saved(old(Contents()), data, drop, setToken, setEmail)
      ensures FindTokenByEmail(Contents(), data.email) == Some(data.token)
      ensures emails[Lower(data.email)].expiresAt == now + 86_400
      ensures FindByToken(Contents(), data.token) == if setEmail < 86_400 then Some(data) else None
      ensures old(Valid()) && Fresh(old(Contents()), data.token) ==> Valid() && OnlyFor(Contents(), data.email, {data.token})
      ensures old(Valid()) && Fresh(old(Contents()), data.token) ==>
                && (forall t <- old(tokens) :: HomeIn(old(Contents()), t) != Lower(data.email) ==> t in tokens && tokens[t] == old(tokens)[t])
                && (forall a <- old(emails) :: a != Lower(data.email) ==> a in emails && emails[a] == old(emails)[a])
    {
      hide Lower, StoreValid, OnlyFor, Fresh;
      if StoreValid(Contents()) && Fresh(Contents(), data.token) {
        SavedStaysValid(Contents(), data, drop, setToken, setEmail);
        SavedLeavesOthers(Contents(), data, drop, setToken, setEmail);
      }
      var existing := FindTokenByEmail(Contents(), data.email);
      now := now + drop;
      if existing.Some? && existing.value != data.token {
        tokens := tokens - {existing.value};
      }
      now := now + setToken;
      tokens := tokens[data.token := Entry(data, now + TTL)];
      now := now + setEmail;
      emails := emails[Lower(data.email) := Entry(data.token, now + TTL)];
    }

    method FindPendingRegistrationByToken(token: Token) returns (found: Option<Registration>)
      ensures found == FindByToken(Contents(), token)
      ensures Valid() && found.Some? ==> found.value.token == token && OnlyFor(Contents(), found.value.email, {token})
    {
      found := if token in tokens && now < tokens[token].expiresAt then Some(tokens[token].value) else None;
      if StoreValid(Contents()) && found.Some? {
        forall t <- tokens | FindByToken(Contents(), t).Some? && HomeIn(Contents(), t) == Lower(found.value.email)
          ensures t == token
        {
          KeyLeadsToUsable(Contents(), found.value.email, t);
          KeyLeadsToUsable(Contents(), found.value.email, token);
        }
      }
    }

    /** Finds the one usable registration of the address, whatever letter case the address is given in. */
    method FindPendingRegistrationByEmail(email: string, find: nat) returns (found: Option<Registration>)
      requires Valid()
      modifies this`now
      ensures Valid() && now == old(now) + find
      ensures found.Some? ==> Lower(found.value.email) == Lower(email) && found == FindByToken(Contents(), found.value.token)
      ensures found.None? ==> OnlyFor(Contents(), email, {})
    {
      hide Lower;
      ghost var before := Contents();
      var token := FindTokenByEmail(Contents(), email);
      TimeKeepsValid(before, find);
      now := now + find;
      forall t <- tokens | FindByToken(Contents(), t).Some? && HomeIn(Contents(), t) == Lower(email)
        ensures token == Some(t)
      {
        KeyLeadsToUsable(before, email, t);
      }
      if token.None? {
        found := None;
      } else {
        found := FindPendingRegistrationByToken(token.value);
      }
    }

    method DeletePendingRegistration(data: Registration, dropToken: nat, dropEmail: nat)
      modifies this
      ensures Contents() == DropEmail(DropToken(Later(old(Contents()), dropToken + dropEmail), data.token), data.email)
      ensures FindByToken(Contents(), data.token).None? && FindTokenByEmail(Contents(), data.email).None?
    {
      now := now + dropToken;
      tokens := tokens - {data.token};
      now := now + dropEmail;
      emails := emails - {Lower(data.email)};
    }

    /** A verified link is spent, and so is its address: no link for the address works until the next save. */
    method VerifyEmail(token: Token, dropToken: nat, dropEmail: nat) returns (pending: Option<Registration>)
      requires Valid()
      modifies this
      ensures Valid() && pending == FindByToken(old(Contents()), token)
      ensures pending.Some? ==>
                && pending.value.token == token && token !in tokens
                && Lower(pending.value.email) !in emails && OnlyFor(Contents(), pending.value.email, {})
                && tokens == old(tokens) - {token} && emails == old(emails) - {Lower(pending.value.email)}
      ensures pending.None? ==> Contents() == old(Contents())
    {
      hide Lower, StoreValid, OnlyFor;
      pending := FindPendingRegistrationByToken(token);
      if pending.None? { return; }
      SpentWhenDeleted(Contents(), pending.value, dropToken + dropEmail);
      DeletePendingRegistration(pending.value, dropToken, dropEmail);
    }

    /** A resend replaces the link: the new token works, and no other token of the address does. */
    method ResendVerificationEmail(email: string, random: Token, find: nat, drop: nat, setToken: nat, setEmail: nat)
      returns (sent: Option<Registration>)
      requires Valid() && Fresh(Contents(), random)
      modifies this
      ensures Valid()
      ensures sent.Some? ==>
                && Lower(sent.value.email) == Lower(email) && sent.value.token == random
                && OnlyFor(Contents(), email, {random})
                && FindByToken(Contents(), random) == if setEmail < 86_400 then sent else None
      ensures sent.None? ==> tokens == old(tokens) && emails == old(emails) && OnlyFor(Contents(), email, {})
    {
      hide Lower, StoreValid;
      sent := FindPendingRegistrationByEmail(email, find);
      if sent.None? { return; }
      sent := Some(sent.value.(token := random));
      SavePendingRegistration(sent.value, drop, setToken, setEmail);
    }
  }
}
