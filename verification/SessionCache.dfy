/**
  The router session cache (tplink.go, Provider.session and Provider.invalidateSession) under any
  interleaving of any number of concurrent calls. A call takes its start time, looks the cache up
  under the mutex, on a miss logs in without the mutex, and stores the new session under the mutex.
 */
module SessionCache {
  import opened Basics
  import opened Strings

  // Instants are nanoseconds; a session stays cached for two minutes.
  const TTL := 2 * 60 * 1_000_000_000

  type SessionId = nat

  datatype Cache = Cache(session: Option<SessionId>, key: string, expires: int)

  const EMPTY_CACHE := Cache(None, "", 0)

  function Lookup(cache: Cache, key: string, now: int): Option<SessionId> {
    if cache.session.Some? && cache.key == key && now < cache.expires then cache.session else None
  }

  function Stored(session: SessionId, key: string, start: int): Cache {
    Cache(Some(session), key, start + TTL)
  }

  function Evict(cache: Cache, session: SessionId): Cache {
    if cache.session == Some(session) then EMPTY_CACHE else cache
  }

  // The critical sections of the provider; each runs under its mutex.
  class Provider {
    var cachedSession: Option<SessionId>
    var cachedKey: string
    var sessionExpires: int

    function View(): Cache
      reads this
    {
      Cache(cachedSession, cachedKey, sessionExpires)
    }

    constructor ()
      ensures View() == EMPTY_CACHE
    {
      cachedSession, cachedKey, sessionExpires := None, "", 0;
    }

    method LookUp(key: string, now: int) returns (cached: Option<SessionId>)
      ensures cached == Lookup(View(), key, now)
    {
      cached := cachedSession;
      if cached.Some? && cachedKey == key && now < sessionExpires {
        return cached;
      }
      return None;
    }

    method Store(next: SessionId, key: string, now: int)
      modifies this
      ensures View() == Stored(next, key, now)
    {
      cachedSession := Some(next);
      cachedKey := key;
      sessionExpires := now + TTL;
    }

    method InvalidateSession(s: SessionId)
      modifies this
      ensures View() == Evict(old(View()), s)
    {
      if cachedSession == Some(s) {
        cachedSession := None;
        cachedKey := "";
        sessionExpires := 0;
      }
    }
  }

  // ----- The concurrent machine. -----

  datatype Phase =
    | Started(key: string, start: int)
    | LoggingIn(key: string, start: int)
    | LoggedIn(key: string, start: int, session: SessionId)
    | Finished

  // What happened so far, oldest first.
  datatype Entry =
    | LoginSucceeded(session: SessionId, key: string, start: int)
    | HandedOut(session: SessionId, key: string, start: int, hit: bool)
    | Invalidated(session: SessionId)

  datatype Machine = Machine(cache: Cache, calls: map<nat, Phase>, nextSession: SessionId, log: seq<Entry>)

  // One atomic step of the call numbered `call`, or of some caller dropping a session it was given.
  datatype Event =
    | Start(call: nat, key: string, now: int)
    | Check(call: nat)
    | LoginOk(call: nat)
    | LoginFail(call: nat)
    | Save(call: nat)
    | Invalidate(session: SessionId)

  ghost predicate WasHandedOut(log: seq<Entry>, s: SessionId) {
    exists i :: 0 <= i < |log| && log[i].HandedOut? && log[i].session == s
  }

  ghost predicate WasInvalidated(log: seq<Entry>, s: SessionId) {
    exists i :: 0 <= i < |log| && log[i] == Invalidated(s)
  }

  ghost predicate Enabled(m: Machine, e: Event) {
    match e
    case Start(c, _, _) => c !in m.calls
    case Check(c) => c in m.calls && m.calls[c].Started?
    case LoginOk(c) => c in m.calls && m.calls[c].LoggingIn?
    case LoginFail(c) => c in m.calls && m.calls[c].LoggingIn?
    case Save(c) => c in m.calls && m.calls[c].LoggedIn?
    case Invalidate(s) => WasHandedOut(m.log, s)
  }

  ghost function Step(m: Machine, e: Event): Machine {
    if !Enabled(m, e) then m
    else
      match e
      case Start(c, key, now) => m.(calls := m.calls[c := Started(key, now)])
      case Check(c) =>
        var p := m.calls[c];
        (match Lookup(m.cache, p.key, p.start)
         case Some(s) => m.(calls := m.calls[c := Finished], log := m.log + [HandedOut(s, p.key, p.start, true)])
         case None => m.(calls := m.calls[c := LoggingIn(p.key, p.start)]))
      case LoginOk(c) =>
        var p := m.calls[c];
        m.(calls := m.calls[c := LoggedIn(p.key, p.start, m.nextSession)], nextSession := m.nextSession + 1,
           log := m.log + [LoginSucceeded(m.nextSession, p.key, p.start)])
      case LoginFail(c) => m.(calls := m.calls[c := Finished])
      case Save(c) =>
        var p := m.calls[c];
        m.(calls := m.calls[c := Finished], cache := Stored(p.session, p.key, p.start),
           log := m.log + [HandedOut(p.session, p.key, p.start, false)])
      case Invalidate(s) => m.(cache := Evict(m.cache, s), log := m.log + [Invalidated(s)])
  }

  ghost function Run(events: seq<Event>): Machine {
    if events == [] then Machine(EMPTY_CACHE, map[], 0, [])
    else Step(Run(events[..|events| - 1]), events[|events| - 1])
  }

  // ----- The invariant. -----

  ghost predicate Created(log: seq<Entry>, s: SessionId, key: string, start: int) {
    exists i :: 0 <= i < |log| && log[i] == LoginSucceeded(s, key, start)
  }

  // The cached triple comes from one successful login, has been handed out and not been dropped.
  ghost predicate CacheOk(m: Machine) {
    m.cache.session.Some? ==>
      && Created(m.log, m.cache.session.value, m.cache.key, m.cache.expires - TTL)
      && !WasInvalidated(m.log, m.cache.session.value)
  }

  // A session between its login and its store is known to nobody else.
  ghost predicate PendingOk(m: Machine) {
    && (forall c :: c in m.calls && m.calls[c].LoggedIn? ==>
          && Created(m.log, m.calls[c].session, m.calls[c].key, m.calls[c].start)
          && !WasHandedOut(m.log, m.calls[c].session)
          && !WasInvalidated(m.log, m.calls[c].session)
          && m.cache.session != Some(m.calls[c].session))
    && (forall c, d :: c in m.calls && d in m.calls && c != d && m.calls[c].LoggedIn? && m.calls[d].LoggedIn?
          ==> m.calls[c].session != m.calls[d].session)
  }

  ghost predicate IdsOk(m: Machine) {
    && (forall i :: 0 <= i < |m.log| ==> m.log[i].session < m.nextSession)
    && (forall i, j :: 0 <= i < j < |m.log| && m.log[i].LoginSucceeded? && m.log[j].LoginSucceeded?
          ==> m.log[i].session != m.log[j].session)
    && (forall s :: WasInvalidated(m.log, s) ==> WasHandedOut(m.log, s))
  }

  // A hand-out returns a session logged in under the caller's own key, less than two minutes
  // (by the start times of the two calls) after the login call started.
  ghost predicate HandOutOk(log: seq<Entry>, i: nat)
    requires i < |log| && log[i].HandedOut?
  {
    exists k :: 0 <= k < i && log[k].LoginSucceeded? && log[k].session == log[i].session && log[k].key == log[i].key
      && if log[i].hit then log[i].start < log[k].start + TTL else log[i].start == log[k].start
  }

  ghost predicate LogOk(log: seq<Entry>) {
    && (forall i :: 0 <= i < |log| && log[i].HandedOut? ==> HandOutOk(log, i))
    && (forall i, j ::
          0 <= i < j < |log| && log[i].Invalidated? && log[j].HandedOut? ==> log[i].session != log[j].session)
  }

  ghost predicate Inv(m: Machine) {
    CacheOk(m) && PendingOk(m) && IdsOk(m) && LogOk(m.log)
  }

  lemma Extends(log: seq<Entry>, e: Entry)
    ensures forall s :: WasHandedOut(log + [e], s) <==> WasHandedOut(log, s) || (e.HandedOut? && e.session == s)
    ensures forall s :: WasInvalidated(log + [e], s) <==> WasInvalidated(log, s) || e == Invalidated(s)
    ensures forall s, key, start ::
      Created(log + [e], s, key, start) <==> Created(log, s, key, start) || e == LoginSucceeded(s, key, start)
  {
    var longer := log + [e];
    assert longer[|log|] == e;
    forall s ensures WasHandedOut(longer, s) <==> WasHandedOut(log, s) || (e.HandedOut? && e.session == s) {
      if i :| 0 <= i < |log| && log[i].HandedOut? && log[i].session == s {
        assert longer[i] == log[i];
      }
    }
    forall s ensures WasInvalidated(longer, s) <==> WasInvalidated(log, s) || e == Invalidated(s) {
      if i :| 0 <= i < |log| && log[i] == Invalidated(s) {
        assert longer[i] == log[i];
      }
    }
    forall s, key, start
      ensures Created(longer, s, key, start) <==> Created(log, s, key, start) || e == LoginSucceeded(s, key, start)
    {
      if i :| 0 <= i < |log| && log[i] == LoginSucceeded(s, key, start) {
        assert longer[i] == log[i];
      }
    }
  }

  lemma LogStaysOk(log: seq<Entry>, e: Entry)
    requires LogOk(log)
    requires e.HandedOut? ==> HandOutOk(log + [e], |log|) && !WasInvalidated(log, e.session)
    ensures LogOk(log + [e])
  {
    var longer := log + [e];
    forall i | 0 <= i < |longer| && longer[i].HandedOut? ensures HandOutOk(longer, i) {
      if i < |log| {
        assert HandOutOk(log, i);
        var k :| 0 <= k < i && log[k].LoginSucceeded? && log[k].session == log[i].session && log[k].key == log[i].key
          && if log[i].hit then log[i].start < log[k].start + TTL else log[i].start == log[k].start;
        assert longer[k] == log[k];
      }
    }
    assert e.HandedOut? ==> forall i :: 0 <= i < |log| ==> log[i] != Invalidated(e.session);
  }

  // Handing out a session that is known to be good keeps the invariant.
  lemma HandOutKeepsInv(m: Machine, e: Entry, after: Machine)
    requires Inv(m) && e.HandedOut? && after.log == m.log + [e] && after.nextSession == m.nextSession
    requires after.cache.session == Some(e.session) && Created(m.log, e.session, e.key, after.cache.expires - TTL)
    requires after.cache.key == e.key && !WasInvalidated(m.log, e.session)
    requires if e.hit then e.start < after.cache.expires else e.start == after.cache.expires - TTL
    requires forall c :: c in after.calls && after.calls[c].LoggedIn? ==> c in m.calls && after.calls[c] == m.calls[c]
    requires forall c :: c in after.calls && after.calls[c].LoggedIn? ==> m.calls[c].session != e.session
    ensures Inv(after)
  {
    Extends(m.log, e);
    var k :| 0 <= k < |m.log| && m.log[k] == LoginSucceeded(e.session, e.key, after.cache.expires - TTL);
    assert (m.log + [e])[k] == m.log[k];
    LogStaysOk(m.log, e);
  }

  lemma CheckKeepsInv(m: Machine, c: nat)
    requires Inv(m) && Enabled(m, Check(c))
    ensures Inv(Step(m, Check(c)))
  {
    var p := m.calls[c];
    match Lookup(m.cache, p.key, p.start)
    case None =>
    case Some(s) =>
      HandOutKeepsInv(m, HandedOut(s, p.key, p.start, true), Step(m, Check(c)));
  }

  lemma LoginKeepsCacheAndPending(m: Machine, c: nat)
    requires CacheOk(m) && PendingOk(m) && IdsOk(m) && Enabled(m, LoginOk(c))
    requires m.cache.session.Some? ==> m.cache.session.value < m.nextSession
    ensures CacheOk(Step(m, LoginOk(c))) && PendingOk(Step(m, LoginOk(c)))
  {
    Extends(m.log, LoginSucceeded(m.nextSession, m.calls[c].key, m.calls[c].start));
  }

  lemma LoginKeepsIds(m: Machine, c: nat)
    requires IdsOk(m) && Enabled(m, LoginOk(c))
    ensures IdsOk(Step(m, LoginOk(c)))
  {
    Extends(m.log, LoginSucceeded(m.nextSession, m.calls[c].key, m.calls[c].start));
  }

  lemma LoginKeepsInv(m: Machine, c: nat)
    requires Inv(m) && Enabled(m, LoginOk(c))
    ensures Inv(Step(m, LoginOk(c)))
  {
    LoginKeepsCacheAndPending(m, c);
    LoginKeepsIds(m, c);
    LogStaysOk(m.log, LoginSucceeded(m.nextSession, m.calls[c].key, m.calls[c].start));
  }

  lemma SaveKeepsInv(m: Machine, c: nat)
    requires Inv(m) && Enabled(m, Save(c))
    ensures Inv(Step(m, Save(c)))
  {
    var p := m.calls[c];
    HandOutKeepsInv(m, HandedOut(p.session, p.key, p.start, false), Step(m, Save(c)));
  }

  lemma InvalidateKeepsCacheAndPending(m: Machine, s: SessionId)
    requires CacheOk(m) && PendingOk(m) && Enabled(m, Invalidate(s))
    ensures CacheOk(Step(m, Invalidate(s))) && PendingOk(Step(m, Invalidate(s)))
  {
    Extends(m.log, Invalidated(s));
  }

  lemma InvalidateKeepsIds(m: Machine, s: SessionId)
    requires IdsOk(m) && Enabled(m, Invalidate(s))
    ensures IdsOk(Step(m, Invalidate(s)))
  {
    Extends(m.log, Invalidated(s));
  }

  lemma InvalidateKeepsInv(m: Machine, s: SessionId)
    requires Inv(m) && Enabled(m, Invalidate(s))
    ensures Inv(Step(m, Invalidate(s)))
  {
    InvalidateKeepsCacheAndPending(m, s);
    InvalidateKeepsIds(m, s);
    LogStaysOk(m.log, Invalidated(s));
  }

  lemma {:induction false} RunKeepsInv(events: seq<Event>)
    ensures Inv(Run(events))
  {
    if events != [] {
      var m, e := Run(events[..|events| - 1]), events[|events| - 1];
      RunKeepsInv(events[..|events| - 1]);
      if Enabled(m, e) {
        match e
        case Check(c) => CheckKeepsInv(m, c);
        case LoginOk(c) => LoginKeepsInv(m, c);
        case Save(c) => SaveKeepsInv(m, c);
        case Invalidate(s) => InvalidateKeepsInv(m, s);
        case _ =>
      }
    }
  }

  // ----- The theorems, over every run. -----

  // Whatever is cached came, session, key and expiry together, from exactly one successful login.
  lemma CachedTripleHasOneOrigin(events: seq<Event>)
    ensures var m := Run(events);
      m.cache.session.Some? ==>
        && Created(m.log, m.cache.session.value, m.cache.key, m.cache.expires - TTL)
        && (forall key, start :: Created(m.log, m.cache.session.value, key, start)
              ==> key == m.cache.key && start + TTL == m.cache.expires)
  {
    RunKeepsInv(events);
  }

  // A session is only ever handed out for the key it was logged in under and inside its two
  // minutes, and never again once some caller has invalidated it.
  lemma HandOutsAreSound(events: seq<Event>, i: nat)
    requires i < |Run(events).log| && Run(events).log[i].HandedOut?
    ensures HandOutOk(Run(events).log, i)
    ensures forall j :: 0 <= j < i ==> Run(events).log[j] != Invalidated(Run(events).log[i].session)
  {
    RunKeepsInv(events);
  }

  // Invalidating a session removes that session and nothing else.
  lemma InvalidateIsPrecise(events: seq<Event>, s: SessionId)
    ensures var before, after := Run(events), Step(Run(events), Invalidate(s));
      && after.cache.session != Some(s)
      && (before.cache.session != Some(s) ==> after.cache == before.cache)
      && (after.cache.session.Some? ==> after.cache == before.cache)
      && after.calls == before.calls
  {
    RunKeepsInv(events);
    if !Enabled(Run(events), Invalidate(s)) && Run(events).cache.session == Some(s) {
      CachedWasHandedOut(events);
    }
  }

  lemma {:induction false} CachedWasHandedOut(events: seq<Event>)
    ensures var m := Run(events); m.cache.session.Some? ==> WasHandedOut(m.log, m.cache.session.value)
  {
    if events != [] {
      var m, e := Run(events[..|events| - 1]), events[|events| - 1];
      CachedWasHandedOut(events[..|events| - 1]);
      var after := Step(m, e);
      if |after.log| > |m.log| {
        Extends(m.log, after.log[|m.log|]);
        assert after.log == m.log + [after.log[|m.log|]];
      }
    }
  }

  // ----- When a call is served from the cache. -----

  // The session stored at i, under that key by a call that started then: no later call stored one, and nobody
  // invalidated it.
  ghost predicate LastStored(log: seq<Entry>, i: nat, s: SessionId, key: string, start: int) {
    && i < |log| && log[i] == HandedOut(s, key, start, false)
    && forall j :: i < j < |log| ==> log[j] != Invalidated(s) && !(log[j].HandedOut? && !log[j].hit)
  }

  ghost predicate IsStored(log: seq<Entry>, s: SessionId, key: string, start: int) {
    exists i: nat :: LastStored(log, i, s, key, start)
  }

  lemma StoredExtends(log: seq<Entry>, e: Entry, s: SessionId, key: string, start: int)
    ensures IsStored(log + [e], s, key, start)
      <==> e == HandedOut(s, key, start, false)
           || (IsStored(log, s, key, start) && e != Invalidated(s) && !(e.HandedOut? && !e.hit))
  {
    var longer := log + [e];
    assert longer[|log|] == e;
    if i: nat :| LastStored(longer, i, s, key, start) {
      if i < |log| {
        assert forall j :: 0 <= j < |log| ==> longer[j] == log[j];
        assert LastStored(log, i, s, key, start);
      }
    }
    if e == HandedOut(s, key, start, false) {
      assert LastStored(longer, |log|, s, key, start);
    }
    if i: nat :| LastStored(log, i, s, key, start) && e != Invalidated(s) && !(e.HandedOut? && !e.hit) {
      assert LastStored(longer, i, s, key, start);
    }
  }

  ghost predicate CacheHolds(m: Machine, s: SessionId, key: string, start: int) {
    m.cache == Cache(Some(s), key, start + 120_000_000_000)
  }

  lemma StepStores(m: Machine, e: Event, s: SessionId, key: string, start: int)
    requires CacheHolds(m, s, key, start) <==> IsStored(m.log, s, key, start)
    ensures var after := Step(m, e); CacheHolds(after, s, key, start) <==> IsStored(after.log, s, key, start)
  {
    var after := Step(m, e);
    if |after.log| > |m.log| {
      var entry := after.log[|m.log|];
      assert after.log == m.log + [entry];
      StoredExtends(m.log, entry, s, key, start);
    } else {
      assert after.log == m.log;
    }
  }

  // Over every run the cache holds what was stored last, unless that was invalidated.
  lemma {:induction false} CacheIsLastStored(events: seq<Event>, s: SessionId, key: string, start: int)
    ensures CacheHolds(Run(events), s, key, start) <==> IsStored(Run(events).log, s, key, start)
  {
    if events != [] {
      CacheIsLastStored(events[..|events| - 1], s, key, start);
      StepStores(Run(events[..|events| - 1]), events[|events| - 1], s, key, start);
    }
  }

  // So a call gets a session without a login exactly if that was stored last under its key, by a call that started
  // less than two minutes before it, and not invalidated since; otherwise it logs in.
  lemma ServedFromCacheExactly(events: seq<Event>, c: nat, s: SessionId)
    requires c in Run(events).calls && Run(events).calls[c].Started?
    ensures var m, p := Run(events), Run(events).calls[c];
      var after := Step(m, Check(c));
      && (after.log == m.log + [HandedOut(s, p.key, p.start, true)]
          <==> exists start :: IsStored(m.log, s, p.key, start) && p.start < start + 120_000_000_000)
      && (after.log == m.log <==> after.calls[c] == LoggingIn(p.key, p.start))
  {
    var m, p := Run(events), Run(events).calls[c];
    var after := Step(m, Check(c));
    if after.log == m.log + [HandedOut(s, p.key, p.start, true)] {
      assert after.log[|m.log|] == HandedOut(s, p.key, p.start, true);
      var start := m.cache.expires - 120_000_000_000;
      CacheIsLastStored(events, s, p.key, start);
      assert IsStored(m.log, s, p.key, start);
    }
    if start :| IsStored(m.log, s, p.key, start) && p.start < start + 120_000_000_000 {
      CacheIsLastStored(events, s, p.key, start);
    }
  }

  // ----- The cache key. -----

  const DIGEST_LENGTH := 64

  // sha256 of the password, printed in hexadecimal, is a parameter.
  type Digest = s: string | |s| == DIGEST_LENGTH witness seq(DIGEST_LENGTH, _ => '0')

  function SessionKey(digest: string -> Digest, baseURL: string, username: string, password: string): string {
    baseURL + "|" + TrimSpace(username) + "|" + digest(password)
  }

  lemma NoBarAt(base: string, i: nat)
    requires '|' !in base
    ensures i < |base| ==> base[i] != '|'
  {
  }

  // Two keys are equal exactly for the same router, the same trimmed user and passwords of one digest; a user name
  // with a bar in it confuses nothing, since url.Parse refuses a host with one and escapes it in a path.
  lemma SessionKeyIdentifies(digest: string -> Digest, base: string, user: string, password: string,
                             base': string, user': string, password': string)
    requires '|' !in base && '|' !in base'
    ensures SessionKey(digest, base, user, password) == SessionKey(digest, base', user', password')
       <==> base == base' && TrimSpace(user) == TrimSpace(user') && digest(password) == digest(password')
  {
    var a, b := SessionKey(digest, base, user, password), SessionKey(digest, base', user', password');
    if a == b {
      assert a[|base|] == '|' && b[|base'|] == '|';
      assert base == a[..|base|] && base' == b[..|base'|];
      NoBarAt(base', |base|);
      NoBarAt(base, |base'|);
      var n := |a| - DIGEST_LENGTH;
      assert a[n..] == digest(password) && b[n..] == digest(password');
      assert a[|base| + 1..n - 1] == TrimSpace(user) && b[|base| + 1..n - 1] == TrimSpace(user');
    }
  }

  // Without a bar-free base the key would not tell where the base ends.
  lemma BarInBaseConfuses(digest: string -> Digest, password: string)
    ensures SessionKey(digest, "r", "a|b", password) == SessionKey(digest, "r|a", "b", password)
  {
    TrimSpaceFixpoint("a|b");
    TrimSpaceFixpoint("b");
    assert "r" + "|" + "a|b" == "r|a" + "|" + "b";
  }
}
