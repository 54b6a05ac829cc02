/**
  Session lookup against history: over every run of the handlers a token authenticates a user exactly
  when the history of logins, logouts, password changes and deletions says so.
 */
module AccountsHistory {
  import opened Basics
  import opened Strings
  import opened Timestamps
  import opened Accounts
  import opened Calendar

  ghost function Run(env: Env, events: seq<Event>): Tables {
    if events == [] then EMPTY else Step(env, Run(env, events[..|events| - 1]), events[|events| - 1])
  }

  ghost function Log(env: Env, events: seq<Event>): seq<Outcome> {
    if events == [] then []
    else
      var before := events[..|events| - 1];
      Log(env, before) + [OutcomeOf(env, Run(env, before), events[|events| - 1])]
  }

  // ----- The user table. -----

  // Every stored name passes the check and needs no trimming, names are unique, every role
  // is admin, and ids are handed out once.
  ghost predicate UsersOk(t: Tables) {
    && UniqueNames(t.users)
    && (forall id :: id in t.users ==> id < t.nextUser)
    && (forall id :: id in t.users ==>
          && UsernameOk(t.users[id].username) && TrimSpace(t.users[id].username) == t.users[id].username
          && t.users[id].role == "admin")
  }

  lemma TrimmedNameOk(username: string)
    requires UsernameOk(username)
    ensures UsernameOk(TrimSpace(username)) && TrimSpace(TrimSpace(username)) == TrimSpace(username)
  {
    TrimSpaceIdempotent(username);
  }

  lemma InsertKeepsUsersOk(t: Tables, name: string, hash: string)
    requires UsersOk(t) && UsernameOk(name) && TrimSpace(name) == name && !UsernameTaken(t.users, name)
    ensures UsersOk(Insert(t, User(name, hash, "admin")))
  {
  }

  lemma UpdateKeepsUsersOk(t: Tables, id: int, username: string, password: Bytes, role: string, hash: string)
    requires UsersOk(t) && UpdateAccepted(t, id, username, password, role)
    ensures UsersOk(t.(users := Updated(t, id, username, password, role, hash)))
  {
    TrimSpaceIdempotent(username);
  }

  lemma DeleteKeepsSomebody(users: map<int, User>, id: int)
    requires |users| > 1
    ensures users - {id} != map[]
  {
    assert (users - {id}).Keys == users.Keys - {id};
    assert |users.Keys - {id}| >= |users.Keys| - 1;
  }

  lemma EnsureKeepsUsersOk(t: Tables, username: string, password: Bytes, hash: string)
    requires UsersOk(t)
    ensures UsersOk(AfterEnsureAdmin(t, username, password, hash))
  {
    if UsernameOk(username) && t.users == map[] {
      TrimmedNameOk(username);
      InsertKeepsUsersOk(t, TrimSpace(username), hash);
    }
  }

  lemma CreateKeepsUsersOk(t: Tables, username: string, password: Bytes, role: string, hash: string)
    requires UsersOk(t)
    ensures UsersOk(AfterCreate(t, username, password, role, hash))
  {
    TrimSpaceIdempotent(username);
    var name := TrimSpace(username);
    if UsernameOk(name) && !UsernameTaken(t.users, name) {
      InsertKeepsUsersOk(t, name, hash);
    }
  }

  lemma StepKeepsUsersOk(env: Env, t: Tables, e: Event)
    requires UsersOk(t)
    ensures UsersOk(Step(env, t, e))
  {
    match e
    case EnsureAdmin(username, password, hash) => EnsureKeepsUsersOk(t, username, password, hash);
    case CreateUser(username, password, role, hash) => CreateKeepsUsersOk(t, username, password, role, hash);
    case UpdateUser(id, username, password, role, hash, revokeFails) =>
      if UpdateAccepted(t, id, username, password, role) {
        UpdateKeepsUsersOk(t, id, username, password, role, hash);
      }
    case _ =>
  }

  lemma StepKeepsSomebody(env: Env, t: Tables, e: Event)
    requires t.users != map[]
    ensures Step(env, t, e).users != map[]
  {
    match e
    case CreateUser(username, password, role, hash) =>
      var after := Step(env, t, e);
      assert after != t ==> t.nextUser in after.users;
    case UpdateUser(id, username, password, role, hash, revokeFails) =>
      assert id in t.users ==> id in Updated(t, id, username, password, role, hash);
    case DeleteUser(current, id, cascade) =>
      if |t.users| > 1 {
        DeleteKeepsSomebody(t.users, id);
      }
    case _ =>
  }

  lemma {:induction false} RunKeepsUsersOk(env: Env, events: seq<Event>)
    ensures UsersOk(Run(env, events))
  {
    if events == [] {
      assert EMPTY.users == map[];
    } else {
      RunKeepsUsersOk(env, events[..|events| - 1]);
      StepKeepsUsersOk(env, Run(env, events[..|events| - 1]), events[|events| - 1]);
    }
  }

  // Once there is a user there is always a user.
  lemma {:induction false} NeverLockedOut(env: Env, events: seq<Event>, more: seq<Event>)
    requires Run(env, events).users != map[]
    ensures Run(env, events + more).users != map[]
  {
    if more == [] {
      assert events + more == events;
    } else {
      var rest := more[..|more| - 1];
      NeverLockedOut(env, events, rest);
      assert (events + more)[..|events + more| - 1] == events + rest;
      StepKeepsSomebody(env, Run(env, events + rest), more[|more| - 1]);
    }
  }

  // ----- History. -----

  // Outcomes that end a session of `user` held under `token`.
  predicate EndsRow(o: Outcome, token: string, user: int) {
    o == LoggedOut(token) || o == PasswordChanged(user, true)
  }

  predicate Ends(o: Outcome, token: string, user: int) {
    EndsRow(o, token, user) || o == UserDeleted(user)
  }

  ghost predicate LoginAt(log: seq<Outcome>, i: nat, token: string, user: int) {
    i < |log| && log[i].LoggedIn? && log[i].token == token && log[i].user == user
  }

  // Nothing after the login at i logged out or revoked it.
  ghost predicate Unrevoked(log: seq<Outcome>, i: nat, token: string, user: int) {
    LoginAt(log, i, token, user) && forall j :: i < j < |log| ==> !EndsRow(log[j], token, user)
  }

  // Nor was the user deleted.
  ghost predicate Standing(log: seq<Outcome>, i: nat, token: string, user: int) {
    Unrevoked(log, i, token, user) && forall j :: i < j < |log| ==> log[j] != UserDeleted(user)
  }

  predicate TextLe(env: Env, a: nat, b: nat) { !Less(env.stamp(b), env.stamp(a)) }

  function TimeOf(e: Event): Option<nat> {
    match e
    case Sweep(now) => Some(now)
    case Login(_, _, _, now) => Some(now)
    case _ => None
  }

  // The clock, read as stored text, has not passed `now`.
  ghost predicate AllBy(env: Env, events: seq<Event>, now: nat) {
    forall i :: 0 <= i < |events| && TimeOf(events[i]).Some? ==> TextLe(env, TimeOf(events[i]).value, now)
  }

  // What the specification says about a lookup: some login gave this token to this user, its
  // thirty days have not passed, and nothing since has ended it.
  ghost predicate Holds(env: Env, log: seq<Outcome>, token: string, user: int, now: nat) {
    exists i: nat :: Standing(log, i, token, user) && Less(env.stamp(now), ExpiryText(env, log[i].now))
  }

  // ----- The invariant. -----

  // A session row is there because of a login that nothing has revoked.
  ghost predicate RowJustified(env: Env, log: seq<Outcome>, h: string, row: Session) {
    exists i: nat, token ::
      env.tokenHash(token) == h && Unrevoked(log, i, token, row.userId) && row.expiresAt == ExpiryText(env, log[i].now)
  }

  ghost predicate RowsJustified(env: Env, log: seq<Outcome>, t: Tables) {
    forall h :: h in t.sessions ==> RowJustified(env, log, h, t.sessions[h])
  }

  ghost predicate HasRow(env: Env, t: Tables, token: string, user: int, expiresAt: string) {
    env.tokenHash(token) in t.sessions && t.sessions[env.tokenHash(token)] == Session(user, expiresAt)
  }

  // A standing login still has its row and its user, unless its thirty days have passed.
  ghost predicate LoginsKept(env: Env, log: seq<Outcome>, t: Tables, now: nat) {
    forall i: nat, token, user :: Standing(log, i, token, user) && Less(env.stamp(now), ExpiryText(env, log[i].now)) ==>
      user in t.users && HasRow(env, t, token, user, ExpiryText(env, log[i].now))
  }

  // A deleted user never comes back.
  ghost predicate DeletionsFinal(log: seq<Outcome>, t: Tables) {
    && (forall i :: 0 <= i < |log| && log[i].LoggedIn? ==> log[i].user < t.nextUser)
    && (forall i, j ::
          0 <= i < j < |log| && log[i].LoggedIn? && log[j] == UserDeleted(log[i].user) ==> log[i].user !in t.users)
  }

  ghost predicate HashOk(env: Env) {
    forall a, b :: env.tokenHash(a) == env.tokenHash(b) ==> a == b
  }

  // The assumption on the hash can be met.
  lemma SomeHashIsOk(matches: (string, Bytes) -> bool, stamp: nat -> string)
    ensures HashOk(Env(token => token, matches, stamp))
  {
  }

  lemma UnrevokedAppend(log: seq<Outcome>, o: Outcome, i: nat, token: string, user: int)
    ensures i < |log| ==> (Unrevoked(log + [o], i, token, user)
                           <==> Unrevoked(log, i, token, user) && !EndsRow(o, token, user))
    ensures i < |log| ==> (Standing(log + [o], i, token, user)
                           <==> Standing(log, i, token, user) && !Ends(o, token, user))
    ensures i == |log| && o.LoggedIn? && o.token == token && o.user == user ==> Standing(log + [o], i, token, user)
  {
    var longer := log + [o];
    assert longer[|log|] == o;
    if i < |log| {
      assert forall j :: 0 <= j < |log| ==> longer[j] == log[j];
      if Unrevoked(longer, i, token, user) {
        assert !EndsRow(longer[|log|], token, user);
        forall j | i < j < |log| ensures !EndsRow(log[j], token, user) {
          assert longer[j] == log[j];
        }
      }
      if Standing(longer, i, token, user) {
        forall j | i < j < |log| ensures log[j] != UserDeleted(user) {
          assert longer[j] == log[j];
        }
      }
    }
  }

  // Rows that stay keep their justification unless the outcome ends them.
  lemma KeptRowJustified(env: Env, log: seq<Outcome>, o: Outcome, h: string, row: Session)
    requires RowJustified(env, log, h, row)
    requires forall token :: env.tokenHash(token) == h ==> !EndsRow(o, token, row.userId)
    ensures RowJustified(env, log + [o], h, row)
  {
    var i: nat, token :| env.tokenHash(token) == h && Unrevoked(log, i, token, row.userId)
      && row.expiresAt == ExpiryText(env, log[i].now);
    UnrevokedAppend(log, o, i, token, row.userId);
    assert (log + [o])[i] == log[i];
  }

  lemma NewRowJustified(env: Env, log: seq<Outcome>, o: Outcome)
    requires o.LoggedIn?
    ensures RowJustified(env, log + [o], env.tokenHash(o.token), Session(o.user, ExpiryText(env, o.now)))
  {
    UnrevokedAppend(log, o, |log|, o.token, o.user);
    assert (log + [o])[|log|] == o;
  }

  // Every row after a step was there before and is not ended by it, or is the row of its login.
  ghost predicate RowExplained(env: Env, t: Tables, e: Event, h: string)
    requires h in Step(env, t, e).sessions
  {
    var o, row := OutcomeOf(env, t, e), Step(env, t, e).sessions[h];
    || (o.LoggedIn? && h == env.tokenHash(o.token) && row == Session(o.user, ExpiryText(env, o.now)))
    || (h in t.sessions && row == t.sessions[h]
        && forall token :: env.tokenHash(token) == h ==> !EndsRow(o, token, row.userId))
  }

  lemma RowsAfterLogin(env: Env, t: Tables, e: Event, h: string)
    requires (e.Login? || e.Sweep?) && h in Step(env, t, e).sessions
    ensures RowExplained(env, t, e, h)
  {
  }

  lemma RowsAfterLogout(env: Env, t: Tables, e: Event, h: string)
    requires HashOk(env) && e.Logout? && h in Step(env, t, e).sessions
    ensures RowExplained(env, t, e, h)
  {
  }

  lemma RowsAfterUserStep(env: Env, t: Tables, e: Event, h: string)
    requires !e.Login? && !e.Sweep? && !e.Logout? && h in Step(env, t, e).sessions
    ensures RowExplained(env, t, e, h)
  {
  }

  lemma RowsAfterStep(env: Env, t: Tables, e: Event, h: string)
    requires HashOk(env) && h in Step(env, t, e).sessions
    ensures RowExplained(env, t, e, h)
  {
    if e.Login? || e.Sweep? {
      RowsAfterLogin(env, t, e, h);
    } else if e.Logout? {
      RowsAfterLogout(env, t, e, h);
    } else {
      RowsAfterUserStep(env, t, e, h);
    }
  }

  lemma StepKeepsRowsJustified(env: Env, log: seq<Outcome>, t: Tables, e: Event)
    requires HashOk(env) && RowsJustified(env, log, t)
    ensures RowsJustified(env, log + [OutcomeOf(env, t, e)], Step(env, t, e))
  {
    var o, after := OutcomeOf(env, t, e), Step(env, t, e);
    forall h | h in after.sessions ensures RowJustified(env, log + [o], h, after.sessions[h]) {
      RowsAfterStep(env, t, e, h);
      if h in t.sessions && after.sessions[h] == t.sessions[h]
         && forall token :: env.tokenHash(token) == h ==> !EndsRow(o, token, after.sessions[h].userId) {
        KeptRowJustified(env, log, o, h, t.sessions[h]);
      } else {
        NewRowJustified(env, log, o);
      }
    }
  }

  lemma NotAfterThenBefore(a: string, b: string, c: string)
    requires !Less(b, a) && Less(b, c)
    ensures Less(a, c)
  {
    LessIsTotal(a, b);
    if Less(a, b) {
      LessIsTransitive(a, b, c);
    }
  }

  lemma StepKeepsLogins(env: Env, log: seq<Outcome>, t: Tables, e: Event, now: nat)
    requires HashOk(env) && UsersOk(t) && LoginsKept(env, log, t, now)
    requires TimeOf(e).Some? ==> TextLe(env, TimeOf(e).value, now)
    ensures LoginsKept(env, log + [OutcomeOf(env, t, e)], Step(env, t, e), now)
  {
    var o, after := OutcomeOf(env, t, e), Step(env, t, e);
    forall i: nat, token, user | Standing(log + [o], i, token, user)
      && Less(env.stamp(now), ExpiryText(env, (log + [o])[i].now))
      ensures user in after.users && HasRow(env, after, token, user, ExpiryText(env, (log + [o])[i].now))
    {
      UnrevokedAppend(log, o, i, token, user);
      if i < |log| {
        assert (log + [o])[i] == log[i];
        if TimeOf(e).Some? {
          NotAfterThenBefore(env.stamp(TimeOf(e).value), env.stamp(now), ExpiryText(env, log[i].now));
        }
        StandingLoginSurvives(env, t, e, token, user, ExpiryText(env, log[i].now));
      } else {
        assert (log + [o])[i] == o;
      }
    }
  }

  // A step removes the row of a standing login only by ending or sweeping it.
  lemma StandingLoginSurvives(env: Env, t: Tables, e: Event, token: string, user: int, expiresAt: string)
    requires HashOk(env) && UsersOk(t) && user in t.users && HasRow(env, t, token, user, expiresAt)
    requires !Ends(OutcomeOf(env, t, e), token, user)
    requires TimeOf(e).Some? ==> Less(env.stamp(TimeOf(e).value), expiresAt)
    ensures user in Step(env, t, e).users && HasRow(env, Step(env, t, e), token, user, expiresAt)
  {
  }

  lemma StepKeepsDeletions(env: Env, log: seq<Outcome>, t: Tables, e: Event)
    requires UsersOk(t) && DeletionsFinal(log, t)
    ensures DeletionsFinal(log + [OutcomeOf(env, t, e)], Step(env, t, e))
  {
    var o, after := OutcomeOf(env, t, e), Step(env, t, e);
    var longer := log + [o];
    NextUserGrows(env, t, e);
    forall i, j | 0 <= i < j < |longer| && longer[i].LoggedIn? && longer[j] == UserDeleted(longer[i].user)
      ensures longer[i].user !in after.users
    {
      assert longer[i] == log[i] && log[i].user < t.nextUser;
      NoOldUserReturns(env, t, e, log[i].user);
    }
  }

  lemma NextUserGrows(env: Env, t: Tables, e: Event)
    requires UsersOk(t)
    ensures t.nextUser <= Step(env, t, e).nextUser
    ensures OutcomeOf(env, t, e).LoggedIn? ==> OutcomeOf(env, t, e).user < t.nextUser
  {
  }

  lemma NoOldUserReturns(env: Env, t: Tables, e: Event, user: int)
    requires UsersOk(t) && user < t.nextUser
    ensures user !in t.users ==> user !in Step(env, t, e).users
    ensures OutcomeOf(env, t, e) == UserDeleted(user) ==> user !in Step(env, t, e).users
  {
  }

  ghost predicate Inv(env: Env, events: seq<Event>, now: nat) {
    && RowsJustified(env, Log(env, events), Run(env, events))
    && LoginsKept(env, Log(env, events), Run(env, events), now)
    && DeletionsFinal(Log(env, events), Run(env, events))
  }

  lemma {:induction false} RunKeepsInv(env: Env, events: seq<Event>, now: nat)
    requires HashOk(env) && AllBy(env, events, now)
    ensures Inv(env, events, now)
  {
    if events != [] {
      var before, e := events[..|events| - 1], events[|events| - 1];
      RunKeepsInv(env, before, now);
      RunKeepsUsersOk(env, before);
      var log, t := Log(env, before), Run(env, before);
      StepKeepsRowsJustified(env, log, t, e);
      StepKeepsLogins(env, log, t, e, now);
      StepKeepsDeletions(env, log, t, e);
    }
  }

  // The main result. At any time the clock (read as stored text) has not passed, a token looks up
  // a user exactly when history says so. It holds whichever deletions cascade to the session rows.
  lemma LookupRefinesHistory(env: Env, events: seq<Event>, token: string, user: int, now: nat)
    requires HashOk(env) && AllBy(env, events, now)
    ensures Finds(env, Run(env, events), token, user, now) <==> Holds(env, Log(env, events), token, user, now)
  {
    RunKeepsInv(env, events, now);
    var log, t := Log(env, events), Run(env, events);
    var found := UserBySession(env, t, token, now);
    if found.Some? && found.value.0 == user {
      FoundImpliesHolds(env, log, t, token, user, now);
    }
    if Holds(env, log, token, user, now) {
      HoldsImpliesFound(env, log, t, token, user, now);
    }
  }

  lemma FoundImpliesHolds(env: Env, log: seq<Outcome>, t: Tables, token: string, user: int, now: nat)
    requires HashOk(env) && RowsJustified(env, log, t) && DeletionsFinal(log, t)
    requires UserBySession(env, t, token, now).Some? && UserBySession(env, t, token, now).value.0 == user
    ensures Holds(env, log, token, user, now)
  {
    var h := env.tokenHash(token);
    var row := t.sessions[h];
    assert RowJustified(env, log, h, row);
    var i: nat, tok :| env.tokenHash(tok) == h && Unrevoked(log, i, tok, user)
      && row.expiresAt == ExpiryText(env, log[i].now);
    assert tok == token;
    assert Standing(log, i, token, user);
  }

  lemma HoldsImpliesFound(env: Env, log: seq<Outcome>, t: Tables, token: string, user: int, now: nat)
    requires LoginsKept(env, log, t, now) && Holds(env, log, token, user, now)
    ensures UserBySession(env, t, token, now).Some? && UserBySession(env, t, token, now).value.0 == user
  {
    var i: nat :| Standing(log, i, token, user) && Less(env.stamp(now), ExpiryText(env, log[i].now));
    assert HasRow(env, t, token, user, ExpiryText(env, log[i].now));
  }

  // ----- Consequences. -----

  lemma StandingIsFound(env: Env, events: seq<Event>, token: string, user: int, now: nat, i: nat)
    requires HashOk(env) && AllBy(env, events, now) && Standing(Log(env, events), i, token, user)
    requires Less(env.stamp(now), ExpiryText(env, Log(env, events)[i].now))
    ensures Finds(env, Run(env, events), token, user, now)
  {
    LookupRefinesHistory(env, events, token, user, now);
  }

  ghost predicate Finds(env: Env, t: Tables, token: string, user: int, now: nat) {
    var found := UserBySession(env, t, token, now);
    found.Some? && found.value.0 == user
  }

  lemma FoundIsStanding(env: Env, events: seq<Event>, token: string, user: int, now: nat) returns (i: nat)
    requires HashOk(env) && AllBy(env, events, now) && Finds(env, Run(env, events), token, user, now)
    ensures Standing(Log(env, events), i, token, user)
    ensures Less(env.stamp(now), ExpiryText(env, Log(env, events)[i].now))
  {
    LookupRefinesHistory(env, events, token, user, now);
    i :| Standing(Log(env, events), i, token, user) && Less(env.stamp(now), ExpiryText(env, Log(env, events)[i].now));
  }

  // A way of storing instants whose order is right for instants a second or more apart.
  ghost predicate SecondAccurate(stamp: nat -> string) {
    forall a: nat, b: nat :: InRange(a) && InRange(b) ==>
      && (a + NANOS <= b ==> Less(stamp(a), stamp(b)))
      && (Less(stamp(a), stamp(b)) ==> a < b + NANOS)
  }

  lemma TsIsSecondAccurate()
    ensures SecondAccurate(Ts)
  {
    forall a: nat, b: nat | InRange(a) && InRange(b)
      ensures a + NANOS <= b ==> Less(Ts(a), Ts(b))
      ensures Less(Ts(a), Ts(b)) ==> a < b + NANOS
    {
      if a + NANOS <= b {
        SecondApartIsLess(a, b);
      }
      if Less(Ts(a), Ts(b)) {
        LessWithinASecond(a, b);
      }
    }
  }

  // With the service's own timestamps (TsIsSecondAccurate) the thirty days are met to within a second
  // of real time: a standing login is found until a second before they are over ...
  lemma LifetimeInRealTime(env: Env, events: seq<Event>, token: string, user: int, now: nat, i: nat, login: nat)
    requires HashOk(env) && AllBy(env, events, now) && SecondAccurate(env.stamp)
    requires Standing(Log(env, events), i, token, user) && Log(env, events)[i] == LoggedIn(token, user, login)
    requires InRange(now) && InRange(login + SESSION_LIFE) && now + NANOS <= login + SESSION_LIFE
    ensures Finds(env, Run(env, events), token, user, now)
  {
    StandingIsFound(env, events, token, user, now, i);
  }

  // ... and what is found is a standing login, at most a second past its thirty days.
  lemma FoundInsideLifetime(env: Env, events: seq<Event>, token: string, user: int, now: nat) returns (i: nat)
    requires HashOk(env) && AllBy(env, events, now) && SecondAccurate(env.stamp) && InRange(now)
    requires Finds(env, Run(env, events), token, user, now)
    ensures Standing(Log(env, events), i, token, user)
    ensures InRange(Log(env, events)[i].now + SESSION_LIFE) ==> now < Log(env, events)[i].now + SESSION_LIFE + NANOS
  {
    i := FoundIsStanding(env, events, token, user, now);
  }

  // A password change ends the user's sessions exactly when its second store call succeeds.
  lemma PasswordChangeRevokesExactly(env: Env, t: Tables, e: Event, token: string, now: nat)
    requires e.UpdateUser? && UpdateAccepted(t, e.id, e.username, e.password, e.role) && e.password != []
    requires UserBySession(env, t, token, now).Some? && UserBySession(env, t, token, now).value.0 == e.id
    ensures UserBySession(env, Step(env, t, e), token, now).Some? <==> e.revokeFails
  {
  }

  lemma {:induction false} LogAt(env: Env, events: seq<Event>, i: nat)
    requires i < |events|
    ensures |Log(env, events)| == |events| && Log(env, events)[i] == OutcomeOf(env, Run(env, events[..i]), events[i])
  {
    var before := events[..|events| - 1];
    if i < |before| {
      LogAt(env, before, i);
      assert before[..i] == events[..i];
    } else if before != [] {
      LogAt(env, before, 0);
    }
  }

  // After a password change that went through, whatever came later, only logins since then count: every token
  // that still finds the user was issued after it.
  lemma OnlyLoginsSinceTheChange(env: Env, events: seq<Event>, token: string, user: int, now: nat, change: nat)
    returns (i: nat)
    requires HashOk(env) && AllBy(env, events, now) && Finds(env, Run(env, events), token, user, now)
    requires change < |events| && OutcomeOf(env, Run(env, events[..change]), events[change])
      == PasswordChanged(user, true)
    ensures change < i < |events| && LoginAt(Log(env, events), i, token, user)
  {
    i := FoundIsStanding(env, events, token, user, now);
    LogAt(env, events, change);
    assert EndsRow(Log(env, events)[change], token, user);
  }

  // A deleted user's id never comes back, so no session made before authenticates
  // anybody again, whether or not the deletion cascaded to the session rows.
  lemma {:induction false} DeletionIsFinal(env: Env, events: seq<Event>, more: seq<Event>, user: int)
    requires user < Run(env, events).nextUser && user !in Run(env, events).users
    ensures user !in Run(env, events + more).users && user < Run(env, events + more).nextUser
    ensures forall token, now :: !Finds(env, Run(env, events + more), token, user, now)
  {
    if more == [] {
      assert events + more == events;
    } else {
      var before, e := events + more[..|more| - 1], more[|more| - 1];
      DeletionIsFinal(env, events, more[..|more| - 1], user);
      assert events + more == before + [e] && (before + [e])[..|before|] == before;
      RunKeepsUsersOk(env, before);
      NextUserGrows(env, Run(env, before), e);
      NoOldUserReturns(env, Run(env, before), e, user);
    }
  }
}
