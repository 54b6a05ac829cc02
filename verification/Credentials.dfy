/**
  Who may log in (auth.go, EnsureInitialAdmin, Login and HashPassword; the user handlers of api.go), said of the
  requests alone: a user is made, renamed, given a password and deleted by the requests that were admissible when
  they came, and a login succeeds exactly with the name and the password last given to one who is there.
 */
module Credentials {
  import opened Basics
  import opened Strings
  import opened Timestamps
  import opened Accounts
  import opened AccountsHistory

  // ----- Admissible requests. -----

  predicate NameChar(c: char) { 'a' <= c <= 'z' || 'A' <= c <= 'Z' || '0' <= c <= '9' || c in ".-_@" }

  ghost predicate GoodName(name: string) { 1 <= |name| <= 64 && forall c :: c in name ==> NameChar(c) }

  predicate GoodPassword(password: Bytes) { |password| >= 8 && |password| <= 72 }

  ghost predicate NameOfOther(users: map<int, User>, id: int, name: string) {
    exists other :: other in users && other != id && users[other].username == name
  }

  // The request makes user u.
  ghost predicate Makes(t: Tables, e: Event, u: int) {
    u == t.nextUser
    && match e
       case EnsureAdmin(username, password, _) =>
         && (forall id :: id !in t.users) && GoodName(TrimSpace(username)) && GoodPassword(password)
       case CreateUser(username, password, role, _) =>
         && GoodName(TrimSpace(username)) && GoodPassword(password) && (role == "" || TrimSpace(role) == "admin")
         && forall id :: id in t.users ==> t.users[id].username != TrimSpace(username)
       case _ => false
  }

  // The request updates user u, with or without a new password.
  ghost predicate Updates(t: Tables, e: Event, u: int) {
    && e.UpdateUser? && e.id == u && u in t.users
    && GoodName(TrimSpace(e.username)) && (e.role == "" || TrimSpace(e.role) == "admin")
    && (e.password == [] || GoodPassword(e.password)) && !NameOfOther(t.users, u, TrimSpace(e.username))
  }

  // The request deletes user u: not oneself, and not the last one.
  ghost predicate Deletes(t: Tables, e: Event, u: int) {
    e.DeleteUser? && e.id == u && u in t.users && e.current != Some(u) && exists other :: other in t.users && other != u
  }

  // ----- The name and the hash last given. -----

  ghost predicate GivesName(t: Tables, e: Event, u: int, name: string) {
    (Makes(t, e, u) || Updates(t, e, u)) && name == TrimSpace(e.username)
  }

  ghost predicate GivesHash(t: Tables, e: Event, u: int, hash: string) {
    (Makes(t, e, u) || (Updates(t, e, u) && e.password != [])) && hash == e.hash
  }

  // What the request at i did.
  ghost predicate NamedAt(env: Env, events: seq<Event>, i: nat, u: int, name: string) {
    i < |events| && GivesName(Run(env, events[..i]), events[i], u, name)
  }

  ghost predicate HashedAt(env: Env, events: seq<Event>, i: nat, u: int, hash: string) {
    i < |events| && GivesHash(Run(env, events[..i]), events[i], u, hash)
  }

  ghost predicate MadeAt(env: Env, events: seq<Event>, i: nat, u: int) {
    i < |events| && Makes(Run(env, events[..i]), events[i], u)
  }

  ghost predicate DeletedAt(env: Env, events: seq<Event>, i: nat, u: int) {
    i < |events| && Deletes(Run(env, events[..i]), events[i], u)
  }

  // The request at i gave u this name, and no later one gave it any.
  ghost predicate LastName(env: Env, events: seq<Event>, i: nat, u: int, name: string) {
    NamedAt(env, events, i, u, name) && forall j: nat, other :: i < j ==> !NamedAt(env, events, j, u, other)
  }

  ghost predicate LastHash(env: Env, events: seq<Event>, i: nat, u: int, hash: string) {
    HashedAt(env, events, i, u, hash) && forall j: nat, other :: i < j ==> !HashedAt(env, events, j, u, other)
  }

  // Made by the request at i, and not deleted since.
  ghost predicate PresentSince(env: Env, events: seq<Event>, i: nat, u: int) {
    MadeAt(env, events, i, u) && forall j: nat :: i < j ==> !DeletedAt(env, events, j, u)
  }

  ghost predicate Present(env: Env, events: seq<Event>, u: int) {
    exists i: nat :: PresentSince(env, events, i, u)
  }

  // ----- What one request does to one user. -----

  lemma GoodNameExactly(username: string)
    ensures UsernameOk(username) <==> GoodName(TrimSpace(username))
    ensures UsernameOk(TrimSpace(username)) <==> UsernameOk(username)
  {
    var name := TrimSpace(username);
    TrimSpaceIdempotent(username);
    if GoodName(name) {
      forall i | 0 <= i < |name| ensures UsernameChar(name[i]) {
        assert name[i] in name;
      }
    }
  }

  lemma SomebodyElse(users: map<int, User>, u: int)
    requires u in users
    ensures |users| > 1 <==> exists other :: other in users && other != u
  {
    var others := users.Keys - {u};
    assert |others| == |users.Keys| - 1 && |users.Keys| == |users|;
    if forall other :: other in users ==> other == u {
      assert others == {};
    }
    if other :| other in users && other != u {
      assert other in others;
    }
  }

  // A user after a request.
  ghost predicate UserStepOk(t: Tables, e: Event, after: Tables, u: int) {
    && (u in after.users <==> Makes(t, e, u) || (u in t.users && !Deletes(t, e, u)))
    && (u in after.users ==>
          && after.users[u].username
             == (if Makes(t, e, u) || Updates(t, e, u) then TrimSpace(e.username) else t.users[u].username)
          && after.users[u].passwordHash
             == (if Makes(t, e, u) || (Updates(t, e, u) && e.password != []) then e.hash else t.users[u].passwordHash))
  }

  lemma EnsureAdminStep(env: Env, t: Tables, e: Event, u: int)
    requires UsersOk(t) && e.EnsureAdmin?
    ensures UserStepOk(t, e, Step(env, t, e), u)
  {
    GoodNameExactly(e.username);
    if forall id :: id !in t.users {
      assert t.users == map[];
    }
  }

  lemma CreateStep(env: Env, t: Tables, e: Event, u: int)
    requires UsersOk(t) && e.CreateUser?
    ensures UserStepOk(t, e, Step(env, t, e), u)
  {
    GoodNameExactly(e.username);
  }

  lemma UpdateStep(env: Env, t: Tables, e: Event, u: int)
    requires UsersOk(t) && e.UpdateUser?
    ensures UserStepOk(t, e, Step(env, t, e), u)
  {
    GoodNameExactly(e.username);
  }

  lemma DeleteStep(env: Env, t: Tables, e: Event, u: int)
    requires UsersOk(t) && e.DeleteUser?
    ensures UserStepOk(t, e, Step(env, t, e), u)
  {
    if u in t.users && e.id == u {
      SomebodyElse(t.users, u);
      assert Deletes(t, e, u) <==> DeleteAccepted(t, e.current, u);
    } else {
      assert !Deletes(t, e, u);
    }
  }

  lemma UserStep(env: Env, t: Tables, e: Event, u: int)
    requires UsersOk(t)
    ensures UserStepOk(t, e, Step(env, t, e), u)
  {
    match e
    case EnsureAdmin(_, _, _) => EnsureAdminStep(env, t, e, u);
    case CreateUser(_, _, _, _) => CreateStep(env, t, e, u);
    case UpdateUser(_, _, _, _, _, _) => UpdateStep(env, t, e, u);
    case DeleteUser(_, _, _) => DeleteStep(env, t, e, u);
    case _ =>
  }

  // ----- Over every run. -----

  lemma RunStep(env: Env, events: seq<Event>, u: int)
    requires events != []
    ensures var front, e := events[..|events| - 1], events[|events| - 1];
      UsersOk(Run(env, front)) && UserStepOk(Run(env, front), e, Run(env, events), u)
  {
    RunKeepsUsersOk(env, events[..|events| - 1]);
    UserStep(env, Run(env, events[..|events| - 1]), events[|events| - 1], u);
  }

  // A prefix of a run remembers the same.
  lemma SameInFront(env: Env, events: seq<Event>, i: nat, u: int)
    requires i < |events| - 1
    ensures var front := events[..|events| - 1];
      && (MadeAt(env, front, i, u) <==> MadeAt(env, events, i, u))
      && (DeletedAt(env, front, i, u) <==> DeletedAt(env, events, i, u))
      && (forall name :: NamedAt(env, front, i, u, name) <==> NamedAt(env, events, i, u, name))
      && (forall hash :: HashedAt(env, front, i, u, hash) <==> HashedAt(env, events, i, u, hash))
  {
    var front := events[..|events| - 1];
    assert front[..i] == events[..i] && front[i] == events[i];
  }

  // A user is in the table exactly if it was made and not deleted since.
  lemma {:induction false} PresentExactly(env: Env, events: seq<Event>, u: int)
    ensures u in Run(env, events).users <==> Present(env, events, u)
  {
    if events != [] {
      var n := |events| - 1;
      PresentExactly(env, events[..n], u);
      RunStep(env, events, u);
      PresentStep(env, events, u);
    }
  }

  lemma PresentSinceStep(env: Env, events: seq<Event>, i: nat, u: int)
    requires events != []
    ensures var n := |events| - 1;
      PresentSince(env, events, i, u)
      <==> (i == n && MadeAt(env, events, n, u))
           || (PresentSince(env, events[..n], i, u) && !DeletedAt(env, events, n, u))
  {
    var n := |events| - 1;
    forall j: nat | j < n ensures DeletedAt(env, events[..n], j, u) <==> DeletedAt(env, events, j, u) {
      SameInFront(env, events, j, u);
    }
    if i < n { SameInFront(env, events, i, u); }
  }

  lemma PresentStep(env: Env, events: seq<Event>, u: int)
    requires events != []
    ensures var n := |events| - 1;
      Present(env, events, u)
      <==> MadeAt(env, events, n, u) || (Present(env, events[..n], u) && !DeletedAt(env, events, n, u))
  {
    var n := |events| - 1;
    if i: nat :| PresentSince(env, events, i, u) {
      PresentSinceStep(env, events, i, u);
    }
    if i: nat :| PresentSince(env, events[..n], i, u) {
      PresentSinceStep(env, events, i, u);
    }
    PresentSinceStep(env, events, n, u);
  }

  lemma NamedInFront(env: Env, events: seq<Event>, u: int)
    requires events != []
    ensures var n := |events| - 1;
      forall j: nat, name ::
        NamedAt(env, events[..n], j, u, name) <==> j < n && NamedAt(env, events, j, u, name)
    ensures forall j: nat, name :: NamedAt(env, events, j, u, name) ==> j < |events|
  {
    var n := |events| - 1;
    forall j: nat, name | j < n ensures NamedAt(env, events[..n], j, u, name) <==> NamedAt(env, events, j, u, name) {
      SameInFront(env, events, j, u);
    }
  }

  lemma HashedInFront(env: Env, events: seq<Event>, u: int)
    requires events != []
    ensures var n := |events| - 1;
      forall j: nat, hash ::
        HashedAt(env, events[..n], j, u, hash) <==> j < n && HashedAt(env, events, j, u, hash)
    ensures forall j: nat, hash :: HashedAt(env, events, j, u, hash) ==> j < |events|
  {
    var n := |events| - 1;
    forall j: nat, hash | j < n
      ensures HashedAt(env, events[..n], j, u, hash) <==> HashedAt(env, events, j, u, hash)
    {
      SameInFront(env, events, j, u);
    }
  }

  // Its name and its hash are those last given.
  lemma LastNameStep(env: Env, events: seq<Event>, i: nat, u: int, name: string)
    requires events != []
    ensures var n := |events| - 1;
      LastName(env, events, i, u, name)
      <==> (i == n && NamedAt(env, events, n, u, name))
           || (LastName(env, events[..n], i, u, name) && forall other :: !NamedAt(env, events, n, u, other))
  {
    NamedInFront(env, events, u);
  }

  lemma LastHashStep(env: Env, events: seq<Event>, i: nat, u: int, hash: string)
    requires events != []
    ensures var n := |events| - 1;
      LastHash(env, events, i, u, hash)
      <==> (i == n && HashedAt(env, events, n, u, hash))
           || (LastHash(env, events[..n], i, u, hash) && forall other :: !HashedAt(env, events, n, u, other))
  {
    HashedInFront(env, events, u);
  }

  lemma {:induction false} NameExactly(env: Env, events: seq<Event>, u: int, name: string)
    requires u in Run(env, events).users
    ensures Run(env, events).users[u].username == name <==> exists i: nat :: LastName(env, events, i, u, name)
  {
    var n := |events| - 1;
    var t, e := Run(env, events[..n]), events[n];
    RunStep(env, events, u);
    if Makes(t, e, u) || Updates(t, e, u) {
      LastNameStep(env, events, n, u, name);
      assert NamedAt(env, events, n, u, TrimSpace(e.username));
      if i: nat :| LastName(env, events, i, u, name) {
        LastNameStep(env, events, i, u, name);
      }
    } else {
      NameExactly(env, events[..n], u, name);
      if i: nat :| LastName(env, events, i, u, name) {
        LastNameStep(env, events, i, u, name);
      }
      if i: nat :| LastName(env, events[..n], i, u, name) {
        LastNameStep(env, events, i, u, name);
      }
    }
  }

  lemma {:induction false} HashExactly(env: Env, events: seq<Event>, u: int, hash: string)
    requires u in Run(env, events).users
    ensures Run(env, events).users[u].passwordHash == hash <==> exists i: nat :: LastHash(env, events, i, u, hash)
  {
    var n := |events| - 1;
    var t, e := Run(env, events[..n]), events[n];
    RunStep(env, events, u);
    if Makes(t, e, u) || (Updates(t, e, u) && e.password != []) {
      LastHashStep(env, events, n, u, hash);
      assert HashedAt(env, events, n, u, e.hash);
      if i: nat :| LastHash(env, events, i, u, hash) {
        LastHashStep(env, events, i, u, hash);
      }
    } else {
      HashExactly(env, events[..n], u, hash);
      if i: nat :| LastHash(env, events, i, u, hash) {
        LastHashStep(env, events, i, u, hash);
      }
      if i: nat :| LastHash(env, events[..n], i, u, hash) {
        LastHashStep(env, events, i, u, hash);
      }
    }
  }

  // ----- The results. -----

  // The name and password are those last given to u, who is there.
  ghost predicate RightCredentials(env: Env, events: seq<Event>, u: int, username: string, password: Bytes) {
    && Present(env, events, u)
    && (exists i: nat :: LastName(env, events, i, u, TrimSpace(username)))
    && exists i: nat, hash :: LastHash(env, events, i, u, hash) && env.matches(hash, password)
  }

  lemma RightCredentialsExactly(env: Env, events: seq<Event>, u: int, username: string, password: Bytes)
    ensures var users := Run(env, events).users;
      RightCredentials(env, events, u, username, password)
      <==> u in users && users[u].username == TrimSpace(username) && env.matches(users[u].passwordHash, password)
  {
    PresentExactly(env, events, u);
    if u in Run(env, events).users {
      var user := Run(env, events).users[u];
      NameExactly(env, events, u, TrimSpace(username));
      HashExactly(env, events, u, user.passwordHash);
      if i: nat, hash :| LastHash(env, events, i, u, hash) && env.matches(hash, password) {
        HashExactly(env, events, u, hash);
      }
    }
  }

  // A session of this token that is not over.
  predicate Held(env: Env, t: Tables, token: string, now: nat) {
    var h := env.tokenHash(token);
    h in t.sessions && Less(env.stamp(now), t.sessions[h].expiresAt)
  }

  lemma FoundExactly(users: map<int, User>, name: string, u: int)
    requires UniqueNames(users)
    ensures FindUser(users, name) == Some(u) <==> u in users && users[u].username == name
  {
  }

  // After any run a login logs u in exactly with the right credentials of u and a token nobody holds.
  lemma LoginExactly(env: Env, events: seq<Event>, username: string, password: Bytes, token: string, now: nat, u: int)
    ensures OutcomeOf(env, Run(env, events), Login(username, password, token, now)) == LoggedIn(token, u, now)
       <==> RightCredentials(env, events, u, username, password) && !Held(env, Run(env, events), token, now)
  {
    var t := Run(env, events);
    RunKeepsUsersOk(env, events);
    RightCredentialsExactly(env, events, u, username, password);
    FoundExactly(t.users, TrimSpace(username), u);
  }

  // Whoever is logged in somewhere in a run came with the right credentials.
  lemma LoggedInHadCredentials(env: Env, events: seq<Event>, i: nat, token: string, u: int, now: nat)
    requires i < |events| && i < |Log(env, events)| && Log(env, events)[i] == LoggedIn(token, u, now)
    ensures events[i].Login? && events[i].token == token && events[i].now == now
    ensures RightCredentials(env, events[..i], u, events[i].username, events[i].password)
  {
    LogAt(env, events, i);
    LoginExactly(env, events[..i], events[i].username, events[i].password, token, now, u);
  }

  // With a token of its own the right credentials are all a login needs.
  lemma FreshTokenIsNotHeld(env: Env, events: seq<Event>, token: string, now: nat)
    requires HashOk(env) && forall i :: 0 <= i < |events| && events[i].Login? ==> events[i].token != token
    ensures !Held(env, Run(env, events), token, now)
  {
    SessionTokensWereUsed(env, events, token);
  }

  lemma {:induction false} SessionTokensWereUsed(env: Env, events: seq<Event>, token: string)
    requires HashOk(env) && forall i :: 0 <= i < |events| && events[i].Login? ==> events[i].token != token
    ensures env.tokenHash(token) !in Run(env, events).sessions
  {
    if events != [] {
      var front, e := events[..|events| - 1], events[|events| - 1];
      assert forall i :: 0 <= i < |front| ==> front[i] == events[i];
      SessionTokensWereUsed(env, front, token);
      if env.tokenHash(token) in Run(env, events).sessions {
        RowsAfterStep(env, Run(env, front), e, env.tokenHash(token));
      }
    }
  }
}
