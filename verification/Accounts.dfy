/**
  Users and sessions (users.go, auth.go and the user handlers of api.go): the two tables, the store
  calls on them, and the handlers as steps over them. A store call that fails has no effect.
 */
module Accounts {
  import opened Basics
  import opened Strings
  import opened Timestamps
  import opened Calendar

  datatype User = User(username: string, passwordHash: string, role: string)

  // The expiry is stored and compared as text.
  datatype Session = Session(userId: int, expiresAt: string)

  datatype Tables = Tables(users: map<int, User>, sessions: map<string, Session>, nextUser: int)

  const EMPTY := Tables(map[], map[], 1)

  // What the store calls rely on: the hash of a session token, the bcrypt comparison, and the
  // text an instant is stored as.
  datatype Env = Env(tokenHash: string -> string, matches: (string, Bytes) -> bool, stamp: nat -> string)

  const SESSION_LIFE := 30 * DAY * NANOS

  // The seconds the browser keeps the cookie with the token.
  const COOKIE_MAX_AGE := 30 * 24 * 60 * 60

  // It keeps it just as long as the session lives.
  lemma CookieLivesAsLong()
    ensures SESSION_LIFE == COOKIE_MAX_AGE * 1_000_000_000
  {
  }

  function ExpiryText(env: Env, now: nat): string { env.stamp(now + SESSION_LIFE) }

  // ----- The store calls. -----

  ghost predicate UsernameTaken(users: map<int, User>, username: string) {
    exists id :: id in users && users[id].username == username
  }

  ghost function FindUser(users: map<int, User>, username: string): (r: Option<int>)
    ensures r.Some? <==> UsernameTaken(users, username)
    ensures r.Some? ==> r.value in users && users[r.value].username == username
  {
    if UsernameTaken(users, username) then
      var id :| id in users && users[id].username == username;
      Some(id)
    else None
  }

  function Unexpired(env: Env, sessions: map<string, Session>, now: nat): map<string, Session> {
    map h | h in sessions && Less(env.stamp(now), sessions[h].expiresAt) :: sessions[h]
  }

  function NotOf(sessions: map<string, Session>, userId: int): map<string, Session> {
    map h | h in sessions && sessions[h].userId != userId :: sessions[h]
  }

  // The join of users and sessions that every authenticated request starts with.
  function UserBySession(env: Env, t: Tables, token: string, now: nat): Option<(int, User)> {
    var h := env.tokenHash(token);
    if h in t.sessions && t.sessions[h].userId in t.users && Less(env.stamp(now), t.sessions[h].expiresAt)
    then Some((t.sessions[h].userId, t.users[t.sessions[h].userId]))
    else None
  }

  // ----- Input checks. -----

  predicate UsernameChar(c: char) {
    || 'a' <= c <= 'z' || 'A' <= c <= 'Z' || '0' <= c <= '9'
    || c == '.' || c == '-' || c == '_' || c == '@'
  }

  // ValidateUsername accepts. The length limit counts bytes, but a name with a character of
  // more than one byte is refused anyway.
  predicate UsernameOk(username: string) {
    var name := TrimSpace(username);
    name != "" && |name| <= 64 && forall i :: 0 <= i < |name| ==> UsernameChar(name[i])
  }

  method ValidateUsername(username: string) returns (ok: bool)
    ensures ok == UsernameOk(username)
  {
    var name := TrimSpace(username);
    if name == "" || |name| > 64 {
      return false;
    }
    for i := 0 to |name|
      invariant forall j :: 0 <= j < i ==> UsernameChar(name[j])
    {
      if !UsernameChar(name[i]) {
        return false;
      }
    }
    return true;
  }

  // HashPassword accepts.
  predicate PasswordOk(password: Bytes) { 8 <= |password| <= 72 }

  function NormalRole(role: string): string { if role == "" then "admin" else TrimSpace(role) }

  // ----- The handlers as steps; every one is atomic. -----

  datatype Event =
    | EnsureAdmin(username: string, password: Bytes, hash: string)
    | Sweep(now: nat)
    | Login(username: string, password: Bytes, token: string, now: nat)
    | Logout(token: string)
    | CreateUser(username: string, password: Bytes, role: string, hash: string)
    | UpdateUser(id: int, username: string, password: Bytes, role: string, hash: string, revokeFails: bool)
    | DeleteUser(current: Option<int>, id: int, cascade: bool)

  // What a step did that concerns sessions.
  datatype Outcome =
    | LoggedIn(token: string, user: int, now: nat)
    | LoggedOut(token: string)
    | PasswordChanged(user: int, revoked: bool)
    | UserDeleted(user: int)
    | Nothing

  function Insert(t: Tables, user: User): Tables {
    t.(users := t.users[t.nextUser := user], nextUser := t.nextUser + 1)
  }

  ghost function AfterEnsureAdmin(t: Tables, username: string, password: Bytes, hash: string): Tables {
    if t.users != map[] || password == [] || !UsernameOk(username) || !PasswordOk(password) then t
    else Insert(t, User(TrimSpace(username), hash, "admin"))
  }

  ghost function AfterCreate(t: Tables, username: string, password: Bytes, role: string, hash: string): Tables {
    var name := TrimSpace(username);
    if !UsernameOk(name) || NormalRole(role) != "admin" || !PasswordOk(password) || UsernameTaken(t.users, name) then t
    else Insert(t, User(name, hash, NormalRole(role)))
  }

  // The UNIQUE constraint refuses a name another user has.
  ghost predicate UpdateAccepted(t: Tables, id: int, username: string, password: Bytes, role: string) {
    var name := TrimSpace(username);
    && UsernameOk(name) && NormalRole(role) == "admin"
    && (password == [] || PasswordOk(password))
    && (id in t.users ==> forall other :: other in t.users && other != id ==> t.users[other].username != name)
  }

  function Updated(t: Tables, id: int, username: string, password: Bytes, role: string, hash: string): map<int, User> {
    if id !in t.users then t.users
    else
      t.users[id := User(TrimSpace(username),
                         if password == [] then t.users[id].passwordHash else hash,
                         NormalRole(role))]
  }

  ghost function AfterUpdate(t: Tables, id: int, username: string, password: Bytes, role: string, hash: string,
                             revokeFails: bool): Tables
  {
    if !UpdateAccepted(t, id, username, password, role) then t
    else t.(users := Updated(t, id, username, password, role, hash),
            sessions := if password != [] && !revokeFails then NotOf(t.sessions, id) else t.sessions)
  }

  predicate DeleteAccepted(t: Tables, current: Option<int>, id: int) {
    current != Some(id) && |t.users| > 1
  }

  function AfterDelete(t: Tables, current: Option<int>, id: int, cascade: bool): Tables {
    if !DeleteAccepted(t, current, id) then t
    else t.(users := t.users - {id}, sessions := if cascade && id in t.users then NotOf(t.sessions, id) else t.sessions)
  }

  // The user a login with these credentials is for, and whether its session row can be inserted.
  ghost predicate LoginAccepted(env: Env, t: Tables, username: string, password: Bytes, token: string, now: nat) {
    var found := FindUser(t.users, TrimSpace(username));
    && found.Some? && env.matches(t.users[found.value].passwordHash, password)
    && env.tokenHash(token) !in Unexpired(env, t.sessions, now)
  }

  ghost function AfterLogin(env: Env, t: Tables, username: string, password: Bytes, token: string, now: nat): Tables {
    var swept := t.(sessions := Unexpired(env, t.sessions, now));
    if LoginAccepted(env, t, username, password, token, now)
    then
      var row := Session(FindUser(t.users, TrimSpace(username)).value, ExpiryText(env, now));
      swept.(sessions := swept.sessions[env.tokenHash(token) := row])
    else swept
  }

  function AfterLogout(env: Env, t: Tables, token: string): Tables {
    if token == "" then t else t.(sessions := t.sessions - {env.tokenHash(token)})
  }

  ghost function Step(env: Env, t: Tables, e: Event): Tables {
    match e
    case EnsureAdmin(username, password, hash) => AfterEnsureAdmin(t, username, password, hash)
    case Sweep(now) => t.(sessions := Unexpired(env, t.sessions, now))
    case Login(username, password, token, now) => AfterLogin(env, t, username, password, token, now)
    case Logout(token) => AfterLogout(env, t, token)
    case CreateUser(username, password, role, hash) => AfterCreate(t, username, password, role, hash)
    case UpdateUser(id, username, password, role, hash, revokeFails) =>
      AfterUpdate(t, id, username, password, role, hash, revokeFails)
    case DeleteUser(current, id, cascade) => AfterDelete(t, current, id, cascade)
  }

  ghost function OutcomeOf(env: Env, t: Tables, e: Event): Outcome {
    match e
    case Login(username, password, token, now) =>
      if LoginAccepted(env, t, username, password, token, now)
      then LoggedIn(token, FindUser(t.users, TrimSpace(username)).value, now) else Nothing
    case Logout(token) => if token == "" then Nothing else LoggedOut(token)
    case UpdateUser(id, username, password, role, _, revokeFails) =>
      if UpdateAccepted(t, id, username, password, role) && password != []
      then PasswordChanged(id, !revokeFails) else Nothing
    case DeleteUser(current, id, _) => if DeleteAccepted(t, current, id) then UserDeleted(id) else Nothing
    case _ => Nothing
  }

  // ----- The tables as the service updates them. -----

  ghost predicate UniqueNames(users: map<int, User>) {
    forall a, b :: a in users && b in users && users[a].username == users[b].username ==> a == b
  }

  class Server {
    const env: Env
    var users: map<int, User>
    var sessions: map<string, Session>
    var nextUser: int

    ghost function View(): Tables
      reads this
    {
      Tables(users, sessions, nextUser)
    }

    constructor (env: Env)
      ensures this.env == env && View() == EMPTY
    {
      this.env := env;
      users, sessions, nextUser := map[], map[], 1;
    }

    method UserByUsername(username: string) returns (r: Option<int>)
      requires UniqueNames(users)
      ensures r == FindUser(users, username)
    {
      if id :| id in users && users[id].username == username {
        return Some(id);
      }
      return None;
    }

    method InsertUser(user: User) returns (ok: bool)
      requires UniqueNames(users)
      modifies this`users, this`nextUser
      ensures ok == !UsernameTaken(old(users), user.username)
      ensures View() == if ok then Insert(old(View()), user) else old(View())
    {
      var taken := UserByUsername(user.username);
      if taken.Some? {
        return false;
      }
      users := users[nextUser := user];
      nextUser := nextUser + 1;
      return true;
    }

    method HandleEnsureAdmin(username: string, password: Bytes, hash: string)
      requires UniqueNames(users)
      modifies this
      ensures View() == AfterEnsureAdmin(old(View()), username, password, hash)
    {
      if |users| > 0 {
        return;
      }
      if TrimSpace(username) == "" || |password| == 0 {
        return;
      }
      var valid := ValidateUsername(username);
      if !valid || |password| < 8 || |password| > 72 {
        return;
      }
      var ok := InsertUser(User(TrimSpace(username), hash, "admin"));
    }

    method HandleLogin(username: string, password: Bytes, token: string, now: nat) returns (user: Option<int>)
      requires UniqueNames(users)
      modifies this`sessions
      ensures View() == AfterLogin(env, old(View()), username, password, token, now)
      ensures user.Some? <==> LoginAccepted(env, old(View()), username, password, token, now)
      ensures user.Some? ==> user == FindUser(old(users), TrimSpace(username))
    {
      sessions := map h | h in sessions && Less(env.stamp(now), sessions[h].expiresAt) :: sessions[h];
      assert sessions == Unexpired(env, old(sessions), now);
      user := UserByUsername(TrimSpace(username));
      if user.None? || !env.matches(users[user.value].passwordHash, password) {
        return None;
      }
      if env.tokenHash(token) in sessions {
        return None;
      }
      sessions := sessions[env.tokenHash(token) := Session(user.value, env.stamp(now + SESSION_LIFE))];
    }

    method HandleLogout(token: string)
      modifies this`sessions
      ensures View() == AfterLogout(env, old(View()), token)
    {
      if token == "" {
        return;
      }
      sessions := sessions - {env.tokenHash(token)};
    }

    method HandleCreate(username: string, password: Bytes, role: string, hash: string)
      requires UniqueNames(users)
      modifies this
      ensures View() == AfterCreate(old(View()), username, password, role, hash)
    {
      var name := TrimSpace(username);
      var normalRole := if role == "" then "admin" else role;
      normalRole := TrimSpace(normalRole);
      assert TrimSpace("admin") == "admin" by {
        TrimSpaceFixpoint("admin");
      }
      var valid := ValidateUsername(name);
      if !valid || normalRole != "admin" || |password| == 0 || |password| < 8 || |password| > 72 {
        return;
      }
      var ok := InsertUser(User(name, hash, normalRole));
    }

    method HandleUpdate(id: int, username: string, password: Bytes, role: string, hash: string, revokeFails: bool)
      requires UniqueNames(users)
      modifies this`users, this`sessions
      ensures View() == AfterUpdate(old(View()), id, username, password, role, hash, revokeFails)
    {
      var name := TrimSpace(username);
      var normalRole := if role == "" then "admin" else role;
      normalRole := TrimSpace(normalRole);
      assert TrimSpace("admin") == "admin" by {
        TrimSpaceFixpoint("admin");
      }
      var valid := ValidateUsername(name);
      if !valid || normalRole != "admin" {
        return;
      }
      if password != [] && (|password| < 8 || |password| > 72) {
        return;
      }
      if id in users {
        var taken := UserByUsername(name);
        if taken.Some? && taken.value != id {
          return;
        }
        users := users[id := User(name, if password == [] then users[id].passwordHash else hash, normalRole)];
      }
      if password != [] && !revokeFails {
        sessions := map h | h in sessions && sessions[h].userId != id :: sessions[h];
      }
    }

    method HandleDelete(current: Option<int>, id: int, cascade: bool)
      modifies this`users, this`sessions
      ensures View() == AfterDelete(old(View()), current, id, cascade)
    {
      if current == Some(id) || |users| <= 1 {
        return;
      }
      if cascade && id in users {
        sessions := map h | h in sessions && sessions[h].userId != id :: sessions[h];
      }
      users := users - {id};
    }

    method Authenticate(token: string, now: nat) returns (r: Option<(int, User)>)
      ensures r == UserBySession(env, Tables(users, sessions, nextUser), token, now)
    {
      var h := env.tokenHash(token);
      if h !in sessions {
        return None;
      }
      var s := sessions[h];
      if s.userId in users && Less(env.stamp(now), s.expiresAt) {
        return Some((s.userId, users[s.userId]));
      }
      return None;
    }
  }
}
