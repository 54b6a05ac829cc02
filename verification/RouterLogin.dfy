/**
  The login fallback of a router session (tplink.go, session.login, loginBE550, loginSG,
  prepareSGLogin and finishSGLogin) against arbitrary router replies: first the plain RSA form, then
  the encrypted form for up to three user names, then two legacy forms.
 */
module RouterLogin {
  import opened Basics
  import opened Strings

  // What the finder functions extract from one response body. The finders search the whole
  // tree, so nothing is assumed about how their answers relate.
  datatype Reply =
    | NoReply
    | Reply(
        passwordKeys: seq<string>,      // findStringList "password"
        authKeys: seq<string>,          // findStringList "key"
        sequence: Option<int>,          // findFloat "seq"
        certifications: seq<string>,    // findStringList "certification"
        success: bool,                  // findBool "success"
        rejected: bool,                 // a non-zero error code, which only post looks at
        stok: string,                   // findString "stok", then the path data.stok
        legacyStok: string,             // findString "stok", then "token"
        pathStok: string,               // the path data.stok
        payload: string)                // findString "data"

  // The decrypted body of an encrypted login response.
  datatype Inner = Inner(success: bool, stok: string, pathStok: string)

  datatype Request =
    | ReadKeys
    | PlainLogin(password: string)
    | ReadConfig
    | ReadAuth
    | SgLogin(secrets: Secrets, password: string)
    | LegacyJson
    | LegacyForm

  // The session fields an encrypted login is signed and encrypted with.
  datatype Secrets = Secrets(aesKey: string, aesIV: string, hash: string, sequence: int, rsaN: string, rsaE: string)

  // Everything outside the session: the k-th reply, the randomness drawn when k requests have been
  // sent, and the cryptographic functions, any of which may fail.
  datatype World = World(
    reply: nat -> Reply,
    digits: (nat, bool) -> string,
    digest: string -> string,
    rsaSeal: (nat, string, string, string) -> Option<string>,
    sign: (nat, Secrets) -> Option<string>,
    open: (Secrets, string) -> Option<Inner>)

  const CERTIFICATION := "SG CLS L1 STAGE2"

  function Usernames(username: string): (names: seq<string>)
    ensures 2 <= |names| <= 3 && names[0] == "admin" && names[|names| - 1] == ""
    ensures TrimSpace(username) in names
    ensures forall i, j :: 0 <= i < j < |names| ==> names[i] != names[j]
  {
    var trimmed := TrimSpace(username);
    if trimmed != "" && trimmed != "admin" then ["admin", trimmed, ""] else ["admin", ""]
  }

  // The two forms of the password an encrypted login is tried with, for one user name.
  datatype Form = Sealed(name: string) | Plain(name: string)

  // For each name in order, first the sealed form, then the plain one.
  ghost function Forms(names: seq<string>): seq<Form> {
    if names == [] then [] else [Sealed(names[0])] + ([Plain(names[0])] + Forms(names[1..]))
  }

  lemma {:induction false} FormsInOrder(names: seq<string>, i: nat)
    requires i < |names|
    ensures |Forms(names)| == 2 * |names|
    ensures Forms(names)[2 * i] == Sealed(names[i]) && Forms(names)[2 * i + 1] == Plain(names[i])
  {
    if |names| > 1 {
      FormsInOrder(names[1..], if i > 0 then i - 1 else 0);
    } else {
      assert Forms(names[1..]) == [];
    }
  }

  // ----- Trying several forms, one after the other until one is let in. -----

  // What trying a form after so many requests comes to: whether it is let in, and the requests it takes.
  type Trial = (nat, Form) -> (bool, seq<Request>)

  function Tries(trial: Trial, k: nat, forms: seq<Form>): (bool, seq<Request>)
    decreases |forms|
  {
    if forms == [] then (false, [])
    else
      var first := trial(k, forms[0]);
      if first.0 then first
      else
        var rest := Tries(trial, k + |first.1|, forms[1..]);
        (rest.0, first.1 + rest.1)
  }

  lemma FirstTry(trial: Trial, k: nat, form: Form, more: seq<Form>)
    ensures var first := trial(k, form);
      var rest := Tries(trial, k + |first.1|, more);
      Tries(trial, k, [form] + more) == if first.0 then first else (rest.0, first.1 + rest.1)
  {
    assert ([form] + more)[1..] == more;
  }

  // What the requests sent so far and those still to come amount to, whichever forms were tried already.
  predicate Leads(trial: Trial, sofar: seq<Request>, forms: seq<Form>, goal: (bool, seq<Request>)) {
    Tries(trial, |sofar|, forms).0 == goal.0 && sofar + Tries(trial, |sofar|, forms).1 == goal.1
  }

  lemma TryLeads(trial: Trial, sofar: seq<Request>, form: Form, more: seq<Form>, goal: (bool, seq<Request>))
    requires Leads(trial, sofar, [form] + more, goal)
    ensures var first := trial(|sofar|, form);
      if first.0 then goal == (true, sofar + first.1) else Leads(trial, sofar + first.1, more, goal)
  {
    FirstTry(trial, |sofar|, form, more);
    var first := trial(|sofar|, form).1;
    var rest := Tries(trial, |sofar| + |first|, more).1;
    assert sofar + (first + rest) == (sofar + first) + rest;
  }

  lemma {:induction false} TriesBounded(trial: Trial, k: nat, forms: seq<Form>)
    requires forall q, form :: |trial(q, form).1| <= 2
    ensures |Tries(trial, k, forms).1| <= 2 * |forms|
    decreases |forms|
  {
    if forms != [] { TriesBounded(trial, k + |trial(k, forms[0]).1|, forms[1..]); }
  }

  // Every request belongs to one of the trials, which starts after those before it.
  lemma {:induction false} TriesMadeOf(trial: Trial, k: nat, forms: seq<Form>, i: nat) returns (d: nat, form: Form)
    requires i < |Tries(trial, k, forms).1|
    ensures var rs, own := Tries(trial, k, forms).1, trial(k + d, form).1;
      form in forms && d <= i < d + |own| <= |rs| && rs[d..d + |own|] == own
    decreases |forms|
  {
    var first := trial(k, forms[0]);
    var rs := Tries(trial, k, forms).1;
    if i < |first.1| {
      d, form := 0, forms[0];
      assert rs[..|first.1|] == first.1;
    } else {
      var n := |first.1|;
      var e, later := TriesMadeOf(trial, k + n, forms[1..], i - n);
      d, form := n + e, later;
      var own := trial(k + d, form).1;
      assert rs[d..d + |own|] == rs[n..][e..e + |own|];
    }
  }

  // If each trial fails after two requests, every form is tried, in order.
  lemma {:induction false} AllTried(trial: Trial, k: nat, forms: seq<Form>, i: nat)
    requires forall q, form :: q >= k ==> !trial(q, form).0 && |trial(q, form).1| == 2
    requires i < |forms|
    ensures |Tries(trial, k, forms).1| == 2 * |forms|
    ensures Tries(trial, k, forms).1[2 * i..2 * i + 2] == trial(k + 2 * i, forms[i]).1
    decreases |forms|
  {
    var first, rest := trial(k, forms[0]).1, Tries(trial, k + 2, forms[1..]).1;
    if |forms| > 1 {
      AllTried(trial, k + 2, forms[1..], if i > 0 then i - 1 else 0);
    } else {
      assert rest == [];
    }
    TwoAt(first, rest, i);
    if i > 0 { assert k + 2 + 2 * (i - 1) == k + 2 * i && forms[1..][i - 1] == forms[i]; }
  }

  lemma TwoAt(first: seq<Request>, rest: seq<Request>, i: nat)
    requires |first| == 2 && 2 * i <= |rest|
    ensures (first + rest)[2 * i..2 * i + 2] == if i == 0 then first else rest[2 * (i - 1)..2 * (i - 1) + 2]
  {
  }

  // What is done in what order: the plain login, then the encrypted one, then the two legacy forms.
  function Rank(r: Request): Option<nat> {
    match r
    case ReadKeys => None
    case PlainLogin(_) => Some(0)
    case ReadConfig => Some(1)
    case ReadAuth => Some(2)
    case SgLogin(_, _) => Some(2)
    case LegacyJson => Some(3)
    case LegacyForm => Some(4)
  }

  predicate RankedBetween(rs: seq<Request>, low: nat, high: nat) {
    forall i :: 0 <= i < |rs| && Rank(rs[i]).Some? ==> low <= Rank(rs[i]).value <= high
  }

  predicate InRankOrder(rs: seq<Request>) {
    forall i, j :: 0 <= i < j < |rs| && Rank(rs[i]).Some? && Rank(rs[j]).Some?
      ==> Rank(rs[i]).value <= Rank(rs[j]).value
  }

  lemma RankOrderConcat(a: seq<Request>, b: seq<Request>, low: nat, mid: nat, high: nat)
    requires InRankOrder(a) && InRankOrder(b) && low <= mid <= high
    requires RankedBetween(a, low, mid) && RankedBetween(b, mid, high)
    ensures InRankOrder(a + b) && RankedBetween(a + b, low, high)
  {
  }

  // What one protocol comes to, or else the next one.
  function OrElse(first: (bool, seq<Request>), second: (bool, seq<Request>)): (bool, seq<Request>) {
    if first.0 then first else (second.0, first.1 + second.1)
  }

  lemma ThreeRanked(plain: (bool, seq<Request>), sg: (bool, seq<Request>), legacy: (bool, seq<Request>))
    requires InRankOrder(plain.1) && RankedBetween(plain.1, 0, 1) && InRankOrder(sg.1) && RankedBetween(sg.1, 1, 2)
    requires InRankOrder(legacy.1) && RankedBetween(legacy.1, 3, 4)
    ensures InRankOrder(OrElse(plain, OrElse(sg, legacy)).1)
  {
    RankOrderConcat(sg.1, legacy.1, 1, 3, 4);
    RankOrderConcat(plain.1, sg.1, 0, 1, 3);
    RankOrderConcat(plain.1, sg.1 + legacy.1, 0, 1, 4);
  }

  class Session {
    const world: World
    const username: string
    const password: string
    var stok: string
    var authMode: string
    var secrets: Secrets
    var replaceHash: bool
    var sent: seq<Request>

    constructor (world: World, username: string, password: string)
      ensures this.world == world && this.username == username && this.password == password
      ensures Clean() && sent == []
    {
      this.world, this.username, this.password := world, username, password;
      stok, authMode, secrets, replaceHash, sent := "", "", Secrets("", "", "", 0, "", ""), false, [];
    }

    // Neither a token nor a mode: the state every protocol must start from.
    ghost predicate Clean()
      reads this
    {
      stok == "" && authMode == ""
    }

    ghost function LastReply(): Reply
      requires sent != []
      reads this
    {
      world.reply(|sent| - 1)
    }

    method Post(request: Request) returns (r: Reply)
      modifies this`sent
      ensures sent == old(sent) + [request] && r == LastReply()
    {
      r := world.reply(|sent|);
      sent := sent + [request];
    }

    // The password sealed with the keys of the k-th reply, if those keys and the sealing are usable.
    ghost function SealedPassword(k: nat): Option<string> {
      if world.reply(k).Reply? && |world.reply(k).passwordKeys| >= 2
      then world.rsaSeal(k + 1, password, world.reply(k).passwordKeys[0], world.reply(k).passwordKeys[1])
      else None
    }

    // The token a plain login is granted.
    ghost function PlainToken(r: Reply): string { if r.Reply? && r.success then r.stok else "" }

    ghost function PlainRequests(k: nat): (rs: seq<Request>)
      ensures 1 <= |rs| <= 2
    {
      if SealedPassword(k).Some? then [ReadKeys, PlainLogin(SealedPassword(k).value)] else [ReadKeys]
    }

    // Whether the plain login started after k requests succeeds, and the requests it sends.
    ghost function PlainOutcome(k: nat): (bool, seq<Request>) {
      (SealedPassword(k).Some? && PlainToken(world.reply(k + 1)) != "", PlainRequests(k))
    }

    // The session holds the token the last reply grants, under the mode of the protocol of the last request.
    ghost predicate Granted()
      reads this
    {
      && stok != "" && sent != []
      && match sent[|sent| - 1]
         case PlainLogin(_) => authMode == "be550" && stok == PlainToken(LastReply())
         case SgLogin(_, _) => authMode == "sg" && Coherent() && stok == SealedToken(LastReply(), secrets)
         case LegacyJson => authMode == "" && stok == LegacyToken(LastReply())
         case LegacyForm => authMode == "" && stok == LegacyToken(LastReply())
         case _ => false
    }

    method LoginBE550() returns (ok: bool)
      requires Clean()
      modifies this
      ensures ok == PlainOutcome(|old(sent)|).0
      ensures sent == old(sent) + PlainOutcome(|old(sent)|).1
      ensures ok ==> Granted()
      ensures !ok ==> Clean()
      ensures secrets == old(secrets)
    {
      var keys := Post(ReadKeys);
      if keys.NoReply? || |keys.passwordKeys| < 2 {
        return false;
      }
      var encrypted := world.rsaSeal(|sent|, password, keys.passwordKeys[0], keys.passwordKeys[1]);
      if encrypted.None? {
        return false;
      }
      var response := Post(PlainLogin(encrypted.value));
      if response.NoReply? || !response.success {
        return false;
      }
      stok := response.stok;
      if stok == "" {
        return false;
      }
      authMode := "be550";
      return true;
    }

    method DetectCertification()
      modifies this`sent, this`replaceHash
      ensures sent == old(sent) + [ReadConfig]
      ensures replaceHash
        <==> LastReply().NoReply? || LastReply().certifications == [] || CERTIFICATION in LastReply().certifications
    {
      replaceHash := true;
      var data := Post(ReadConfig);
      if data.NoReply? || |data.certifications| == 0 {
        return;
      }
      replaceHash := CERTIFICATION in data.certifications;
    }

    // The secrets one ReadAuth exchange leads to, drawn when `k` requests had been sent before it.
    ghost function PreparedSecrets(k: nat, name: string): Secrets
      requires world.reply(k).Reply? && |world.reply(k).authKeys| >= 2 && world.reply(k).sequence.Some?
    {
      var r := world.reply(k);
      Secrets(world.digits(k + 1, false), world.digits(k + 1, true), world.digest(name + password),
              r.sequence.value, r.authKeys[0], r.authKeys[1])
    }

    method PrepareSGLogin(name: string) returns (ok: bool)
      modifies this`sent, this`secrets
      ensures sent == old(sent) + [ReadAuth]
      ensures ok <==> LastReply().Reply? && |LastReply().authKeys| >= 2 && LastReply().sequence.Some?
      ensures secrets == if ok then PreparedSecrets(|old(sent)|, name) else old(secrets)
    {
      var auth := Post(ReadAuth);
      if auth.NoReply? || |auth.authKeys| < 2 || auth.sequence.None? {
        return false;
      }
      secrets := Secrets(world.digits(|sent|, false), world.digits(|sent|, true), world.digest(name + password),
                         auth.sequence.value, auth.authKeys[0], auth.authKeys[1]);
      return true;
    }

    // The token an encrypted login is granted: in the clear when the router sends no payload, and
    // otherwise only inside what these secrets open.
    ghost function SealedToken(r: Reply, s: Secrets): string {
      if r.NoReply? then ""
      else if r.payload == "" then (if r.success then r.stok else "")
      else
        match world.open(s, r.payload)
        case None => ""
        case Some(inner) => if !inner.success then "" else if inner.stok != "" then inner.stok else inner.pathStok
    }

    method FinishSGLogin(passwordValue: string) returns (ok: bool)
      requires Clean()
      modifies this`sent, this`stok, this`authMode
      ensures sent == old(sent)
                      + if world.sign(|old(sent)|, secrets).Some? then [SgLogin(secrets, passwordValue)] else []
      ensures ok <==> world.sign(|old(sent)|, secrets).Some? && SealedToken(LastReply(), secrets) != ""
      ensures ok ==> stok == SealedToken(LastReply(), secrets) && authMode == "sg"
      ensures !ok ==> Clean()
    {
      var signature := world.sign(|sent|, secrets);
      if signature.None? {
        return false;
      }
      var response := Post(SgLogin(secrets, passwordValue));
      if response.NoReply? {
        return false;
      }
      if response.payload == "" {
        if response.success && response.stok != "" {
          stok := response.stok;
          authMode := "sg";
          return true;
        }
        return false;
      }
      var inner := world.open(secrets, response.payload);
      if inner.None? || !inner.value.success {
        return false;
      }
      stok := inner.value.stok;
      if stok == "" {
        stok := inner.value.pathStok;
      }
      if stok == "" {
        return false;
      }
      authMode := "sg";
      return true;
    }

    // The last two requests are one authentication exchange and the login built from it:
    // key, IV, hash, sequence and RSA key all come from that one exchange, for one of the names tried.
    ghost predicate Coherent()
      reads this
    {
      var k := |sent| - 2;
      && k >= 0 && sent[k] == ReadAuth && sent[k + 1].SgLogin? && sent[k + 1].secrets == secrets
      && world.reply(k).Reply? && |world.reply(k).authKeys| >= 2 && world.reply(k).sequence.Some?
      && exists name :: name in Usernames(username) && secrets == PreparedSecrets(k, name)
    }

    // Whether one prepare and finish after k requests succeeds, and the requests it sends.
    ghost function Once(k: nat, name: string, passwordValue: string): (bool, seq<Request>) {
      var auth := world.reply(k);
      if auth.NoReply? || |auth.authKeys| < 2 || auth.sequence.None? then (false, [ReadAuth])
      else
        var s := PreparedSecrets(k, name);
        if world.sign(k + 1, s).None? then (false, [ReadAuth])
        else (SealedToken(world.reply(k + 1), s) != "", [ReadAuth, SgLogin(s, passwordValue)])
    }

    // The password in that form, if it is to be had after k requests.
    ghost function PasswordIn(k: nat, form: Form, passwordKeys: seq<string>): Option<string> {
      match form
      case Plain(_) => Some(password)
      case Sealed(_) =>
        if |passwordKeys| >= 2 then world.rsaSeal(k, password, passwordKeys[0], passwordKeys[1]) else None
    }

    // One form tried after k requests; nothing is sent if the password is not to be had in it.
    ghost function Attempt(k: nat, form: Form, passwordKeys: seq<string>): (bool, seq<Request>) {
      var value := PasswordIn(k, form, passwordKeys);
      if value.None? then (false, []) else Once(k, form.name, value.value)
    }

    ghost function Trying(passwordKeys: seq<string>): Trial {
      (k: nat, form: Form) => Attempt(k, form, passwordKeys)
    }

    // One prepare and finish for one user name and one form of the password.
    method TryOnce(name: string, passwordValue: string) returns (ok: bool)
      requires Clean() && name in Usernames(username)
      modifies this`sent, this`secrets, this`stok, this`authMode
      ensures ok == Once(|old(sent)|, name, passwordValue).0
      ensures sent == old(sent) + Once(|old(sent)|, name, passwordValue).1
      ensures ok ==> Granted()
      ensures !ok ==> Clean()
    {
      var prepared := PrepareSGLogin(name);
      if !prepared {
        return false;
      }
      ok := FinishSGLogin(passwordValue);
    }

    function PasswordKeys(r: Reply): seq<string> { if r.Reply? then r.passwordKeys else [] }

    ghost function SgOutcome(k: nat): (bool, seq<Request>) {
      var tries := Tries(Trying(PasswordKeys(world.reply(k + 1))), k + 2, Forms(Usernames(username)));
      (tries.0, [ReadConfig, ReadKeys] + tries.1)
    }

    // Both forms of the password for one name.
    method TryName(name: string, passwordKeys: seq<string>, ghost more: seq<Form>, ghost goal: (bool, seq<Request>))
      returns (ok: bool)
      requires Clean() && name in Usernames(username)
      requires Leads(Trying(passwordKeys), sent, [Sealed(name)] + ([Plain(name)] + more), goal)
      modifies this`sent, this`secrets, this`stok, this`authMode
      ensures if ok then goal == (true, sent) && Granted()
              else Clean() && Leads(Trying(passwordKeys), sent, more, goal)
    {
      ghost var trial := Trying(passwordKeys);
      TryLeads(trial, sent, Sealed(name), [Plain(name)] + more, goal);
      assert sent + [] == sent;
      if |passwordKeys| >= 2 {
        var encrypted := world.rsaSeal(|sent|, password, passwordKeys[0], passwordKeys[1]);
        if encrypted.Some? {
          ok := TryOnce(name, encrypted.value);
          if ok {
            return;
          }
        }
      }
      TryLeads(trial, sent, Plain(name), more, goal);
      ok := TryOnce(name, password);
    }

    lemma NothingLeft(trial: Trial, sofar: seq<Request>, goal: (bool, seq<Request>))
      requires Leads(trial, sofar, [], goal)
      ensures goal == (false, sofar)
    {
      assert sofar + [] == sofar;
    }

    lemma AllLeft(before: seq<Request>)
      ensures Leads(Trying(PasswordKeys(world.reply(|before| + 1))), before + [ReadConfig] + [ReadKeys],
                    Forms(Usernames(username)), (SgOutcome(|before|).0, before + SgOutcome(|before|).1))
    {
      var trial := Trying(PasswordKeys(world.reply(|before| + 1)));
      var tries := Tries(trial, |before| + 2, Forms(Usernames(username)));
      assert before + [ReadConfig] + [ReadKeys] + tries.1 == before + ([ReadConfig, ReadKeys] + tries.1);
    }

    // After the configuration and the password keys, every name is tried in order until one is let in, with the
    // sealed password first if there is one.
    method LoginSG() returns (ok: bool)
      requires Clean()
      modifies this
      ensures ok == SgOutcome(|old(sent)|).0
      ensures sent == old(sent) + SgOutcome(|old(sent)|).1
      ensures ok ==> Granted()
      ensures !ok ==> Clean()
    {
      DetectCertification();
      var keys := Post(ReadKeys);
      var passwordKeys := PasswordKeys(keys);
      var names := Usernames(username);
      ghost var goal := (SgOutcome(|old(sent)|).0, old(sent) + SgOutcome(|old(sent)|).1);
      AllLeft(old(sent));
      assert names[0..] == names;
      for i := 0 to |names|
        invariant Clean()
        invariant Leads(Trying(passwordKeys), sent, Forms(names[i..]), goal)
      {
        assert names[i..][0] == names[i] && names[i..][1..] == names[i + 1..];
        ok := TryName(names[i], passwordKeys, Forms(names[i + 1..]), goal);
        if ok {
          return;
        }
      }
      assert names[|names|..] == [];
      NothingLeft(Trying(passwordKeys), sent, goal);
      return false;
    }

    predicate Refused(r: Reply) { r.NoReply? || r.rejected }

    ghost function LegacyToken(r: Reply): string {
      if Refused(r) then "" else if r.legacyStok != "" then r.legacyStok else r.pathStok
    }

    ghost function LegacyRequests(k: nat): (rs: seq<Request>)
      ensures 1 <= |rs| <= 2
    {
      if Refused(world.reply(k)) then [LegacyJson, LegacyForm] else [LegacyJson]
    }

    ghost function LegacyOutcome(k: nat): (bool, seq<Request>) {
      (LegacyToken(world.reply(k + |LegacyRequests(k)| - 1)) != "", LegacyRequests(k))
    }

    // The second form is sent exactly if the first is refused.
    method LoginLegacy() returns (ok: bool)
      requires Clean()
      modifies this`sent, this`stok
      ensures ok == LegacyOutcome(|old(sent)|).0
      ensures sent == old(sent) + LegacyOutcome(|old(sent)|).1
      ensures ok ==> Granted()
      ensures !ok ==> Clean()
    {
      var data := Post(LegacyJson);
      if Refused(data) {
        data := Post(LegacyForm);
        if Refused(data) {
          return false;
        }
      }
      stok := data.legacyStok;
      if stok == "" {
        stok := data.pathStok;
      }
      ok := stok != "";
    }

    // Whether a login that starts after k requests succeeds, and the requests it sends: the three protocols in their
    // order, each where the one before it failed.
    ghost function Outcome(k: nat): (bool, seq<Request>) {
      var plain := PlainOutcome(k);
      var sg := SgOutcome(k + |plain.1|);
      var legacy := LegacyOutcome(k + |plain.1| + |sg.1|);
      OrElse(plain, OrElse(sg, legacy))
    }

    // What is sent when the second protocol ends the login, and when the third does.
    lemma SgEnds(before: seq<Request>, after: seq<Request>)
      requires !PlainOutcome(|before|).0 && after == before + PlainOutcome(|before|).1 && SgOutcome(|after|).0
      ensures Outcome(|before|).0 && before + Outcome(|before|).1 == after + SgOutcome(|after|).1
    {
      assert before + (PlainOutcome(|before|).1 + SgOutcome(|after|).1) == after + SgOutcome(|after|).1;
    }

    lemma LegacyEnds(before: seq<Request>, after: seq<Request>, last: seq<Request>)
      requires !PlainOutcome(|before|).0 && after == before + PlainOutcome(|before|).1
      requires !SgOutcome(|after|).0 && last == after + SgOutcome(|after|).1
      ensures Outcome(|before|).0 == LegacyOutcome(|last|).0
      ensures before + Outcome(|before|).1 == last + LegacyOutcome(|last|).1
    {
      var plain, sg, legacy := PlainOutcome(|before|).1, SgOutcome(|after|).1, LegacyOutcome(|last|).1;
      assert before + (plain + (sg + legacy)) == last + legacy;
    }

    lemma {:induction false} FormsLength(names: seq<string>)
      ensures |Forms(names)| == 2 * |names|
    {
      if names != [] { FormsLength(names[1..]); }
    }

    lemma SgBounded(k: nat)
      ensures 2 <= |SgOutcome(k).1| <= 14
    {
      TriesBounded(Trying(PasswordKeys(world.reply(k + 1))), k + 2, Forms(Usernames(username)));
      FormsLength(Usernames(username));
    }

    // Success, exactly when one of the protocols succeeds, means the token the last reply grants and the mode
    // of the protocol of the last request; failure leaves neither. An encrypted session is coherent, and at
    // most eighteen requests are sent.
    method Login() returns (ok: bool)
      requires Clean()
      modifies this
      ensures ok == Outcome(|old(sent)|).0
      ensures sent == old(sent) + Outcome(|old(sent)|).1
      ensures ok ==> Granted()
      ensures !ok ==> Clean()
      ensures old(sent) < sent && |sent| <= |old(sent)| + 18
    {
      ok := LoginBE550();
      if ok {
        return;
      }
      ghost var after := sent;
      ok := LoginSG();
      SgBounded(|after|);
      if ok {
        SgEnds(old(sent), after);
        return;
      }
      LegacyEnds(old(sent), after, sent);
      ok := LoginLegacy();
    }

    // ----- What the requests of a login are. -----

    // A sealing of the password with these keys, drawn after some number of requests.
    ghost predicate IsSealing(value: string, keys: seq<string>) {
      |keys| >= 2 && exists q: nat :: world.rsaSeal(q, password, keys[0], keys[1]) == Some(value)
    }

    // What the encrypted login says about the request at i, after k others: it reads the keys of one exchange, or it is
    // the login built from the exchange just before it, for one of the names, with the password or a sealing of it.
    ghost predicate FromExchange(k: nat, names: seq<string>, keys: seq<string>, rs: seq<Request>, i: nat)
      requires i < |rs|
    {
      rs[i] == ReadAuth
      || (rs[i].SgLogin? && i > 0 && rs[i - 1] == ReadAuth
          && (rs[i].password == password || IsSealing(rs[i].password, keys))
          && var r, s := world.reply(k + i - 1), rs[i].secrets;
             && r.Reply? && |r.authKeys| >= 2 && r.sequence == Some(s.sequence)
             && s.rsaN == r.authKeys[0] && s.rsaE == r.authKeys[1]
             && exists name :: name in names && s.hash == world.digest(name + password))
    }

    lemma AttemptFromExchange(k: nat, form: Form, names: seq<string>, keys: seq<string>, i: nat)
      requires form.name in names && i < |Attempt(k, form, keys).1|
      ensures FromExchange(k, names, keys, Attempt(k, form, keys).1, i)
    {
    }

    lemma PartFromExchange(k: nat, names: seq<string>, keys: seq<string>, part: seq<Request>, rs: seq<Request>,
                           d: nat, i: nat)
      requires d + |part| <= |rs| && rs[d..d + |part|] == part
      requires i < |part| && FromExchange(k + d, names, keys, part, i)
      ensures FromExchange(k, names, keys, rs, d + i)
    {
      assert rs[d + i] == part[i];
      if i > 0 { assert rs[d + i - 1] == part[i - 1]; }
    }

    lemma {:induction false} FormsOfNames(names: seq<string>)
      ensures forall form :: form in Forms(names) ==> form.name in names
    {
      if names != [] { FormsOfNames(names[1..]); }
    }

    lemma TriesFromExchange(k: nat, names: seq<string>, keys: seq<string>, rs: seq<Request>, i: nat)
      requires rs == Tries(Trying(keys), k, Forms(names)).1 && i < |rs|
      ensures FromExchange(k, names, keys, rs, i)
    {
      var d, form := TriesMadeOf(Trying(keys), k, Forms(names), i);
      FormsOfNames(names);
      AttemptFromExchange(k + d, form, names, keys, i - d);
      PartFromExchange(k, names, keys, Attempt(k + d, form, keys).1, rs, d, i - d);
    }

    lemma AfterKeys(k: nat, names: seq<string>, keys: seq<string>, rs: seq<Request>, i: nat)
      requires i < |rs| && FromExchange(k + 2, names, keys, rs, i)
      ensures FromExchange(k, names, keys, [ReadConfig, ReadKeys] + rs, 2 + i)
    {
      assert ([ReadConfig, ReadKeys] + rs)[2..2 + |rs|] == rs;
      PartFromExchange(k, names, keys, rs, [ReadConfig, ReadKeys] + rs, 2, i);
    }

    // Every request an encrypted login makes after its first two reads the keys of an exchange, or is the login built
    // from the exchange just before it; what it carries is the password, or a sealing of it with the keys just read.
    lemma SgRequests(k: nat, i: nat)
      requires i < |SgOutcome(k).1|
      ensures var rs := SgOutcome(k).1;
        if i == 0 then rs[i] == ReadConfig
        else if i == 1 then rs[i] == ReadKeys
        else FromExchange(k, Usernames(username), PasswordKeys(world.reply(k + 1)), rs, i)
    {
      var names, keys := Usernames(username), PasswordKeys(world.reply(k + 1));
      if i >= 2 {
        var rs := Tries(Trying(keys), k + 2, Forms(names)).1;
        TriesFromExchange(k + 2, names, keys, rs, i - 2);
        AfterKeys(k, names, keys, rs, i - 2);
      }
    }

    // A router that answers every exchange, but never with a token.
    ghost predicate Unyielding(k: nat, keys: seq<string>) {
      && |keys| >= 2
      && (forall q: nat :: q >= k ==> world.rsaSeal(q, password, keys[0], keys[1]).Some?)
      && (forall q: nat :: q >= k ==> Answers(q))
    }

    ghost predicate Answers(q: nat) {
      && world.reply(q).Reply? && |world.reply(q).authKeys| >= 2 && world.reply(q).sequence.Some?
      && forall s :: world.sign(q, s).Some? && SealedToken(world.reply(q), s) == ""
    }

    lemma AttemptRefused(k: nat, form: Form, keys: seq<string>)
      requires Answers(k) && Answers(k + 1) && PasswordIn(k, form, keys).Some?
      ensures Attempt(k, form, keys)
        == (false, [ReadAuth, SgLogin(PreparedSecrets(k, form.name), PasswordIn(k, form, keys).value)])
    {
    }

    lemma AttemptsRefused(k: nat, keys: seq<string>)
      requires Unyielding(k, keys)
      ensures forall q: nat, form :: q >= k ==> !Trying(keys)(q, form).0 && |Trying(keys)(q, form).1| == 2
    {
      forall q: nat, form | q >= k ensures !Trying(keys)(q, form).0 && |Trying(keys)(q, form).1| == 2 {
        assert Answers(q) && Answers(q + 1);
        AttemptRefused(q, form, keys);
      }
    }

    lemma FormTried(k: nat, keys: seq<string>, forms: seq<Form>, i: nat)
      requires Unyielding(k, keys) && i < |forms|
      ensures var rs, q := Tries(Trying(keys), k, forms).1, k + 2 * i;
        && |rs| == 2 * |forms| && Answers(q) && PasswordIn(q, forms[i], keys).Some?
        && rs[2 * i..2 * i + 2]
           == [ReadAuth, SgLogin(PreparedSecrets(q, forms[i].name), PasswordIn(q, forms[i], keys).value)]
    {
      var q := k + 2 * i;
      AttemptsRefused(k, keys);
      AllTried(Trying(keys), k, forms, i);
      assert Answers(q) && Answers(q + 1);
      AttemptRefused(q, forms[i], keys);
    }

    lemma SealedTried(k: nat, keys: seq<string>, forms: seq<Form>, name: string, i: nat)
      requires Unyielding(k, keys) && 2 * i < |forms| && forms[2 * i] == Sealed(name)
      ensures var rs, q := Tries(Trying(keys), k, forms).1, k + 4 * i;
        && |rs| == 2 * |forms| && Answers(q)
        && rs[4 * i..4 * i + 2]
           == [ReadAuth, SgLogin(PreparedSecrets(q, name), world.rsaSeal(q, password, keys[0], keys[1]).value)]
    {
      FormTried(k, keys, forms, 2 * i);
    }

    lemma PlainTried(k: nat, keys: seq<string>, forms: seq<Form>, name: string, i: nat)
      requires Unyielding(k, keys) && 2 * i + 1 < |forms| && forms[2 * i + 1] == Plain(name)
      ensures var rs, q := Tries(Trying(keys), k, forms).1, k + 4 * i + 2;
        && |rs| == 2 * |forms| && Answers(q)
        && rs[4 * i + 2..4 * i + 4] == [ReadAuth, SgLogin(PreparedSecrets(q, name), password)]
    {
      FormTried(k, keys, forms, 2 * i + 1);
    }

    // To such a router every name is tried in order, each first with the sealed password and then with the plain one,
    // and each time after an exchange of its own.
    lemma EverythingIsTried(k: nat, keys: seq<string>, names: seq<string>, i: nat)
      requires Unyielding(k, keys) && i < |names|
      ensures var rs, q := Tries(Trying(keys), k, Forms(names)).1, k + 4 * i;
        && |rs| == 4 * |names| && Answers(q) && Answers(q + 2)
        && rs[4 * i..4 * i + 2]
           == [ReadAuth, SgLogin(PreparedSecrets(q, names[i]), world.rsaSeal(q, password, keys[0], keys[1]).value)]
        && rs[4 * i + 2..4 * i + 4] == [ReadAuth, SgLogin(PreparedSecrets(q + 2, names[i]), password)]
    {
      FormsInOrder(names, i);
      SealedTried(k, keys, Forms(names), names[i], i);
      PlainTried(k, keys, Forms(names), names[i], i);
    }

    // ----- The order of the protocols. -----

    lemma AttemptRanked(k: nat, form: Form, keys: seq<string>)
      ensures forall i :: 0 <= i < |Attempt(k, form, keys).1| ==> Rank(Attempt(k, form, keys).1[i]) == Some(2)
    {
    }

    lemma TriesRanked(k: nat, forms: seq<Form>, keys: seq<string>, rs: seq<Request>, i: nat)
      requires rs == Tries(Trying(keys), k, forms).1 && i < |rs|
      ensures Rank(rs[i]) == Some(2)
    {
      var d, form := TriesMadeOf(Trying(keys), k, forms, i);
      AttemptRanked(k + d, form, keys);
      var own := Attempt(k + d, form, keys).1;
      assert rs[i] == rs[d..d + |own|][i - d];
    }

    lemma SgRanked(k: nat)
      ensures InRankOrder(SgOutcome(k).1) && RankedBetween(SgOutcome(k).1, 1, 2)
    {
      var forms, keys := Forms(Usernames(username)), PasswordKeys(world.reply(k + 1));
      var rs := Tries(Trying(keys), k + 2, forms).1;
      forall i: nat | i < |rs| ensures Rank(rs[i]) == Some(2) {
        TriesRanked(k + 2, forms, keys, rs, i);
      }
    }

    lemma PlainRanked(k: nat)
      ensures InRankOrder(PlainOutcome(k).1) && RankedBetween(PlainOutcome(k).1, 0, 1)
    {
    }

    lemma LegacyRanked(k: nat)
      ensures InRankOrder(LegacyOutcome(k).1) && RankedBetween(LegacyOutcome(k).1, 3, 4)
    {
    }

    // The plain login comes first, then the encrypted one, then the legacy forms.
    lemma ProtocolsInOrder(k: nat)
      ensures InRankOrder(Outcome(k).1)
    {
      var plain, sg, legacy := OutcomeParts(k);
      ThreeRanked(plain, sg, legacy);
    }

    lemma OutcomeParts(k: nat)
      returns (plain: (bool, seq<Request>), sg: (bool, seq<Request>), legacy: (bool, seq<Request>))
      ensures Outcome(k) == OrElse(plain, OrElse(sg, legacy))
      ensures InRankOrder(plain.1) && RankedBetween(plain.1, 0, 1) && InRankOrder(sg.1) && RankedBetween(sg.1, 1, 2)
      ensures InRankOrder(legacy.1) && RankedBetween(legacy.1, 3, 4)
    {
      plain := PlainOutcome(k);
      sg := SgOutcome(k + |plain.1|);
      legacy := LegacyOutcome(k + |plain.1| + |sg.1|);
      PlainRanked(k);
      SgRanked(k + |plain.1|);
      LegacyRanked(k + |plain.1| + |sg.1|);
    }

    // ----- What a success means. -----

    // The plain login sends nothing but a sealing of the password with the keys just read.
    lemma PlainSendsSealing(k: nat)
      requires |PlainOutcome(k).1| == 2
      ensures var keys := PasswordKeys(world.reply(k));
        PlainOutcome(k).1[1].PlainLogin? && IsSealing(PlainOutcome(k).1[1].password, keys)
    {
    }

    // A session that was granted holds a token the last reply came with: a reply that was there and said success, by
    // itself or inside what the secrets open; to a legacy form, one that was not refused.
    lemma GrantMeansSuccess()
      requires Granted()
      ensures stok != "" && LastReply().Reply?
      ensures authMode == "be550" ==> LastReply().success && stok == LastReply().stok
      ensures authMode == "sg" && LastReply().payload == "" ==> LastReply().success && stok == LastReply().stok
      ensures authMode == "sg" && LastReply().payload != "" ==>
        var inner := world.open(secrets, LastReply().payload);
        && inner.Some? && inner.value.success
        && stok == if inner.value.stok != "" then inner.value.stok else inner.value.pathStok
      ensures authMode == "" ==>
        && !LastReply().rejected
        && stok == if LastReply().legacyStok != "" then LastReply().legacyStok else LastReply().pathStok
      ensures authMode in ["be550", "sg", ""]
    {
    }
  }
}
