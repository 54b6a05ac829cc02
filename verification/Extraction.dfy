/**
  Client extraction from an arbitrary JSON forest (tplink.go, collectObjects, objectToClient,
  mergeClient, ExtractClients and the summary built by probeBaseURL). Go visits the entries of a map
  in an arbitrary order; here that is the arbitrary choice of a key. The theorems say what every
  order agrees on.
 */
module Extraction {
  import opened Basics
  import opened Strings

  datatype Json =
    | Null
    | Bool(b: bool)
    | Num(n: real)
    | Str(s: string)
    | Arr(items: seq<Json>)
    | Obj(fields: Object)

  type Object = map<string, Json>

  // ----- Collecting the objects of a tree. -----

  ghost function Objects(v: Json): multiset<Object>
    decreases v
  {
    match v
    case Obj(fields) => multiset{fields} + FieldObjects(v, fields.Keys)
    case Arr(items) => ItemObjects(v, |items|)
    case _ => multiset{}
  }

  ghost function FieldObjects(v: Json, keys: set<string>): multiset<Object>
    requires v.Obj? && keys <= v.fields.Keys
    decreases v, |keys|
  {
    if keys == {} then multiset{}
    else
      var k :| k in keys;
      Objects(v.fields[k]) + FieldObjects(v, keys - {k})
  }

  ghost function ItemObjects(v: Json, n: nat): multiset<Object>
    requires v.Arr? && n <= |v.items|
    decreases v, n
  {
    if n == 0 then multiset{} else ItemObjects(v, n - 1) + Objects(v.items[n - 1])
  }

  // The objects below a map do not depend on which entry is visited first.
  lemma {:induction false} FieldObjectsPick(v: Json, keys: set<string>, k: string)
    requires v.Obj? && keys <= v.fields.Keys && k in keys
    ensures FieldObjects(v, keys) == Objects(v.fields[k]) + FieldObjects(v, keys - {k})
    decreases |keys|
  {
    var c :| c in keys && FieldObjects(v, keys) == Objects(v.fields[c]) + FieldObjects(v, keys - {c});
    if c != k {
      FieldObjectsPick(v, keys - {c}, k);
      FieldObjectsPick(v, keys - {k}, c);
      assert keys - {c} - {k} == keys - {k} - {c};
    }
  }

  // ----- The orders a walk can visit them in: an object before what is below it, the entries of a
  // map in any order, the items of an array in theirs. -----

  ghost predicate Visits(v: Json, out: seq<Object>)
    decreases v
  {
    match v
    case Obj(fields) => out != [] && out[0] == fields && FieldVisits(v, fields.Keys, out[1..])
    case Arr(items) => ItemVisits(v, |items|, out)
    case _ => out == []
  }

  ghost predicate FieldVisits(v: Json, keys: set<string>, out: seq<Object>)
    requires v.Obj? && keys <= v.fields.Keys
    decreases v, |keys|
  {
    if keys == {} then out == []
    else
      exists k, i ::
        k in keys && 0 <= i <= |out| && Visits(v.fields[k], out[..i]) && FieldVisits(v, keys - {k}, out[i..])
  }

  ghost predicate ItemVisits(v: Json, n: nat, out: seq<Object>)
    requires v.Arr? && n <= |v.items|
    decreases v, n
  {
    if n == 0 then out == []
    else exists i :: 0 <= i <= |out| && ItemVisits(v, n - 1, out[..i]) && Visits(v.items[n - 1], out[i..])
  }

  lemma FieldVisitsCons(v: Json, keys: set<string>, k: string, below: seq<Object>, rest: seq<Object>)
    requires v.Obj? && keys <= v.fields.Keys && k in keys
    requires Visits(v.fields[k], below) && FieldVisits(v, keys - {k}, rest)
    ensures FieldVisits(v, keys, below + rest)
  {
    var out, i := below + rest, |below|;
    assert out[..i] == below && out[i..] == rest;
    assert k in keys && 0 <= i <= |out| && Visits(v.fields[k], out[..i]) && FieldVisits(v, keys - {k}, out[i..]);
  }

  lemma ItemVisitsAppend(v: Json, n: nat, before: seq<Object>, below: seq<Object>)
    requires v.Arr? && n < |v.items| && ItemVisits(v, n, before) && Visits(v.items[n], below)
    ensures ItemVisits(v, n + 1, before + below)
  {
    var out, i := before + below, |before|;
    assert out[..i] == before && out[i..] == below;
  }

  lemma MultisetOfParts(out: seq<Object>, i: nat)
    requires i <= |out|
    ensures multiset(out) == multiset(out[..i]) + multiset(out[i..])
  {
    assert out == out[..i] + out[i..];
  }

  // Every walk collects the same objects, each as often.
  lemma {:induction false} VisitsObjects(v: Json, out: seq<Object>)
    requires Visits(v, out)
    ensures multiset(out) == Objects(v)
    decreases v
  {
    match v
    case Obj(fields) =>
      FieldVisitsObjects(v, fields.Keys, out[1..]);
      MultisetOfParts(out, 1);
      assert out[..1] == [fields];
    case Arr(items) => ItemVisitsObjects(v, |items|, out);
    case _ =>
  }

  lemma {:induction false} FieldVisitsObjects(v: Json, keys: set<string>, out: seq<Object>)
    requires v.Obj? && keys <= v.fields.Keys && FieldVisits(v, keys, out)
    ensures multiset(out) == FieldObjects(v, keys)
    decreases v, |keys|
  {
    if keys != {} {
      var k, i :| k in keys && 0 <= i <= |out| && Visits(v.fields[k], out[..i]) && FieldVisits(v, keys - {k}, out[i..]);
      VisitsObjects(v.fields[k], out[..i]);
      FieldVisitsObjects(v, keys - {k}, out[i..]);
      FieldObjectsPick(v, keys, k);
      MultisetOfParts(out, i);
    }
  }

  lemma {:induction false} ItemVisitsObjects(v: Json, n: nat, out: seq<Object>)
    requires v.Arr? && n <= |v.items| && ItemVisits(v, n, out)
    ensures multiset(out) == ItemObjects(v, n)
    decreases v, n
  {
    if n > 0 {
      var i :| 0 <= i <= |out| && ItemVisits(v, n - 1, out[..i]) && Visits(v.items[n - 1], out[i..]);
      ItemVisitsObjects(v, n - 1, out[..i]);
      VisitsObjects(v.items[n - 1], out[i..]);
      MultisetOfParts(out, i);
    }
  }

  // Whatever visits the remaining entries completes a visit of them all.
  ghost predicate Continues(v: Json, visited: seq<Object>, remaining: set<string>)
    requires v.Obj? && remaining <= v.fields.Keys
  {
    forall rest :: FieldVisits(v, remaining, rest) ==> FieldVisits(v, v.fields.Keys, visited + rest)
  }

  lemma ContinuesFromStart(v: Json)
    requires v.Obj?
    ensures Continues(v, [], v.fields.Keys)
  {
    forall rest: seq<Object> | FieldVisits(v, v.fields.Keys, rest) ensures FieldVisits(v, v.fields.Keys, [] + rest) {
      assert [] + rest == rest;
    }
  }

  lemma ContinuesStep(v: Json, visited: seq<Object>, remaining: set<string>, k: string, below: seq<Object>)
    requires v.Obj? && remaining <= v.fields.Keys && k in remaining
    requires Continues(v, visited, remaining) && Visits(v.fields[k], below)
    ensures Continues(v, visited + below, remaining - {k})
  {
    forall rest | FieldVisits(v, remaining - {k}, rest) ensures FieldVisits(v, v.fields.Keys, visited + below + rest) {
      FieldVisitsCons(v, remaining, k, below, rest);
      assert visited + below + rest == visited + (below + rest);
    }
  }

  lemma ContinuesToEnd(v: Json, visited: seq<Object>)
    requires v.Obj? && Continues(v, visited, {})
    ensures Visits(v, [v.fields] + visited)
  {
    assert FieldVisits(v, {}, []);
    assert visited + [] == visited;
    assert ([v.fields] + visited)[1..] == visited;
  }

  method CollectObjects(v: Json) returns (out: seq<Object>)
    ensures Visits(v, out)
    decreases v
  {
    match v
    case Obj(fields) =>
      out := [fields];
      var remaining := fields.Keys;
      ghost var visited := [];
      ContinuesFromStart(v);
      while remaining != {}
        invariant remaining <= fields.Keys
        invariant out == [fields] + visited
        invariant Continues(v, visited, remaining)
        decreases |remaining|
      {
        var k :| k in remaining;
        var below := CollectObjects(fields[k]);
        ContinuesStep(v, visited, remaining, k, below);
        remaining := remaining - {k};
        out, visited := out + below, visited + below;
      }
      ContinuesToEnd(v, visited);
    case Arr(items) =>
      out := [];
      for i := 0 to |items|
        invariant ItemVisits(v, i, out)
      {
        var below := CollectObjects(items[i]);
        ItemVisitsAppend(v, i, out, below);
        out := out + below;
      }
    case _ =>
      out := [];
  }

  // ----- Reading one object as a client. -----

  datatype Client = Client(
    mac: string, ip: string, hostname: string, connection: string,
    downloadBps: Option<real>, uploadBps: Option<real>, totalBps: Option<real>,
    downloadBytes: Option<real>, uploadBytes: Option<real>, totalBytes: Option<real>)

  const NO_CLIENT := Client("", "", "", "", None, None, None, None, None, None)

  datatype TextField = Mac | Ip | Hostname | Connection

  datatype NumberField = DownloadBps | UploadBps | TotalBps | DownloadBytes | UploadBytes | TotalBytes

  function TextOf(c: Client, f: TextField): string {
    match f case Mac => c.mac case Ip => c.ip case Hostname => c.hostname case Connection => c.connection
  }

  function NumberOf(c: Client, f: NumberField): Option<real> {
    match f
    case DownloadBps => c.downloadBps
    case UploadBps => c.uploadBps
    case TotalBps => c.totalBps
    case DownloadBytes => c.downloadBytes
    case UploadBytes => c.uploadBytes
    case TotalBytes => c.totalBytes
  }

  const MAC_KEYS := ["macaddr", "mac_addr", "mac", "host_mac"]
  const IP_KEYS := ["ipaddr", "ip_addr", "ip", "host_ip"]
  const HOSTNAME_KEYS := ["hostname", "host_name", "name", "client_name", "deviceName"]
  const CONNECTION_KEYS := ["type", "connection", "wire_type", "interface", "deviceTag", "networkMode"]
  const DOWNLOAD_BPS_KEYS := ["down_speed", "download_speed", "down_rate", "download_rate", "rx_speed",
                              "downloadSpeed", "downSpeed"]
  const UPLOAD_BPS_KEYS := ["up_speed", "upload_speed", "up_rate", "upload_rate", "tx_speed", "uploadSpeed", "upSpeed"]
  const TOTAL_BPS_KEYS := ["speed", "rate", "total_speed", "traffic_speed", "trafficSpeed"]
  const DOWNLOAD_BYTES_KEYS := ["download", "down_bytes", "download_bytes", "bytes_received", "downloadBytes"]
  const UPLOAD_BYTES_KEYS := ["upload", "up_bytes", "upload_bytes", "bytes_sent", "uploadBytes"]
  const TOTAL_BYTES_KEYS := ["traffic_usage", "traffic", "total", "total_bytes", "trafficUsage", "trafficUsed",
                             "totalBytes"]

  // Reads a number out of text; the text form accepted is the parser's own affair.
  type Parser = string -> Option<real>

  // The first key holding a string decides, even when that string is blank.
  function FirstString(m: Object, keys: seq<string>): string {
    if keys == [] then ""
    else if keys[0] in m && m[keys[0]].Str? then TrimSpace(m[keys[0]].s)
    else FirstString(m, keys[1..])
  }

  function NumberValue(parse: Parser, v: Json): Option<real> {
    match v
    case Num(n) => Some(n)
    case Str(s) => var clean := TrimSpace(RemoveCommas(s)); if clean == "" then None else parse(clean)
    case _ => None
  }

  // firstRate and firstNumber: the first key holding a readable number decides.
  function FirstNumber(parse: Parser, m: Object, keys: seq<string>): Option<real> {
    if keys == [] then None
    else if keys[0] in m && NumberValue(parse, m[keys[0]]).Some? then NumberValue(parse, m[keys[0]])
    else FirstNumber(parse, m, keys[1..])
  }

  function ReadClient(parse: Parser, m: Object): Client {
    Client(FirstString(m, MAC_KEYS), FirstString(m, IP_KEYS),
           FirstString(m, HOSTNAME_KEYS), FirstString(m, CONNECTION_KEYS),
           FirstNumber(parse, m, DOWNLOAD_BPS_KEYS), FirstNumber(parse, m, UPLOAD_BPS_KEYS),
           FirstNumber(parse, m, TOTAL_BPS_KEYS), FirstNumber(parse, m, DOWNLOAD_BYTES_KEYS),
           FirstNumber(parse, m, UPLOAD_BYTES_KEYS), FirstNumber(parse, m, TOTAL_BYTES_KEYS))
  }

  // How an object is read. What follows holds of every reader; the service uses ClientReader.
  type Reader = Object -> Client

  function ClientReader(parse: Parser): Reader {
    m => ReadClient(parse, m)
  }

  predicate IsClient(c: Client) {
    && (c.mac != "" || c.ip != "" || c.hostname != "")
    && (c.downloadBps.Some? || c.uploadBps.Some? || c.totalBps.Some? || c.downloadBytes.Some? || c.uploadBytes.Some?
        || c.totalBytes.Some?)
  }

  function ObjectToClient(read: Reader, m: Object): (Client, bool) {
    (read(m), IsClient(read(m)))
  }

  function Key(c: Client): string {
    if c.mac != "" then c.mac else if c.ip != "" then c.ip else c.hostname
  }

  // A client is an object with a name to store it under and some number.
  lemma ClientsAreNamedAndCounted(c: Client)
    ensures IsClient(c) <==> Key(c) != "" && exists f :: NumberOf(c, f).Some?
  {
    assert NumberOf(c, DownloadBps) == c.downloadBps && NumberOf(c, UploadBps) == c.uploadBps;
    assert NumberOf(c, TotalBps) == c.totalBps && NumberOf(c, DownloadBytes) == c.downloadBytes;
    assert NumberOf(c, UploadBytes) == c.uploadBytes && NumberOf(c, TotalBytes) == c.totalBytes;
  }

  predicate HasString(m: Object, key: string) { key in m && m[key].Str? }

  predicate HasNumber(m: Object, key: string) { key in m && m[key].Num? }

  // Each of the ten fields comes from keys of its own.
  lemma TextsFromTheirKeys(parse: Parser, m: Object)
    ensures HasString(m, "macaddr") ==> ReadClient(parse, m).mac == TrimSpace(m["macaddr"].s)
    ensures HasString(m, "ipaddr") ==> ReadClient(parse, m).ip == TrimSpace(m["ipaddr"].s)
    ensures HasString(m, "hostname") ==> ReadClient(parse, m).hostname == TrimSpace(m["hostname"].s)
    ensures HasString(m, "type") ==> ReadClient(parse, m).connection == TrimSpace(m["type"].s)
  {
  }

  lemma NumbersFromTheirKeys(parse: Parser, m: Object)
    ensures HasNumber(m, "down_speed") ==> ReadClient(parse, m).downloadBps == Some(m["down_speed"].n)
    ensures HasNumber(m, "up_speed") ==> ReadClient(parse, m).uploadBps == Some(m["up_speed"].n)
    ensures HasNumber(m, "speed") ==> ReadClient(parse, m).totalBps == Some(m["speed"].n)
    ensures HasNumber(m, "download") ==> ReadClient(parse, m).downloadBytes == Some(m["download"].n)
    ensures HasNumber(m, "upload") ==> ReadClient(parse, m).uploadBytes == Some(m["upload"].n)
    ensures HasNumber(m, "traffic_usage") ==> ReadClient(parse, m).totalBytes == Some(m["traffic_usage"].n)
  {
  }

  // The first key holding a string decides, even if it is blank.
  lemma {:induction false} FirstStringExactly(m: Object, keys: seq<string>, i: nat)
    requires i <= |keys| && forall j :: 0 <= j < i ==> !HasString(m, keys[j])
    requires i < |keys| ==> HasString(m, keys[i])
    ensures FirstString(m, keys) == if i < |keys| then TrimSpace(m[keys[i]].s) else ""
  {
    if i > 0 {
      FirstStringExactly(m, keys[1..], i - 1);
    }
  }

  // A number written as text may have commas anywhere and blanks around it.
  lemma CommasDoNotMatter(parse: Parser, a: string, b: string)
    ensures NumberValue(parse, Str(a + "," + b)) == NumberValue(parse, Str(a + b))
  {
    RemoveCommasConcat(a + ",", b);
    RemoveCommasConcat(a, ",");
    RemoveCommasConcat(a, b);
    assert RemoveCommas(",") == "" && RemoveCommas(a) + "" == RemoveCommas(a);
  }

  lemma {:induction false} RemoveCommasConcat(a: string, b: string)
    ensures RemoveCommas(a + b) == RemoveCommas(a) + RemoveCommas(b)
  {
    if a == "" {
      assert a + b == b;
    } else {
      assert (a + b)[1..] == a[1..] + b;
      RemoveCommasConcat(a[1..], b);
    }
  }

  lemma {:induction false} PlainTextIsParsed(parse: Parser, s: string)
    requires ',' !in s
    ensures NumberValue(parse, Str(s)) == if TrimSpace(s) == "" then None else parse(TrimSpace(s))
  {
    NoCommas(s);
  }

  lemma {:induction false} NoCommas(s: string)
    requires ',' !in s
    ensures RemoveCommas(s) == s
  {
    if s != "" { NoCommas(s[1..]); }
  }

  // The number read is that of the first key that has one.
  lemma {:induction false} FirstNumberExactly(parse: Parser, m: Object, keys: seq<string>, x: real)
    ensures FirstNumber(parse, m, keys) == Some(x)
       <==> exists i :: 0 <= i < |keys| && keys[i] in m && NumberValue(parse, m[keys[i]]) == Some(x)
                        && forall j :: 0 <= j < i && keys[j] in m ==> NumberValue(parse, m[keys[j]]).None?
  {
    if keys != [] {
      FirstNumberExactly(parse, m, keys[1..], x);
      if keys[0] in m && NumberValue(parse, m[keys[0]]).Some? {
        assert FirstNumber(parse, m, keys) == NumberValue(parse, m[keys[0]]);
      } else {
        FirstNumberLater(parse, m, keys, x);
      }
    }
  }

  lemma FirstNumberLater(parse: Parser, m: Object, keys: seq<string>, x: real)
    requires keys != [] && (keys[0] in m ==> NumberValue(parse, m[keys[0]]).None?)
    ensures var rest := keys[1..];
      (exists i :: 0 <= i < |keys| && keys[i] in m && NumberValue(parse, m[keys[i]]) == Some(x)
                   && forall j :: 0 <= j < i && keys[j] in m ==> NumberValue(parse, m[keys[j]]).None?)
      <==> (exists i :: 0 <= i < |rest| && rest[i] in m && NumberValue(parse, m[rest[i]]) == Some(x)
                        && forall j :: 0 <= j < i && rest[j] in m ==> NumberValue(parse, m[rest[j]]).None?)
  {
    var rest := keys[1..];
    if i :| 0 <= i < |keys| && keys[i] in m && NumberValue(parse, m[keys[i]]) == Some(x)
            && forall j :: 0 <= j < i && keys[j] in m ==> NumberValue(parse, m[keys[j]]).None? {
      assert rest[i - 1] == keys[i];
      assert forall j :: 0 <= j < i - 1 ==> rest[j] == keys[j + 1];
    }
    if i :| 0 <= i < |rest| && rest[i] in m && NumberValue(parse, m[rest[i]]) == Some(x)
            && forall j :: 0 <= j < i && rest[j] in m ==> NumberValue(parse, m[rest[j]]).None? {
      assert keys[i + 1] == rest[i];
      assert forall j :: 0 < j < i + 1 ==> keys[j] == rest[j - 1];
    }
  }

  // ----- Merging. -----

  function FirstText(a: string, b: string): string { if a == "" then b else a }

  function FirstSome(a: Option<real>, b: Option<real>): Option<real> { if a.None? then b else a }

  function MergeClient(a: Client, b: Client): Client {
    Client(FirstText(a.mac, b.mac), FirstText(a.ip, b.ip),
           FirstText(a.hostname, b.hostname), FirstText(a.connection, b.connection),
           FirstSome(a.downloadBps, b.downloadBps), FirstSome(a.uploadBps, b.uploadBps),
           FirstSome(a.totalBps, b.totalBps), FirstSome(a.downloadBytes, b.downloadBytes),
           FirstSome(a.uploadBytes, b.uploadBytes), FirstSome(a.totalBytes, b.totalBytes))
  }

  lemma MergeIsAnIdempotentMonoid(a: Client, b: Client, c: Client)
    ensures MergeClient(a, MergeClient(b, c)) == MergeClient(MergeClient(a, b), c)
    ensures MergeClient(NO_CLIENT, a) == a == MergeClient(a, NO_CLIENT)
    ensures MergeClient(a, a) == a
    ensures MergeClient(MergeClient(a, b), a) == MergeClient(a, b)
  {
  }

  // Two clients stored under one key merge into a client of that key, whichever of
  // the three identifying fields supplied it.
  lemma MergeKeepsKey(a: Client, b: Client)
    requires Key(a) == Key(b) != ""
    ensures Key(MergeClient(a, b)) == Key(a)
  {
  }

  // `b` adds nothing to `a` exactly when `a` already has every field `b` has.
  predicate Covers(a: Client, b: Client) {
    && (forall f: TextField :: TextOf(b, f) != "" ==> TextOf(a, f) != "")
    && (forall f: NumberField :: NumberOf(b, f).Some? ==> NumberOf(a, f).Some?)
  }

  lemma MergeAbsorbsExactly(a: Client, b: Client)
    ensures MergeClient(a, b) == a <==> Covers(a, b)
  {
    MergeFields(a, b);
    if Covers(a, b) {
      forall f: TextField ensures TextOf(MergeClient(a, b), f) == TextOf(a, f) {}
      forall f: NumberField ensures NumberOf(MergeClient(a, b), f) == NumberOf(a, f) {}
      SameFieldsSameClient(MergeClient(a, b), a);
    }
  }

  lemma SameFieldsSameClient(a: Client, b: Client)
    requires forall f: TextField :: TextOf(a, f) == TextOf(b, f)
    requires forall f: NumberField :: NumberOf(a, f) == NumberOf(b, f)
    ensures a == b
  {
    assert a.mac == TextOf(a, Mac) == TextOf(b, Mac) == b.mac;
    assert a.ip == TextOf(a, Ip) == TextOf(b, Ip) == b.ip;
    assert a.hostname == TextOf(a, Hostname) == TextOf(b, Hostname) == b.hostname;
    assert a.connection == TextOf(a, Connection) == TextOf(b, Connection) == b.connection;
    assert a.downloadBps == NumberOf(a, DownloadBps) == NumberOf(b, DownloadBps) == b.downloadBps;
    assert a.uploadBps == NumberOf(a, UploadBps) == NumberOf(b, UploadBps) == b.uploadBps;
    assert a.totalBps == NumberOf(a, TotalBps) == NumberOf(b, TotalBps) == b.totalBps;
    assert a.downloadBytes == NumberOf(a, DownloadBytes) == NumberOf(b, DownloadBytes) == b.downloadBytes;
    assert a.uploadBytes == NumberOf(a, UploadBytes) == NumberOf(b, UploadBytes) == b.uploadBytes;
    assert a.totalBytes == NumberOf(a, TotalBytes) == NumberOf(b, TotalBytes) == b.totalBytes;
  }

  // ----- The keyed table of clients. -----

  type Table = map<string, Client>

  function Absorb(read: Reader, table: Table, m: Object): Table {
    var (client, ok) := ObjectToClient(read, m);
    if !ok then table
    else
      var key := Key(client);
      table[key := MergeClient(if key in table then table[key] else NO_CLIENT, client)]
  }

  function Fold(read: Reader, order: seq<Object>): Table {
    if order == [] then map[] else Absorb(read, Fold(read, order[..|order| - 1]), order[|order| - 1])
  }

  // `m` is one of the objects that make up the client stored under `key`.
  predicate Contributes(read: Reader, m: Object, key: string) {
    IsClient(read(m)) && Key(read(m)) == key
  }

  ghost predicate TextPresent(read: Reader, order: seq<Object>, key: string, f: TextField) {
    exists m :: m in order && Contributes(read, m, key) && TextOf(read(m), f) != ""
  }

  ghost predicate TextSupplied(read: Reader, order: seq<Object>, key: string, f: TextField, x: string) {
    exists m :: m in order && Contributes(read, m, key) && TextOf(read(m), f) == x
  }

  ghost predicate NumberPresent(read: Reader, order: seq<Object>, key: string, f: NumberField, x: real) {
    exists m :: m in order && Contributes(read, m, key) && NumberOf(read(m), f) == Some(x)
  }

  // What the table knows about one key: it is there exactly when some object contributes to it,
  // its client has that very key, and a field is filled exactly when a contributor
  // fills it, with a contributor's own value.
  ghost predicate Describes(read: Reader, order: seq<Object>, table: Table, key: string) {
    && (key in table <==> exists m :: m in order && Contributes(read, m, key))
    && (key in table ==>
          && Key(table[key]) == key && key != ""
          && (forall f :: TextOf(table[key], f) != "" <==> TextPresent(read, order, key, f))
          && (forall f, x :: x != "" && TextOf(table[key], f) == x ==> TextSupplied(read, order, key, f, x))
          && (forall f, x :: NumberOf(table[key], f) == Some(x) ==> NumberPresent(read, order, key, f, x))
          && (forall f :: NumberOf(table[key], f).None? ==> forall x :: !NumberPresent(read, order, key, f, x)))
  }

  lemma {:induction false} FoldDescribes(read: Reader, order: seq<Object>, key: string)
    ensures Describes(read, order, Fold(read, order), key)
  {
    if order != [] {
      var before, m := order[..|order| - 1], order[|order| - 1];
      assert order == before + [m];
      FoldDescribes(read, before, key);
      AbsorbDescribes(read, before, m, key);
    }
  }

  lemma PresenceExtends(read: Reader, before: seq<Object>, m: Object, key: string)
    ensures forall f :: TextPresent(read, before + [m], key, f)
                   <==> TextPresent(read, before, key, f) || (Contributes(read, m, key) && TextOf(read(m), f) != "")
    ensures forall f, x :: TextSupplied(read, before + [m], key, f, x)
                   <==> TextSupplied(read, before, key, f, x) || (Contributes(read, m, key) && TextOf(read(m), f) == x)
    ensures forall f, x :: NumberPresent(read, before + [m], key, f, x)
                   <==> NumberPresent(read, before, key, f, x) ||
                         (Contributes(read, m, key) && NumberOf(read(m), f) == Some(x))
  {
    assert forall o :: o in before + [m] <==> o in before || o == m;
  }

  lemma AbsorbDescribes(read: Reader, before: seq<Object>, m: Object, key: string)
    requires Describes(read, before, Fold(read, before), key)
    ensures Describes(read, before + [m], Absorb(read, Fold(read, before), m), key)
  {
    var table := Fold(read, before);
    var after := Absorb(read, table, m);
    PresenceExtends(read, before, m, key);
    assert forall o :: o in before + [m] <==> o in before || o == m;
    if Contributes(read, m, key) {
      var client := read(m);
      var stored := if key in table then table[key] else NO_CLIENT;
      assert m in before + [m];
      assert after[key] == MergeClient(stored, client);
      MergeFields(stored, client);
      if key in table {
        MergeKeepsKey(table[key], client);
      } else {
        MergeIsAnIdempotentMonoid(client, client, client);
        assert forall f :: !TextPresent(read, before, key, f);
      }
    }
  }

  lemma MergeFields(a: Client, b: Client)
    ensures forall f :: TextOf(MergeClient(a, b), f) == FirstText(TextOf(a, f), TextOf(b, f))
    ensures forall f :: NumberOf(MergeClient(a, b), f) == FirstSome(NumberOf(a, f), NumberOf(b, f))
    ensures (forall f :: TextOf(NO_CLIENT, f) == "") && (forall f :: NumberOf(NO_CLIENT, f).None?)
  {
  }

  // Merging a returned client with any of its contributors again changes nothing.
  lemma RemergeChangesNothing(read: Reader, order: seq<Object>, m: Object)
    requires m in order && IsClient(read(m))
    ensures var key := Key(read(m));
            key in Fold(read, order) && MergeClient(Fold(read, order)[key], read(m)) == Fold(read, order)[key]
  {
    var client := read(m);
    var key := Key(client);
    FoldDescribes(read, order, key);
    assert Contributes(read, m, key);
    var stored := Fold(read, order)[key];
    forall f: NumberField | NumberOf(client, f).Some? ensures NumberOf(stored, f).Some? {
      assert NumberPresent(read, order, key, f, NumberOf(client, f).value);
    }
    forall f: TextField | TextOf(client, f) != "" ensures TextOf(stored, f) != "" {
      assert TextPresent(read, order, key, f);
    }
    MergeAbsorbsExactly(stored, client);
  }

  // ----- ExtractClients. -----

  ghost function ForestObjects(responses: seq<Json>): multiset<Object> {
    if responses == [] then multiset{}
    else ForestObjects(responses[..|responses| - 1]) + Objects(responses[|responses| - 1])
  }

  // `out` holds the clients of the table, each once, in some order.
  ghost predicate Lists(out: seq<Client>, table: Table) {
    && (forall i :: 0 <= i < |out| ==> Key(out[i]) in table && table[Key(out[i])] == out[i])
    && (forall i, j :: 0 <= i < j < |out| ==> Key(out[i]) != Key(out[j]))
    && (forall key :: key in table ==> HasKey(out, key))
  }

  ghost predicate HasKey(out: seq<Client>, key: string) {
    exists i :: 0 <= i < |out| && Key(out[i]) == key
  }

  // One response after the other.
  ghost predicate ForestVisits(responses: seq<Json>, out: seq<Object>) {
    if responses == [] then out == []
    else
      var n := |responses| - 1;
      exists i :: 0 <= i <= |out| && ForestVisits(responses[..n], out[..i]) && Visits(responses[n], out[i..])
  }

  lemma ForestVisitsAppend(responses: seq<Json>, v: Json, before: seq<Object>, below: seq<Object>)
    requires ForestVisits(responses, before) && Visits(v, below)
    ensures ForestVisits(responses + [v], before + below)
  {
    var out, i, more := before + below, |before|, responses + [v];
    assert out[..i] == before && out[i..] == below && more[..|more| - 1] == responses;
  }

  lemma {:induction false} ForestVisitsObjects(responses: seq<Json>, out: seq<Object>)
    requires ForestVisits(responses, out)
    ensures multiset(out) == ForestObjects(responses)
  {
    if responses != [] {
      var front, last := responses[..|responses| - 1], responses[|responses| - 1];
      var i :| 0 <= i <= |out| && ForestVisits(front, out[..i]) && Visits(last, out[i..]);
      ForestVisitsObjects(front, out[..i]);
      VisitsObjects(last, out[i..]);
      MultisetOfParts(out, i);
    }
  }

  // A possible result: some walk of the responses, folded into the table and listed.
  ghost predicate Extracted(read: Reader, responses: seq<Json>, out: seq<Client>) {
    exists order: seq<Object> :: ForestVisits(responses, order) && Lists(out, Fold(read, order))
  }

  lemma FoldAppend(read: Reader, order: seq<Object>, m: Object)
    ensures Fold(read, order + [m]) == Absorb(read, Fold(read, order), m)
  {
    assert (order + [m])[..|order|] == order;
  }

  method ExtractClients(read: Reader, responses: seq<Json>) returns (out: seq<Client>)
    ensures Extracted(read, responses, out)
  {
    var byKey: Table := map[];
    ghost var order: seq<Object> := [];
    for i := 0 to |responses|
      invariant ForestVisits(responses[..i], order)
      invariant byKey == Fold(read, order)
    {
      var objects := CollectObjects(responses[i]);
      ForestVisitsAppend(responses[..i], responses[i], order, objects);
      assert responses[..i + 1] == responses[..i] + [responses[i]];
      byKey := MergeObjects(read, objects, byKey, order);
      order := order + objects;
    }
    assert responses[..|responses|] == responses;
    out := ListClients(read, order, byKey);
  }

  // The inner loop: the objects of one response, in the order they were collected.
  method MergeObjects(read: Reader, objects: seq<Object>, table: Table, ghost before: seq<Object>)
    returns (byKey: Table)
    requires table == Fold(read, before)
    ensures byKey == Fold(read, before + objects)
  {
    byKey := table;
    ghost var order := before;
    for j := 0 to |objects|
      invariant order == before + objects[..j]
      invariant byKey == Fold(read, order)
    {
      var (client, ok) := ObjectToClient(read, objects[j]);
      FoldAppend(read, order, objects[j]);
      order := order + [objects[j]];
      if !ok {
        continue;
      }
      var key := client.mac;
      if key == "" {
        key := client.ip;
      }
      if key == "" {
        key := client.hostname;
      }
      if key == "" {
        continue;
      }
      var existing := if key in byKey then byKey[key] else NO_CLIENT;
      byKey := byKey[key := MergeClient(existing, client)];
    }
    assert objects[..|objects|] == objects;
  }

  lemma HasKeyAppend(out: seq<Client>, c: Client)
    ensures forall key :: HasKey(out + [c], key) <==> HasKey(out, key) || key == Key(c)
  {
    var longer := out + [c];
    assert longer[|out|] == c;
    forall key ensures HasKey(longer, key) <==> HasKey(out, key) || key == Key(c) {
      if HasKey(out, key) {
        var i :| 0 <= i < |out| && Key(out[i]) == key;
        assert longer[i] == out[i];
      }
    }
  }

  // The map's values, visited in an arbitrary order.
  method ListClients(read: Reader, ghost order: seq<Object>, byKey: Table) returns (out: seq<Client>)
    requires byKey == Fold(read, order)
    ensures Lists(out, byKey)
  {
    out := [];
    var remaining := byKey.Keys;
    forall key | key in byKey ensures Key(byKey[key]) == key {
      FoldDescribes(read, order, key);
    }
    while remaining != {}
      invariant remaining <= byKey.Keys
      invariant forall i :: 0 <= i < |out| ==> Key(out[i]) in byKey.Keys - remaining && byKey[Key(out[i])] == out[i]
      invariant forall i, j :: 0 <= i < j < |out| ==> Key(out[i]) != Key(out[j])
      invariant forall key :: key in byKey.Keys - remaining ==> HasKey(out, key)
      decreases |remaining|
    {
      var key :| key in remaining;
      HasKeyAppend(out, byKey[key]);
      out := out + [byKey[key]];
      remaining := remaining - {key};
    }
  }
}
