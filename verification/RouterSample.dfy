/**
  What one probe reports about the extracted clients (tplink.go, anyClientHas, sumClients and the
  last part of probeBaseURL), and which of it is independent of Go's map order.
 */
module RouterSample {
  import opened Basics
  import opened Extraction
  import opened Strings
  import opened VisitOrder

  method AnyClientHas(clients: seq<Client>, pred: Client -> bool) returns (found: bool)
    ensures found <==> exists i :: 0 <= i < |clients| && pred(clients[i])
  {
    for i := 0 to |clients|
      invariant forall j :: 0 <= j < i ==> !pred(clients[j])
    {
      if pred(clients[i]) {
        return true;
      }
    }
    return false;
  }

  function AddOptional(a: Option<real>, b: Option<real>): Option<real> {
    match (a, b)
    case (None, _) => b
    case (_, None) => a
    case (Some(x), Some(y)) => Some(x + y)
  }

  function Total(clients: seq<Client>, f: NumberField): Option<real> {
    if clients == [] then None
    else AddOptional(Total(clients[..|clients| - 1], f), NumberOf(clients[|clients| - 1], f))
  }

  method SumClients(clients: seq<Client>, f: NumberField) returns (r: Option<real>)
    ensures r == Total(clients, f)
  {
    var total := 0.0;
    var count := 0;
    for i := 0 to |clients|
      invariant count >= 0
      invariant Total(clients[..i], f) == if count == 0 then None else Some(total)
      invariant count == 0 ==> total == 0.0
    {
      assert clients[..i + 1][..i] == clients[..i];
      var v := NumberOf(clients[i], f);
      if v.Some? {
        total := total + v.value;
        count := count + 1;
      }
    }
    assert clients[..|clients|] == clients;
    return if count == 0 then None else Some(total);
  }

  datatype Sample = Sample(
    clientCount: nat, success: bool,
    downloadAvailable: bool, uploadAvailable: bool, totalTrafficAvailable: bool,
    downloadBps: Option<real>, uploadBps: Option<real>, totalBps: Option<real>)

  ghost predicate SomeHas(clients: seq<Client>, f: NumberField) {
    exists i :: 0 <= i < |clients| && NumberOf(clients[i], f).Some?
  }

  ghost function SampleOf(clients: seq<Client>): Sample {
    var down, up, total := Total(clients, DownloadBps), Total(clients, UploadBps), Total(clients, TotalBps);
    Sample(|clients|, |clients| > 0,
           SomeHas(clients, DownloadBps), SomeHas(clients, UploadBps),
           SomeHas(clients, TotalBps) || SomeHas(clients, TotalBytes),
           down, up, if total.None? && down.Some? && up.Some? then Some(down.value + up.value) else total)
  }

  method Summarise(clients: seq<Client>) returns (sample: Sample)
    ensures sample == SampleOf(clients)
  {
    var down := AnyClientHas(clients, (c: Client) => c.downloadBps.Some?);
    var up := AnyClientHas(clients, (c: Client) => c.uploadBps.Some?);
    var total := AnyClientHas(clients, (c: Client) => c.totalBps.Some? || c.totalBytes.Some?);
    assert down <==> SomeHas(clients, DownloadBps);
    assert up <==> SomeHas(clients, UploadBps);
    assert total <==> SomeHas(clients, TotalBps) || SomeHas(clients, TotalBytes);
    var downloadBps := SumClients(clients, DownloadBps);
    var uploadBps := SumClients(clients, UploadBps);
    var totalBps := SumClients(clients, TotalBps);
    if totalBps.None? && downloadBps.Some? && uploadBps.Some? {
      totalBps := Some(downloadBps.value + uploadBps.value);
    }
    sample := Sample(|clients|, |clients| > 0, down, up, total, downloadBps, uploadBps, totalBps);
  }

  // ----- Two visiting orders of one forest. -----

  // Objects that share a key and both carry the field carry the same value.
  ghost predicate Agree(read: Reader, objects: multiset<Object>, f: NumberField) {
    forall m, n :: m in objects && n in objects
      && IsClient(read(m)) && IsClient(read(n)) && Key(read(m)) == Key(read(n))
      && NumberOf(read(m), f).Some? && NumberOf(read(n), f).Some?
      ==> NumberOf(read(m), f) == NumberOf(read(n), f)
  }

  // Tables folded from the same objects in two orders have the same keys and the same
  // fields filled; the MAC is equal outright, and so is a number on which objects agree.
  lemma TablesAgree(read: Reader, order: seq<Object>, other: seq<Object>, key: string)
    requires multiset(order) == multiset(other)
    ensures key in Fold(read, order) <==> key in Fold(read, other)
    ensures key in Fold(read, order) ==>
      var a, b := Fold(read, order)[key], Fold(read, other)[key];
      && Key(a) == Key(b) == key && a.mac == b.mac
      && (forall f :: TextOf(a, f) != "" <==> TextOf(b, f) != "")
      && (forall f :: NumberOf(a, f).Some? <==> NumberOf(b, f).Some?)
      && (forall f :: Agree(read, multiset(order), f) ==> NumberOf(a, f) == NumberOf(b, f))
  {
    FoldDescribes(read, order, key);
    FoldDescribes(read, other, key);
    SameMembers(order, other);
    if key in Fold(read, order) {
      var a, b := Fold(read, order)[key], Fold(read, other)[key];
      forall f: TextField ensures TextOf(a, f) != "" <==> TextOf(b, f) != "" {
        assert TextPresent(read, order, key, f) <==> TextPresent(read, other, key, f);
      }
      assert (TextOf(a, Mac) != "") <==> (TextOf(b, Mac) != "");
      forall f: NumberField ensures NumberOf(a, f).Some? <==> NumberOf(b, f).Some? {
        NumbersAgree(read, order, other, key, f);
      }
      forall f: NumberField | Agree(read, multiset(order), f) ensures NumberOf(a, f) == NumberOf(b, f) {
        NumbersAgree(read, order, other, key, f);
      }
    }
  }

  lemma SameMembers(order: seq<Object>, other: seq<Object>)
    requires multiset(order) == multiset(other)
    ensures forall m :: m in order <==> m in other
    ensures forall m :: m in order <==> m in multiset(order)
  {
    forall m ensures m in order <==> m in other {
      assert m in order <==> m in multiset(order);
      assert m in other <==> m in multiset(other);
    }
  }

  lemma NumbersAgree(read: Reader, order: seq<Object>, other: seq<Object>, key: string, f: NumberField)
    requires multiset(order) == multiset(other)
    requires key in Fold(read, order) && key in Fold(read, other)
    requires Describes(read, order, Fold(read, order), key) && Describes(read, other, Fold(read, other), key)
    ensures var a, b := Fold(read, order)[key], Fold(read, other)[key];
            && (NumberOf(a, f).Some? <==> NumberOf(b, f).Some?)
            && (Agree(read, multiset(order), f) ==> NumberOf(a, f) == NumberOf(b, f))
  {
    SameMembers(order, other);
    var a, b := NumberOf(Fold(read, order)[key], f), NumberOf(Fold(read, other)[key], f);
    if a.Some? {
      assert NumberPresent(read, order, key, f, a.value);
      assert NumberPresent(read, other, key, f, a.value);
    }
    if b.Some? {
      assert NumberPresent(read, other, key, f, b.value);
      assert NumberPresent(read, order, key, f, b.value);
    }
  }

  // ----- A listing seen through its table. -----

  // The sum over a set of keys, visited in any order.
  ghost function TotalOver(table: Table, keys: set<string>, f: NumberField): Option<real>
    requires keys <= table.Keys
  {
    if keys == {} then None
    else
      var k :| k in keys;
      AddOptional(TotalOver(table, keys - {k}, f), NumberOf(table[k], f))
  }

  lemma {:induction false} TotalOverPick(table: Table, keys: set<string>, k: string, f: NumberField)
    requires keys <= table.Keys && k in keys
    ensures TotalOver(table, keys, f) == AddOptional(TotalOver(table, keys - {k}, f), NumberOf(table[k], f))
    decreases |keys|
  {
    var c :| c in keys && TotalOver(table, keys, f)
      == AddOptional(TotalOver(table, keys - {c}, f), NumberOf(table[c], f));
    if c != k {
      TotalOverPick(table, keys - {c}, k, f);
      TotalOverPick(table, keys - {k}, c, f);
      assert keys - {c} - {k} == keys - {k} - {c};
      AddOptionalSwaps(TotalOver(table, keys - {c} - {k}, f), NumberOf(table[k], f), NumberOf(table[c], f));
    }
  }

  lemma AddOptionalSwaps(a: Option<real>, x: Option<real>, y: Option<real>)
    ensures AddOptional(AddOptional(a, x), y) == AddOptional(AddOptional(a, y), x)
  {
  }

  // `out` holds the clients of these keys, each once.
  ghost predicate ListsKeys(out: seq<Client>, table: Table, keys: set<string>)
    requires keys <= table.Keys
  {
    && (forall i :: 0 <= i < |out| ==> Key(out[i]) in keys && table[Key(out[i])] == out[i])
    && (forall i, j :: 0 <= i < j < |out| ==> Key(out[i]) != Key(out[j]))
    && (forall key :: key in keys ==> HasKey(out, key))
  }

  lemma DropLast(out: seq<Client>, table: Table, keys: set<string>)
    requires keys <= table.Keys && ListsKeys(out, table, keys) && out != []
    ensures ListsKeys(out[..|out| - 1], table, keys - {Key(out[|out| - 1])})
  {
    var rest, last := out[..|out| - 1], Key(out[|out| - 1]);
    forall key | key in keys - {last} ensures HasKey(rest, key) {
      assert HasKey(out, key);
      var i :| 0 <= i < |out| && Key(out[i]) == key;
      assert Key(rest[i]) == key;
    }
  }

  lemma {:induction false} ListingTotals(out: seq<Client>, table: Table, keys: set<string>, f: NumberField)
    requires keys <= table.Keys && ListsKeys(out, table, keys)
    ensures |out| == |keys| && Total(out, f) == TotalOver(table, keys, f)
    decreases |out|
  {
    if out == [] {
      assert forall key :: !HasKey(out, key);
      assert keys == {};
    } else {
      var last := Key(out[|out| - 1]);
      DropLast(out, table, keys);
      ListingTotals(out[..|out| - 1], table, keys - {last}, f);
      TotalOverPick(table, keys, last, f);
    }
  }

  ghost predicate SomeKeyHas(table: Table, f: NumberField) {
    exists key :: key in table && NumberOf(table[key], f).Some?
  }

  lemma ListingPresence(out: seq<Client>, table: Table, f: NumberField)
    requires Lists(out, table)
    ensures SomeHas(out, f) <==> SomeKeyHas(table, f)
  {
    if key :| key in table && NumberOf(table[key], f).Some? {
      assert HasKey(out, key);
      var i :| 0 <= i < |out| && Key(out[i]) == key;
      assert NumberOf(out[i], f).Some?;
    }
    if i :| 0 <= i < |out| && NumberOf(out[i], f).Some? {
      assert NumberOf(table[Key(out[i])], f).Some?;
    }
  }

  lemma {:induction false} EqualNumbersEqualTotals(t: Table, u: Table, keys: set<string>, f: NumberField)
    requires keys <= t.Keys && keys <= u.Keys
    requires forall key :: key in keys ==> NumberOf(t[key], f) == NumberOf(u[key], f)
    ensures TotalOver(t, keys, f) == TotalOver(u, keys, f)
    decreases |keys|
  {
    if k :| k in keys {
      TotalOverPick(t, keys, k, f);
      TotalOverPick(u, keys, k, f);
      EqualNumbersEqualTotals(t, u, keys - {k}, f);
    }
  }

  lemma {:induction false} TotalPresent(out: seq<Client>, f: NumberField)
    ensures Total(out, f).Some? <==> SomeHas(out, f)
  {
    if out != [] {
      var rest, last := out[..|out| - 1], |out| - 1;
      TotalPresent(rest, f);
      if i :| 0 <= i < |rest| && NumberOf(rest[i], f).Some? {
        assert NumberOf(out[i], f).Some?;
      }
      if i :| 0 <= i < |out| && NumberOf(out[i], f).Some? {
        assert i < last ==> NumberOf(rest[i], f).Some?;
      }
    }
  }

  // Lists of two tables with the same keys and the same fields filled.
  lemma ListsAgree(a: seq<Client>, t: Table, b: seq<Client>, u: Table, f: NumberField)
    requires Lists(a, t) && Lists(b, u) && t.Keys == u.Keys && (SomeKeyHas(t, f) <==> SomeKeyHas(u, f))
    ensures |a| == |b| && (SomeHas(a, f) <==> SomeHas(b, f))
    ensures Total(a, f).Some? <==> SomeHas(a, f)
    ensures Total(b, f).Some? <==> SomeHas(b, f)
    ensures (forall key :: key in t ==> NumberOf(t[key], f) == NumberOf(u[key], f)) ==> Total(a, f) == Total(b, f)
  {
    ListingTotals(a, t, t.Keys, f);
    ListingTotals(b, u, u.Keys, f);
    ListingPresence(a, t, f);
    ListingPresence(b, u, f);
    TotalPresent(a, f);
    TotalPresent(b, f);
    if forall key :: key in t ==> NumberOf(t[key], f) == NumberOf(u[key], f) {
      EqualNumbersEqualTotals(t, u, t.Keys, f);
    }
  }

  // ----- Two extractions of the same responses. -----

  lemma SameKeysSameFields(read: Reader, order: seq<Object>, other: seq<Object>, f: NumberField)
    requires multiset(order) == multiset(other)
    ensures Fold(read, order).Keys == Fold(read, other).Keys
    ensures SomeKeyHas(Fold(read, order), f) <==> SomeKeyHas(Fold(read, other), f)
  {
    var t, u := Fold(read, order), Fold(read, other);
    forall key ensures key in t <==> key in u
               ensures key in t ==> (NumberOf(t[key], f).Some? <==> NumberOf(u[key], f).Some?)
    {
      TablesAgree(read, order, other, key);
    }
  }

  // The walk behind an extraction.
  lemma WalkOf(read: Reader, responses: seq<Json>, out: seq<Client>) returns (order: seq<Object>)
    requires Extracted(read, responses, out)
    ensures ForestVisits(responses, order) && multiset(order) == ForestObjects(responses)
      && Lists(out, Fold(read, order))
  {
    order :| ForestVisits(responses, order) && Lists(out, Fold(read, order));
    ForestVisitsObjects(responses, order);
  }

  ghost predicate AllFixed(read: Reader, responses: seq<Json>, f: NumberField) {
    forall key :: NumberFixed(read, responses, key, f)
  }

  lemma FixedNumberAgrees(read: Reader, responses: seq<Json>, a: seq<Client>, b: seq<Client>, key: string,
                          f: NumberField)
    requires Extracted(read, responses, a) && Extracted(read, responses, b) && NumberFixed(read, responses, key, f)
    ensures NumberIn(a, key, f) == NumberIn(b, key, f)
  {
    NumberIndependentExactly(read, responses, key, f);
  }

  // Numbers seen in the lists are the numbers in their tables.
  lemma ListedNumbersAgree(a: seq<Client>, t: Table, b: seq<Client>, u: Table, f: NumberField, key: string)
    requires Lists(a, t) && Lists(b, u) && key in t && key in u && NumberIn(a, key, f) == NumberIn(b, key, f)
    ensures NumberOf(t[key], f) == NumberOf(u[key], f)
  {
    ListedFields(a, t, key);
    ListedFields(b, u, key);
    assert NumberAt(t, key, f) == NumberAt(u, key, f);
  }

  lemma ExtractionsAgree(read: Reader, responses: seq<Json>, a: seq<Client>, b: seq<Client>, f: NumberField)
    requires Extracted(read, responses, a) && Extracted(read, responses, b)
    ensures |a| == |b| && (SomeHas(a, f) <==> SomeHas(b, f)) && (Total(a, f).Some? <==> Total(b, f).Some?)
    ensures AllFixed(read, responses, f) ==> Total(a, f) == Total(b, f)
  {
    var order := WalkOf(read, responses, a);
    var other := WalkOf(read, responses, b);
    var t, u := Fold(read, order), Fold(read, other);
    SameKeysSameFields(read, order, other, f);
    if AllFixed(read, responses, f) {
      forall key | key in t ensures NumberOf(t[key], f) == NumberOf(u[key], f) {
        FixedNumberAgrees(read, responses, a, b, key, f);
        ListedNumbersAgree(a, t, b, u, f, key);
      }
    }
    ListsAgree(a, t, b, u, f);
  }

  // Objects that agree wherever they share a key fix every number.
  lemma AgreementFixes(read: Reader, responses: seq<Json>, f: NumberField)
    requires Agree(read, ForestObjects(responses), f)
    ensures AllFixed(read, responses, f)
  {
    forall key ensures NumberFixed(read, responses, key, f) {
      forall a, b | Extracted(read, responses, a) && Extracted(read, responses, b)
        ensures NumberIn(a, key, f) == NumberIn(b, key, f)
      {
        var order := WalkOf(read, responses, a);
        var other := WalkOf(read, responses, b);
        TablesAgree(read, order, other, key);
        ListedFields(a, Fold(read, order), key);
        ListedFields(b, Fold(read, other), key);
      }
      NumberIndependentExactly(read, responses, key, f);
    }
  }

  // The parts of two samples that must be equal whatever the visiting order.
  predicate SameShape(s: Sample, t: Sample) {
    && s.clientCount == t.clientCount && s.success == t.success
    && s.downloadAvailable == t.downloadAvailable && s.uploadAvailable == t.uploadAvailable
    && s.totalTrafficAvailable == t.totalTrafficAvailable
    && s.downloadBps.Some? == t.downloadBps.Some? && s.uploadBps.Some? == t.uploadBps.Some?
    && s.totalBps.Some? == t.totalBps.Some?
  }

  lemma SampleDependsOnTotals(a: seq<Client>, b: seq<Client>)
    requires |a| == |b| && (forall f :: SomeHas(a, f) <==> SomeHas(b, f))
    requires forall f :: Total(a, f).Some? <==> Total(b, f).Some?
    ensures SameShape(SampleOf(a), SampleOf(b))
    ensures (Total(a, DownloadBps) == Total(b, DownloadBps) && Total(a, UploadBps) == Total(b, UploadBps)
             && Total(a, TotalBps) == Total(b, TotalBps))
            ==> SampleOf(a) == SampleOf(b)
  {
  }

  // Two extractions of the same responses, whatever order their maps were visited in: the same number of clients,
  // the same success and availability flags, sums present or absent together, and equal samples
  // where every client's rates are fixed.
  lemma SamplesAgree(read: Reader, responses: seq<Json>, a: seq<Client>, b: seq<Client>)
    requires Extracted(read, responses, a) && Extracted(read, responses, b)
    ensures SameShape(SampleOf(a), SampleOf(b))
    ensures (AllFixed(read, responses, DownloadBps) && AllFixed(read, responses, UploadBps)
             && AllFixed(read, responses, TotalBps))
            ==> SampleOf(a) == SampleOf(b)
  {
    forall f: NumberField
      ensures |a| == |b| && (SomeHas(a, f) <==> SomeHas(b, f)) && (Total(a, f).Some? <==> Total(b, f).Some?)
      ensures AllFixed(read, responses, f) ==> Total(a, f) == Total(b, f)
    {
      ExtractionsAgree(read, responses, a, b, f);
    }
    ExtractionsAgree(read, responses, a, b, TotalBytes);
    SampleDependsOnTotals(a, b);
  }

  // Nothing is invented and nothing is lost: every returned client stands for a key some object
  // has, carries only numbers some object of that key carries, and every object that reads as
  // a client is represented by exactly one returned client.
  lemma ExtractedClientsComeFromObjects(read: Reader, responses: seq<Json>, out: seq<Client>)
    requires Extracted(read, responses, out)
    ensures forall i, f, x :: 0 <= i < |out| && NumberOf(out[i], f) == Some(x)
              ==> exists m ::
                     m in ForestObjects(responses) && Contributes(read, m, Key(out[i]))
                     && NumberOf(read(m), f) == Some(x)
    ensures forall m :: m in ForestObjects(responses) && IsClient(read(m)) ==> HasKey(out, Key(read(m)))
    ensures forall i, j :: 0 <= i < j < |out| ==> Key(out[i]) != Key(out[j])
  {
    var order := WalkOf(read, responses, out);
    SameMembers(order, order);
    forall i, f, x | 0 <= i < |out| && NumberOf(out[i], f) == Some(x)
      ensures exists m ::
        m in ForestObjects(responses) && Contributes(read, m, Key(out[i])) && NumberOf(read(m), f) == Some(x)
    {
      FoldDescribes(read, order, Key(out[i]));
      assert NumberPresent(read, order, Key(out[i]), f, x);
    }
    forall m | m in ForestObjects(responses) && IsClient(read(m)) ensures HasKey(out, Key(read(m))) {
      RemergeChangesNothing(read, order, m);
    }
  }

  ghost predicate SomeObjectHas(read: Reader, objects: multiset<Object>, f: NumberField) {
    exists m :: m in objects && IsClient(read(m)) && NumberOf(read(m), f).Some?
  }

  ghost function ClientKeys(read: Reader, objects: multiset<Object>): set<string> {
    set m | m in objects && IsClient(read(m)) :: Key(read(m))
  }

  lemma KeysOfTable(read: Reader, order: seq<Object>)
    ensures Fold(read, order).Keys == ClientKeys(read, multiset(order))
  {
    var table, keys := Fold(read, order), ClientKeys(read, multiset(order));
    forall key ensures key in table <==> key in keys {
      KeyOfTable(read, order, key);
    }
    assert forall key :: key in table.Keys <==> key in keys;
  }

  lemma KeyOfTable(read: Reader, order: seq<Object>, key: string)
    ensures key in Fold(read, order) <==> key in ClientKeys(read, multiset(order))
  {
    FoldDescribes(read, order, key);
    SameMembers(order, order);
    if m :| m in order && Contributes(read, m, key) {
      assert m in multiset(order) && Key(read(m)) == key;
    }
    if key in ClientKeys(read, multiset(order)) {
      var m :| m in multiset(order) && IsClient(read(m)) && key == Key(read(m));
      assert m in order && Contributes(read, m, key);
    }
  }

  lemma TableHasWhatObjectsHave(read: Reader, order: seq<Object>, f: NumberField)
    ensures SomeKeyHas(Fold(read, order), f) <==> SomeObjectHas(read, multiset(order), f)
  {
    SameMembers(order, order);
    if SomeKeyHas(Fold(read, order), f) {
      ObjectHasIfTableHas(read, order, f);
    }
    if m :| m in multiset(order) && IsClient(read(m)) && NumberOf(read(m), f).Some? {
      TableHasIfObjectHas(read, order, m, f);
    }
  }

  lemma ObjectHasIfTableHas(read: Reader, order: seq<Object>, f: NumberField)
    requires SomeKeyHas(Fold(read, order), f)
    ensures SomeObjectHas(read, multiset(order), f)
  {
    var key :| key in Fold(read, order) && NumberOf(Fold(read, order)[key], f).Some?;
    var x := NumberOf(Fold(read, order)[key], f).value;
    FoldDescribes(read, order, key);
    assert NumberPresent(read, order, key, f, x);
    var m :| m in order && Contributes(read, m, key) && NumberOf(read(m), f) == Some(x);
    assert m in multiset(order);
  }

  lemma TableHasIfObjectHas(read: Reader, order: seq<Object>, m: Object, f: NumberField)
    requires m in order && IsClient(read(m)) && NumberOf(read(m), f).Some?
    ensures SomeKeyHas(Fold(read, order), f)
  {
    var key := Key(read(m));
    FoldDescribes(read, order, key);
    assert Contributes(read, m, key);
    assert NumberPresent(read, order, key, f, NumberOf(read(m), f).value);
  }

  // What a probe reports, said of the objects in the responses themselves: as many clients as there are keys among the
  // objects that read as clients, and each rate available exactly if one of those objects has it.
  lemma SampleReflectsObjects(read: Reader, responses: seq<Json>, out: seq<Client>)
    requires Extracted(read, responses, out)
    ensures var s, objects := SampleOf(out), ForestObjects(responses);
      && s.clientCount == |ClientKeys(read, objects)|
      && (s.success <==> ClientKeys(read, objects) != {})
      && (s.downloadAvailable <==> SomeObjectHas(read, objects, DownloadBps))
      && (s.uploadAvailable <==> SomeObjectHas(read, objects, UploadBps))
      && (s.totalTrafficAvailable
          <==> SomeObjectHas(read, objects, TotalBps) || SomeObjectHas(read, objects, TotalBytes))
  {
    var order := WalkOf(read, responses, out);
    var table := Fold(read, order);
    KeysOfTable(read, order);
    ListingTotals(out, table, table.Keys, DownloadBps);
    forall f: NumberField ensures SomeHas(out, f) <==> SomeObjectHas(read, ForestObjects(responses), f) {
      TableHasWhatObjectsHave(read, order, f);
      ListingPresence(out, table, f);
    }
  }

  // ----- When the reported sum is fixed. -----

  lemma KeyAddsItsNumber(out: seq<Client>, table: Table, key: string, f: NumberField)
    requires Lists(out, table) && key in table
    ensures Total(out, f) == AddOptional(TotalOver(table, table.Keys - {key}, f), NumberAt(table, key, f))
  {
    ListingTotals(out, table, table.Keys, f);
    TotalOverPick(table, table.Keys, key, f);
  }

  lemma DifferentNumbersDifferentSums(rest: Option<real>, x: real, y: real)
    requires x != y
    ensures AddOptional(rest, Some(x)) != AddOptional(rest, Some(y))
  {
  }

  ghost predicate OthersFixed(read: Reader, responses: seq<Json>, key: string, f: NumberField) {
    forall other :: other != key ==> NumberFixed(read, responses, other, f)
  }

  ghost predicate SumFixed(read: Reader, responses: seq<Json>, f: NumberField) {
    forall a, b :: Extracted(read, responses, a) && Extracted(read, responses, b) ==> Total(a, f) == Total(b, f)
  }

  // Two extractions that differ in the number of one client differ in the sum.
  lemma OneLooseNumberShows(read: Reader, responses: seq<Json>, key: string, f: NumberField, a: seq<Client>,
                            b: seq<Client>)
    requires Extracted(read, responses, a) && Extracted(read, responses, b) && OthersFixed(read, responses, key, f)
    requires NumberIn(a, key, f).Some? && NumberIn(b, key, f).Some? && NumberIn(a, key, f) != NumberIn(b, key, f)
    ensures Total(a, f) != Total(b, f)
  {
    var order := WalkOf(read, responses, a);
    var other := WalkOf(read, responses, b);
    var t, u := Fold(read, order), Fold(read, other);
    SameKeysSameFields(read, order, other, f);
    ListedFields(a, t, key);
    ListedFields(b, u, key);
    assert key in t && key in u;
    forall k | k in t.Keys - {key} ensures NumberOf(t[k], f) == NumberOf(u[k], f) {
      FixedNumberAgrees(read, responses, a, b, k, f);
      ListedNumbersAgree(a, t, b, u, f, k);
    }
    EqualNumbersEqualTotals(t, u, t.Keys - {key}, f);
    KeyAddsItsNumber(a, t, key, f);
    KeyAddsItsNumber(b, u, key, f);
    DifferentNumbersDifferentSums(TotalOver(t, t.Keys - {key}, f), NumberIn(a, key, f).value,
                                  NumberIn(b, key, f).value);
  }

  // Where at most one client's number can vary, the reported sum is fixed exactly if that number is.
  lemma OneLooseNumberDecides(read: Reader, responses: seq<Json>, key: string, f: NumberField)
    requires OthersFixed(read, responses, key, f)
    ensures SumFixed(read, responses, f) <==> NumberFixed(read, responses, key, f)
  {
    if NumberFixed(read, responses, key, f) {
      assert AllFixed(read, responses, f);
      forall a, b | Extracted(read, responses, a) && Extracted(read, responses, b) ensures Total(a, f) == Total(b, f) {
        ExtractionsAgree(read, responses, a, b, f);
      }
    } else {
      var x, y := TwoOf(ForestFirsts(NumberPick(read, key, f), responses));
      ReportedNumbersExactly(read, responses, key, f, x);
      ReportedNumbersExactly(read, responses, key, f, y);
      var a :| Extracted(read, responses, a) && NumberIn(a, key, f) == Some(x);
      var b :| Extracted(read, responses, b) && NumberIn(b, key, f) == Some(y);
      OneLooseNumberShows(read, responses, key, f, a, b);
    }
  }

  // One device reported twice with different rates below two entries of one map: the reported rate depends on
  // the order.
  lemma RateDependsOnOrder(parse: Parser)
    ensures exists responses :: !SumFixed(ClientReader(parse), responses, DownloadBps)
  {
    var read := ClientReader(parse);
    var root, slow, fast := OneDeviceTwice(parse);
    var responses := [Obj(root)];
    forall key ensures NumberFixed(read, responses, key, DownloadBps) <==> key != "m" {
      LooseExactlyThere(read, root, slow, fast, key);
    }
    OneLooseNumberDecides(read, responses, "m", DownloadBps);
  }

  // Nothing in it is visited further.
  predicate Leaf(m: Object) { forall k :: k in m ==> !m[k].Obj? && !m[k].Arr? }

  lemma FirstsOfLeaf<T(!new)>(pick: Pick<T>, m: Object)
    requires Leaf(m)
    ensures Firsts(pick, Obj(m)) == if pick(m).Some? then {pick(m).value} else {}
  {
    forall k | k in m ensures Firsts(pick, m[k]) == {} {
    }
  }

  lemma FirstsOfTwo<T(!new)>(pick: Pick<T>, root: Object, slow: Object, fast: Object)
    requires root == map["a" := Obj(slow), "b" := Obj(fast)] && pick(root).None?
    ensures ForestFirsts(pick, [Obj(root)]) == Firsts(pick, Obj(slow)) + Firsts(pick, Obj(fast))
  {
    var v := Obj(root);
    assert [v][..0] == [];
    assert root.Keys == {"a", "b"};
    forall x ensures x in Firsts(pick, v) <==> x in Firsts(pick, v.fields["a"]) || x in Firsts(pick, v.fields["b"]) {
    }
    assert Firsts(pick, v) == Firsts(pick, Obj(slow)) + Firsts(pick, Obj(fast));
  }

  lemma LooseExactlyThere(read: Reader, root: Object, slow: Object, fast: Object, key: string)
    requires root == map["a" := Obj(slow), "b" := Obj(fast)] && Leaf(slow) && Leaf(fast)
    requires !IsClient(read(root)) && IsClient(read(slow)) && IsClient(read(fast))
      && Key(read(slow)) == "m" == Key(read(fast))
    requires read(slow).downloadBps == Some(1.0) && read(fast).downloadBps == Some(2.0)
    ensures NumberFixed(read, [Obj(root)], key, DownloadBps) <==> key != "m"
  {
    var pick := NumberPick(read, key, DownloadBps);
    FirstsOfTwo(pick, root, slow, fast);
    FirstsOfLeaf(pick, slow);
    FirstsOfLeaf(pick, fast);
    if key == "m" {
      assert ForestFirsts(pick, [Obj(root)]) == {1.0, 2.0};
    } else {
      assert ForestFirsts(pick, [Obj(root)]) == {};
    }
  }

  lemma OneDeviceTwice(parse: Parser) returns (root: Object, slow: Object, fast: Object)
    ensures root == map["a" := Obj(slow), "b" := Obj(fast)] && Leaf(slow) && Leaf(fast)
    ensures !IsClient(ReadClient(parse, root))
    ensures IsClient(ReadClient(parse, slow)) && IsClient(ReadClient(parse, fast))
    ensures Key(ReadClient(parse, slow)) == "m" == Key(ReadClient(parse, fast))
    ensures ReadClient(parse, slow).downloadBps == Some(1.0) && ReadClient(parse, fast).downloadBps == Some(2.0)
  {
    slow, fast := DeviceObject("m", 1.0), DeviceObject("m", 2.0);
    root := map["a" := Obj(slow), "b" := Obj(fast)];
    ReadsNothing(parse, root);
    TrimSpaceFixpoint("m");
    ReadsDevice(parse, slow, "m", 1.0);
    ReadsDevice(parse, fast, "m", 2.0);
  }

  // What the service reads a device with a download rate out of.
  function DeviceObject(mac: string, rate: real): Object { map["mac" := Str(mac), "down_speed" := Num(rate)] }

  lemma ReadsDevice(parse: Parser, m: Object, mac: string, rate: real)
    requires m == DeviceObject(mac, rate) && mac != "" && TrimSpace(mac) == mac
    ensures Leaf(m)
    ensures var c := ReadClient(parse, m); IsClient(c) && Key(c) == mac && c.downloadBps == Some(rate)
  {
    assert "macaddr" !in m && "mac_addr" !in m;
    assert MAC_KEYS[1..][0] == "mac_addr" && MAC_KEYS[1..][1..][0] == "mac";
    assert FirstString(m, MAC_KEYS[1..][1..]) == mac;
    assert FirstString(m, MAC_KEYS[1..]) == mac;
    assert FirstString(m, MAC_KEYS) == mac;
    assert DOWNLOAD_BPS_KEYS[0] == "down_speed";
    assert FirstNumber(parse, m, DOWNLOAD_BPS_KEYS) == Some(rate);
  }

  lemma {:induction false} NoText(m: Object, keys: seq<string>)
    requires forall k :: k in m ==> !m[k].Str?
    ensures FirstString(m, keys) == ""
  {
    if keys != [] {
      NoText(m, keys[1..]);
    }
  }

  lemma ReadsNothing(parse: Parser, m: Object)
    requires forall k :: k in m ==> !m[k].Str?
    ensures !IsClient(ReadClient(parse, m))
  {
    NoText(m, MAC_KEYS);
    NoText(m, IP_KEYS);
    NoText(m, HOSTNAME_KEYS);
  }
}
