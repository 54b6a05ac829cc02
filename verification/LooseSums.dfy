/**
  Why the exact condition for a fixed sum speaks of one loose client: two clients reported twice can swap their
  numbers with the visiting order, and the sum stays (tplink.go, sumClients).
 */
module LooseSums {
  import opened Basics
  import opened Extraction
  import opened Strings
  import opened VisitOrder
  import opened RouterSample

  // Two devices, k and l, below two entries of one map; the second time with their rates exchanged.
  predicate Swapping(read: Reader, root: Object, p: Object, p': Object, q: Object, q': Object) {
    && root.Keys == {"a", "b"} && root["a"] == Arr([Obj(p), Obj(p')]) && root["b"] == Arr([Obj(q), Obj(q')])
    && Leaf(p) && Leaf(p') && Leaf(q) && Leaf(q') && !IsClient(read(root))
    && Contributes(read, p, "k") && Contributes(read, p', "l")
    && Contributes(read, q, "k") && Contributes(read, q', "l")
    && read(p).downloadBps == Some(1.0) && read(p').downloadBps == Some(2.0)
    && read(q).downloadBps == Some(2.0) && read(q').downloadBps == Some(1.0)
  }

  // ----- The walks. -----

  lemma {:induction false} LeafFieldsAddNothing(v: Json, keys: set<string>, out: seq<Object>)
    requires v.Obj? && Leaf(v.fields) && keys <= v.fields.Keys && FieldVisits(v, keys, out)
    ensures out == []
    decreases |keys|
  {
    if keys != {} {
      var k, i :| k in keys && 0 <= i <= |out| && Visits(v.fields[k], out[..i]) && FieldVisits(v, keys - {k}, out[i..]);
      LeafFieldsAddNothing(v, keys - {k}, out[i..]);
    }
  }

  lemma WalkOfLeaf(m: Object, out: seq<Object>)
    requires Leaf(m) && Visits(Obj(m), out)
    ensures out == [m]
  {
    LeafFieldsAddNothing(Obj(m), m.Keys, out[1..]);
    assert out == [out[0]] + out[1..];
  }

  lemma WalkOfFirstItem(v: Json, x: Object, out: seq<Object>)
    requires v.Arr? && |v.items| >= 1 && v.items[0] == Obj(x) && Leaf(x) && ItemVisits(v, 1, out)
    ensures out == [x]
  {
    var j :| 0 <= j <= |out| && ItemVisits(v, 0, out[..j]) && Visits(v.items[0], out[j..]);
    WalkOfLeaf(x, out[j..]);
    assert out == out[..j] + out[j..];
  }

  lemma WalkOfTwoItems(v: Json, x: Object, y: Object, out: seq<Object>)
    requires v.Arr? && |v.items| == 2 && v.items[0] == Obj(x) && v.items[1] == Obj(y) && Leaf(x) && Leaf(y)
    requires Visits(v, out)
    ensures out == [x, y]
  {
    var i :| 0 <= i <= |out| && ItemVisits(v, 1, out[..i]) && Visits(v.items[1], out[i..]);
    WalkOfFirstItem(v, x, out[..i]);
    WalkOfLeaf(y, out[i..]);
    assert out == out[..i] + out[i..];
  }

  lemma WalkOfPair(x: Object, y: Object, out: seq<Object>)
    requires Leaf(x) && Leaf(y) && Visits(Arr([Obj(x), Obj(y)]), out)
    ensures out == [x, y]
  {
    WalkOfTwoItems(Arr([Obj(x), Obj(y)]), x, y, out);
  }

  lemma NoFieldsAddNothing(v: Json, keys: set<string>, out: seq<Object>)
    requires v.Obj? && keys <= v.fields.Keys && keys == {} && FieldVisits(v, keys, out)
    ensures out == []
  {
  }

  lemma WalkOfLastEntry(v: Json, k: string, out: seq<Object>)
    requires v.Obj? && k in v.fields && FieldVisits(v, {k}, out)
    ensures Visits(v.fields[k], out)
  {
    var keys := {k};
    var l, i :| l in keys && 0 <= i <= |out| && Visits(v.fields[l], out[..i]) && FieldVisits(v, keys - {l}, out[i..]);
    NoFieldsAddNothing(v, keys - {l}, out[i..]);
    assert out[..i] == out;
  }

  lemma WalkOfTwoEntries(v: Json, out: seq<Object>) returns (x: string, y: string, i: nat)
    requires v.Obj? && v.fields.Keys == {"a", "b"} && FieldVisits(v, v.fields.Keys, out)
    ensures (x == "a" && y == "b") || (x == "b" && y == "a")
    ensures i <= |out| && Visits(v.fields[x], out[..i]) && Visits(v.fields[y], out[i..])
  {
    var keys := v.fields.Keys;
    assert "a" in keys;
    var k: string, j: int :| k in keys && 0 <= j <= |out| && Visits(v.fields[k], out[..j])
      && FieldVisits(v, keys - {k}, out[j..]);
    x, i := k, j;
    y := if k == "a" then "b" else "a";
    assert keys - {k} == {y};
    WalkOfLastEntry(v, y, out[j..]);
  }

  // Below the root: the one list and then the other.
  lemma WalkOfTwoLists(v: Json, p: Object, p': Object, q: Object, q': Object, out: seq<Object>)
    requires v.Obj? && v.fields.Keys == {"a", "b"} && Leaf(p) && Leaf(p') && Leaf(q) && Leaf(q')
    requires v.fields["a"] == Arr([Obj(p), Obj(p')]) && v.fields["b"] == Arr([Obj(q), Obj(q')])
    requires FieldVisits(v, v.fields.Keys, out)
    ensures out == [p, p'] + [q, q'] || out == [q, q'] + [p, p']
  {
    var x, y, i := WalkOfTwoEntries(v, out);
    if x == "a" {
      WalkOfPair(p, p', out[..i]);
      WalkOfPair(q, q', out[i..]);
    } else {
      WalkOfPair(q, q', out[..i]);
      WalkOfPair(p, p', out[i..]);
    }
    assert out == out[..i] + out[i..];
  }

  lemma WalkOfOneResponse(v: Json, order: seq<Object>)
    requires ForestVisits([v], order)
    ensures Visits(v, order)
  {
    LastResponse([v], order);
  }

  lemma LastResponse(responses: seq<Json>, order: seq<Object>)
    requires |responses| == 1 && ForestVisits(responses, order)
    ensures Visits(responses[0], order)
  {
    var front, last := responses[..|responses| - 1], responses[|responses| - 1];
    var n :| 0 <= n <= |order| && ForestVisits(front, order[..n]) && Visits(last, order[n..]);
    assert front == [] && order[..n] == [];
    assert order == order[..n] + order[n..];
  }

  lemma TwoWalks(read: Reader, root: Object, p: Object, p': Object, q: Object, q': Object, order: seq<Object>)
    requires Swapping(read, root, p, p', q, q') && ForestVisits([Obj(root)], order)
    ensures order == [root, p, p', q, q'] || order == [root, q, q', p, p']
  {
    WalkOfOneResponse(Obj(root), order);
    WalkOfTwoLists(Obj(root), p, p', q, q', order[1..]);
    assert order == [root] + order[1..];
  }

  // ----- The sum. -----

  lemma FirstAppend<T>(pick: Pick<T>, order: seq<Object>, m: Object)
    ensures First(pick, order + [m]) == Earlier(First(pick, order), pick(m))
  {
    assert (order + [m])[..|order|] == order;
  }

  lemma FirstOfTwo<T>(pick: Pick<T>, a: Object, b: Object)
    ensures First(pick, [a, b]) == Earlier(pick(a), pick(b))
  {
    FirstAppend(pick, [], a);
    FirstAppend(pick, [a], b);
    assert [] + [a] == [a] && [a] + [b] == [a, b];
  }

  lemma FirstOfFive<T>(pick: Pick<T>, r: Object, a: Object, b: Object, c: Object, d: Object)
    requires pick(r).None?
    ensures First(pick, [r, a, b, c, d]) == Earlier(Earlier(pick(a), pick(b)), Earlier(pick(c), pick(d)))
  {
    FirstOfTwo(pick, a, b);
    FirstOfTwo(pick, c, d);
    FirstAppend(pick, [], r);
    FirstOfConcat(pick, [] + [r], [a, b]);
    FirstOfConcat(pick, [] + [r] + [a, b], [c, d]);
    assert [] + [r] + [a, b] + [c, d] == [r, a, b, c, d];
  }

  lemma RatesOfWalk(read: Reader, root: Object, p: Object, p': Object, q: Object, q': Object, order: seq<Object>)
    requires Swapping(read, root, p, p', q, q') && (order == [root, p, p', q, q'] || order == [root, q, q', p, p'])
    ensures var t := Fold(read, order);
      NumberAt(t, "k", DownloadBps).Some? && NumberAt(t, "l", DownloadBps).Some?
      && NumberAt(t, "k", DownloadBps).value + NumberAt(t, "l", DownloadBps).value == 3.0
  {
    FirstContributorDecides(read, order, "k");
    FirstContributorDecides(read, order, "l");
    var k, l := NumberPick(read, "k", DownloadBps), NumberPick(read, "l", DownloadBps);
    FirstOfFive(k, root, p, p', q, q');
    FirstOfFive(l, root, p, p', q, q');
    FirstOfFive(k, root, q, q', p, p');
    FirstOfFive(l, root, q, q', p, p');
  }

  lemma KeysOfWalk(read: Reader, root: Object, p: Object, p': Object, q: Object, q': Object, order: seq<Object>)
    requires Swapping(read, root, p, p', q, q') && (order == [root, p, p', q, q'] || order == [root, q, q', p, p'])
    ensures Fold(read, order).Keys == {"k", "l"}
  {
    assert forall m :: m in order <==> m in {root, p, p', q, q'};
    forall key ensures key in Fold(read, order) <==> key == "k" || key == "l" {
      FoldDescribes(read, order, key);
    }
  }

  lemma SumOfTwo(out: seq<Client>, table: Table)
    requires Lists(out, table) && table.Keys == {"k", "l"}
    ensures Total(out, DownloadBps)
      == AddOptional(AddOptional(None, NumberAt(table, "l", DownloadBps)), NumberAt(table, "k", DownloadBps))
  {
    var f := DownloadBps;
    ListingTotals(out, table, table.Keys, f);
    TotalOverPick(table, table.Keys, "k", f);
    assert table.Keys - {"k"} == {"l"};
    TotalOverPick(table, {"l"}, "l", f);
    assert {"l"} - {"l"} == {};
  }

  lemma ThreeFromRates(out: seq<Client>, table: Table)
    requires Lists(out, table) && table.Keys == {"k", "l"}
    requires NumberAt(table, "k", DownloadBps).Some? && NumberAt(table, "l", DownloadBps).Some?
    requires NumberAt(table, "k", DownloadBps).value + NumberAt(table, "l", DownloadBps).value == 3.0
    ensures Total(out, DownloadBps) == Some(3.0)
  {
    SumOfTwo(out, table);
  }

  lemma SumIsThree(read: Reader, root: Object, p: Object, p': Object, q: Object, q': Object, out: seq<Client>)
    requires Swapping(read, root, p, p', q, q') && Extracted(read, [Obj(root)], out)
    ensures Total(out, DownloadBps) == Some(3.0)
  {
    var order := WalkOf(read, [Obj(root)], out);
    TwoWalks(read, root, p, p', q, q', order);
    RatesOfWalk(read, root, p, p', q, q', order);
    KeysOfWalk(read, root, p, p', q, q', order);
    ThreeFromRates(out, Fold(read, order));
  }

  // ----- The numbers. -----

  lemma FirstsOfPair<T(!new)>(pick: Pick<T>, x: Object, y: Object)
    requires Leaf(x) && Leaf(y)
    ensures Firsts(pick, Arr([Obj(x), Obj(y)]))
         == if pick(x).Some? then {pick(x).value} else if pick(y).Some? then {pick(y).value} else {}
  {
    FirstsOfLeaf(pick, x);
    FirstsOfLeaf(pick, y);
    var v := Arr([Obj(x), Obj(y)]);
    assert ItemFirsts(pick, v, 0) == {};
    assert ItemFirsts(pick, v, 1) == Firsts(pick, Obj(x));
  }

  lemma FirstsOfEntries<T(!new)>(pick: Pick<T>, root: Object)
    requires root.Keys == {"a", "b"} && pick(root).None?
    ensures ForestFirsts(pick, [Obj(root)]) == Firsts(pick, root["a"]) + Firsts(pick, root["b"])
  {
    var v := Obj(root);
    assert [v][..0] == [];
    assert Firsts(pick, v) == Firsts(pick, v.fields["a"]) + Firsts(pick, v.fields["b"]);
  }

  lemma BothLoose(read: Reader, root: Object, p: Object, p': Object, q: Object, q': Object, key: string)
    requires Swapping(read, root, p, p', q, q') && (key == "k" || key == "l")
    ensures !NumberFixed(read, [Obj(root)], key, DownloadBps)
  {
    var pick := NumberPick(read, key, DownloadBps);
    FirstsOfEntries(pick, root);
    FirstsOfPair(pick, p, p');
    FirstsOfPair(pick, q, q');
    assert ForestFirsts(pick, [Obj(root)]) == {1.0, 2.0};
  }

  // Both devices' numbers are loose, and yet the sum is fixed.
  lemma TwoLooseNumbersCanCancel(read: Reader, root: Object, p: Object, p': Object, q: Object, q': Object)
    requires Swapping(read, root, p, p', q, q')
    ensures SumFixed(read, [Obj(root)], DownloadBps)
    ensures !NumberFixed(read, [Obj(root)], "k", DownloadBps) && !NumberFixed(read, [Obj(root)], "l", DownloadBps)
  {
    forall a, b | Extracted(read, [Obj(root)], a) && Extracted(read, [Obj(root)], b)
      ensures Total(a, DownloadBps) == Total(b, DownloadBps)
    {
      SumIsThree(read, root, p, p', q, q', a);
      SumIsThree(read, root, p, p', q, q', b);
    }
    BothLoose(read, root, p, p', q, q', "k");
    BothLoose(read, root, p, p', q, q', "l");
  }

  // The service's own reader finds such devices.
  lemma SwappingHappens(parse: Parser) returns (root: Object, p: Object, p': Object, q: Object, q': Object)
    ensures Swapping(ClientReader(parse), root, p, p', q, q')
  {
    TrimSpaceFixpoint("k");
    TrimSpaceFixpoint("l");
    p, p', q, q' := DeviceObject("k", 1.0), DeviceObject("l", 2.0), DeviceObject("k", 2.0), DeviceObject("l", 1.0);
    ReadsDevice(parse, p, "k", 1.0);
    ReadsDevice(parse, p', "l", 2.0);
    ReadsDevice(parse, q, "k", 2.0);
    ReadsDevice(parse, q', "l", 1.0);
    root := TwoLists(parse, p, p', q, q');
  }

  lemma TwoLists(parse: Parser, p: Object, p': Object, q: Object, q': Object) returns (root: Object)
    ensures root.Keys == {"a", "b"} && root["a"] == Arr([Obj(p), Obj(p')]) && root["b"] == Arr([Obj(q), Obj(q')])
    ensures !IsClient(ReadClient(parse, root))
  {
    root := map["a" := Arr([Obj(p), Obj(p')]), "b" := Arr([Obj(q), Obj(q')])];
    ReadsNothing(parse, root);
  }
}
