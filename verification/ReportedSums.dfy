/**
  Which sums a probe can report (tplink.go, collectObjects, mergeClient and sumClients). A walk adds the number
  of an object when it is the first of its client to have one. What a tree can add depends only on the clients
  decided before it, and which ones it decides does not depend on the order; so the possible sums are a set
  defined on the tree, and the reported sum is fixed exactly if there is at most one.
 */
module ReportedSums {
  import opened Basics
  import opened Extraction
  import opened VisitOrder
  import opened RouterSample

  // What an object offers: the client it belongs to, and its number.
  type Offer = Object -> Option<(string, real)>

  function OfferOf(read: Reader, f: NumberField): Offer {
    m =>
      if IsClient(read(m)) && NumberOf(read(m), f).Some?
      then Some((Key(read(m)), NumberOf(read(m), f).value)) else None
  }

  // ----- What a walk adds. -----

  function KeyOffered(offer: Offer, m: Object): set<string> { if offer(m).Some? then {offer(m).value.0} else {} }

  // What m adds once these clients are decided.
  function Adds(offer: Offer, m: Object, decided: set<string>): real {
    if offer(m).Some? && offer(m).value.0 !in decided then offer(m).value.1 else 0.0
  }

  function Decides(offer: Offer, order: seq<Object>): set<string> {
    if order == [] then {} else Decides(offer, order[..|order| - 1]) + KeyOffered(offer, order[|order| - 1])
  }

  function SumOf(offer: Offer, order: seq<Object>, decided: set<string>): real {
    if order == [] then 0.0
    else
      var front := order[..|order| - 1];
      SumOf(offer, front, decided) + Adds(offer, order[|order| - 1], decided + Decides(offer, front))
  }

  lemma {:induction false} DecidesConcat(offer: Offer, a: seq<Object>, b: seq<Object>)
    ensures Decides(offer, a + b) == Decides(offer, a) + Decides(offer, b)
    decreases |b|
  {
    if b == [] {
      assert a + b == a;
    } else {
      var front := b[..|b| - 1];
      DecidesConcat(offer, a, front);
      assert (a + b)[..|a + b| - 1] == a + front;
    }
  }

  lemma {:induction false} SumConcat(offer: Offer, a: seq<Object>, b: seq<Object>, decided: set<string>)
    ensures SumOf(offer, a + b, decided) == SumOf(offer, a, decided) + SumOf(offer, b, decided + Decides(offer, a))
    decreases |b|
  {
    if b == [] {
      assert a + b == a;
    } else {
      var front := b[..|b| - 1];
      SumConcat(offer, a, front, decided);
      DecidesConcat(offer, a, front);
      assert (a + b)[..|a + b| - 1] == a + front;
      assert decided + Decides(offer, a + front) == decided + Decides(offer, a) + Decides(offer, front);
    }
  }

  // ----- What a tree decides and can add. -----

  ghost function KeysIn(offer: Offer, v: Json): set<string>
    decreases v
  {
    match v
    case Obj(fields) => KeyOffered(offer, fields) + FieldKeys(offer, v, fields.Keys)
    case Arr(items) => ItemKeys(offer, v, |items|)
    case _ => {}
  }

  ghost function FieldKeys(offer: Offer, v: Json, keys: set<string>): set<string>
    requires v.Obj? && keys <= v.fields.Keys
    decreases v, |keys|
  {
    set k, c | k in keys && c in KeysIn(offer, v.fields[k]) :: c
  }

  ghost function ItemKeys(offer: Offer, v: Json, n: nat): set<string>
    requires v.Arr? && n <= |v.items|
    decreases v, n
  {
    if n == 0 then {} else ItemKeys(offer, v, n - 1) + KeysIn(offer, v.items[n - 1])
  }

  // One of the first and one of the second.
  ghost function Plus(a: set<real>, b: set<real>): set<real> { set x, y | x in a && y in b :: x + y }

  ghost function Gains(offer: Offer, v: Json, decided: set<string>): set<real>
    decreases v
  {
    match v
    case Obj(fields) =>
      var rest := FieldGains(offer, v, fields.Keys, decided + KeyOffered(offer, fields));
      Plus({Adds(offer, fields, decided)}, rest)
    case Arr(items) => ItemGains(offer, v, |items|, decided)
    case _ => {0.0}
  }

  // Any entry may be first, and the others follow it.
  ghost function FieldGains(offer: Offer, v: Json, keys: set<string>, decided: set<string>): set<real>
    requires v.Obj? && keys <= v.fields.Keys
    decreases v, |keys|
  {
    if keys == {} then {0.0}
    else
      set k, s | k in keys && s in Plus(Gains(offer, v.fields[k], decided),
                                        FieldGains(offer, v, keys - {k}, decided + KeysIn(offer, v.fields[k]))) :: s
  }

  ghost function ItemGains(offer: Offer, v: Json, n: nat, decided: set<string>): set<real>
    requires v.Arr? && n <= |v.items|
    decreases v, n
  {
    if n == 0 then {0.0}
    else
      Plus(ItemGains(offer, v, n - 1, decided), Gains(offer, v.items[n - 1], decided + ItemKeys(offer, v, n - 1)))
  }

  ghost function ForestKeys(offer: Offer, responses: seq<Json>): set<string> {
    if responses == [] then {}
    else ForestKeys(offer, responses[..|responses| - 1]) + KeysIn(offer, responses[|responses| - 1])
  }

  ghost function ForestGains(offer: Offer, responses: seq<Json>): set<real> {
    if responses == [] then {0.0}
    else
      var front, last := responses[..|responses| - 1], responses[|responses| - 1];
      Plus(ForestGains(offer, front), Gains(offer, last, ForestKeys(offer, front)))
  }

  // ----- Every walk decides the same. -----

  lemma OneAdds(offer: Offer, m: Object, decided: set<string>)
    ensures Decides(offer, [m]) == KeyOffered(offer, m) && SumOf(offer, [m], decided) == Adds(offer, m, decided)
  {
    var order := [m];
    assert order[..0] == [];
    assert decided + {} == decided;
  }

  lemma Halves(out: seq<Object>, i: nat)
    requires i <= |out|
    ensures out[..i] + out[i..] == out
  {
  }

  lemma {:induction false} WalkDecides(offer: Offer, v: Json, out: seq<Object>)
    requires Visits(v, out)
    ensures Decides(offer, out) == KeysIn(offer, v)
    decreases v
  {
    match v
    case Obj(fields) =>
      var below := out[1..];
      FieldWalkDecides(offer, v, fields.Keys, below);
      OneAdds(offer, fields, {});
      DecidesConcat(offer, [fields], below);
      assert out == [fields] + below;
    case Arr(items) => ItemWalkDecides(offer, v, |items|, out);
    case _ =>
  }

  lemma FieldKeysPick(offer: Offer, v: Json, keys: set<string>, k: string)
    requires v.Obj? && keys <= v.fields.Keys && k in keys
    ensures FieldKeys(offer, v, keys) == KeysIn(offer, v.fields[k]) + FieldKeys(offer, v, keys - {k})
  {
  }

  lemma {:induction false} FieldWalkDecides(offer: Offer, v: Json, keys: set<string>, out: seq<Object>)
    requires v.Obj? && keys <= v.fields.Keys && FieldVisits(v, keys, out)
    ensures Decides(offer, out) == FieldKeys(offer, v, keys)
    decreases v, |keys|
  {
    if keys != {} {
      var k, i :| k in keys && 0 <= i <= |out| && Visits(v.fields[k], out[..i]) && FieldVisits(v, keys - {k}, out[i..]);
      WalkDecides(offer, v.fields[k], out[..i]);
      FieldWalkDecides(offer, v, keys - {k}, out[i..]);
      FieldKeysPick(offer, v, keys, k);
      Halves(out, i);
      DecidesConcat(offer, out[..i], out[i..]);
    }
  }

  lemma {:induction false} ItemWalkDecides(offer: Offer, v: Json, n: nat, out: seq<Object>)
    requires v.Arr? && n <= |v.items| && ItemVisits(v, n, out)
    ensures Decides(offer, out) == ItemKeys(offer, v, n)
    decreases v, n
  {
    if n > 0 {
      var i :| 0 <= i <= |out| && ItemVisits(v, n - 1, out[..i]) && Visits(v.items[n - 1], out[i..]);
      ItemWalkDecides(offer, v, n - 1, out[..i]);
      WalkDecides(offer, v.items[n - 1], out[i..]);
      Halves(out, i);
      DecidesConcat(offer, out[..i], out[i..]);
    }
  }

  lemma {:induction false} ForestWalkDecides(offer: Offer, responses: seq<Json>, out: seq<Object>)
    requires ForestVisits(responses, out)
    ensures Decides(offer, out) == ForestKeys(offer, responses)
  {
    if responses != [] {
      var front, last := responses[..|responses| - 1], responses[|responses| - 1];
      var i :| 0 <= i <= |out| && ForestVisits(front, out[..i]) && Visits(last, out[i..]);
      ForestWalkDecides(offer, front, out[..i]);
      WalkDecides(offer, last, out[i..]);
      Halves(out, i);
      DecidesConcat(offer, out[..i], out[i..]);
    }
  }

  // ----- No walk adds anything else. -----

  lemma HeadAdds(offer: Offer, m: Object, below: seq<Object>, decided: set<string>)
    ensures SumOf(offer, [m] + below, decided)
         == Adds(offer, m, decided) + SumOf(offer, below, decided + KeyOffered(offer, m))
  {
    OneAdds(offer, m, decided);
    SumConcat(offer, [m], below, decided);
  }

  lemma {:induction false} WalkAdds(offer: Offer, v: Json, out: seq<Object>, decided: set<string>)
    requires Visits(v, out)
    ensures SumOf(offer, out, decided) in Gains(offer, v, decided)
    decreases v
  {
    match v
    case Obj(fields) =>
      var below := out[1..];
      FieldWalkAdds(offer, v, fields.Keys, below, decided + KeyOffered(offer, fields));
      HeadAdds(offer, fields, below, decided);
      assert out == [fields] + below;
    case Arr(items) => ItemWalkAdds(offer, v, |items|, out, decided);
    case _ =>
  }

  // What two parts of a walk add, when the first decides these keys.
  lemma PartsAdd(offer: Offer, a: seq<Object>, b: seq<Object>, decided: set<string>, keys: set<string>,
                 first: set<real>, second: set<real>)
    requires Decides(offer, a) == keys
    requires SumOf(offer, a, decided) in first && SumOf(offer, b, decided + keys) in second
    ensures SumOf(offer, a + b, decided) in Plus(first, second)
  {
    SumConcat(offer, a, b, decided);
  }

  lemma FieldPartsAdd(offer: Offer, v: Json, keys: set<string>, k: string, first: seq<Object>, rest: seq<Object>,
                      decided: set<string>)
    requires v.Obj? && keys <= v.fields.Keys && k in keys && Decides(offer, first) == KeysIn(offer, v.fields[k])
    requires SumOf(offer, first, decided) in Gains(offer, v.fields[k], decided)
    requires SumOf(offer, rest, decided + KeysIn(offer, v.fields[k]))
          in FieldGains(offer, v, keys - {k}, decided + KeysIn(offer, v.fields[k]))
    ensures SumOf(offer, first + rest, decided) in FieldGains(offer, v, keys, decided)
  {
    var after := decided + KeysIn(offer, v.fields[k]);
    PartsAdd(offer, first, rest, decided, KeysIn(offer, v.fields[k]),
             Gains(offer, v.fields[k], decided), FieldGains(offer, v, keys - {k}, after));
  }

  lemma {:induction false} FieldWalkAdds(offer: Offer, v: Json, keys: set<string>, out: seq<Object>,
                                         decided: set<string>)
    requires v.Obj? && keys <= v.fields.Keys && FieldVisits(v, keys, out)
    ensures SumOf(offer, out, decided) in FieldGains(offer, v, keys, decided)
    decreases v, |keys|
  {
    if keys != {} {
      var k, i :| k in keys && 0 <= i <= |out| && Visits(v.fields[k], out[..i]) && FieldVisits(v, keys - {k}, out[i..]);
      WalkDecides(offer, v.fields[k], out[..i]);
      WalkAdds(offer, v.fields[k], out[..i], decided);
      FieldWalkAdds(offer, v, keys - {k}, out[i..], decided + KeysIn(offer, v.fields[k]));
      FieldPartsAdd(offer, v, keys, k, out[..i], out[i..], decided);
      Halves(out, i);
    }
  }

  lemma {:induction false} ItemWalkAdds(offer: Offer, v: Json, n: nat, out: seq<Object>, decided: set<string>)
    requires v.Arr? && n <= |v.items| && ItemVisits(v, n, out)
    ensures SumOf(offer, out, decided) in ItemGains(offer, v, n, decided)
    decreases v, n
  {
    if n > 0 {
      var i :| 0 <= i <= |out| && ItemVisits(v, n - 1, out[..i]) && Visits(v.items[n - 1], out[i..]);
      var after := decided + ItemKeys(offer, v, n - 1);
      ItemWalkDecides(offer, v, n - 1, out[..i]);
      ItemWalkAdds(offer, v, n - 1, out[..i], decided);
      WalkAdds(offer, v.items[n - 1], out[i..], after);
      PartsAdd(offer, out[..i], out[i..], decided, ItemKeys(offer, v, n - 1),
               ItemGains(offer, v, n - 1, decided), Gains(offer, v.items[n - 1], after));
      Halves(out, i);
    }
  }

  lemma {:induction false} ForestWalkAdds(offer: Offer, responses: seq<Json>, out: seq<Object>)
    requires ForestVisits(responses, out)
    ensures SumOf(offer, out, {}) in ForestGains(offer, responses)
  {
    if responses != [] {
      var front, last := responses[..|responses| - 1], responses[|responses| - 1];
      var i :| 0 <= i <= |out| && ForestVisits(front, out[..i]) && Visits(last, out[i..]);
      var after := ForestKeys(offer, front);
      ForestWalkDecides(offer, front, out[..i]);
      ForestWalkAdds(offer, front, out[..i]);
      WalkAdds(offer, last, out[i..], after);
      assert {} + after == after;
      PartsAdd(offer, out[..i], out[i..], {}, after, ForestGains(offer, front), Gains(offer, last, after));
      Halves(out, i);
    }
  }

  // ----- And everything a tree can add is added by some walk. -----

  lemma {:induction false} WalkAdding(offer: Offer, v: Json, decided: set<string>, s: real) returns (out: seq<Object>)
    requires s in Gains(offer, v, decided)
    ensures Visits(v, out) && SumOf(offer, out, decided) == s
    decreases v
  {
    match v
    case Obj(fields) =>
      var after := decided + KeyOffered(offer, fields);
      var own := Adds(offer, fields, decided);
      var x, y :| x in {own} && y in FieldGains(offer, v, fields.Keys, after) && s == x + y;
      var below := FieldWalkAdding(offer, v, fields.Keys, after, y);
      HeadAdds(offer, fields, below, decided);
      out := [fields] + below;
      assert out[1..] == below;
    case Arr(items) => out := ItemWalkAdding(offer, v, |items|, decided, s);
    case _ => out := [];
  }

  lemma {:induction false} FieldWalkAdding(offer: Offer, v: Json, keys: set<string>, decided: set<string>, s: real)
    returns (out: seq<Object>)
    requires v.Obj? && keys <= v.fields.Keys && s in FieldGains(offer, v, keys, decided)
    ensures FieldVisits(v, keys, out) && SumOf(offer, out, decided) == s
    decreases v, |keys|
  {
    if keys == {} {
      out := [];
    } else {
      var k, x, y := FieldGainsParts(offer, v, keys, decided, s);
      var first := WalkAdding(offer, v.fields[k], decided, x);
      WalkDecides(offer, v.fields[k], first);
      var rest := FieldWalkAdding(offer, v, keys - {k}, decided + KeysIn(offer, v.fields[k]), y);
      FieldVisitsCons(v, keys, k, first, rest);
      SumConcat(offer, first, rest, decided);
      out := first + rest;
    }
  }

  lemma FieldGainsParts(offer: Offer, v: Json, keys: set<string>, decided: set<string>, s: real)
    returns (k: string, x: real, y: real)
    requires v.Obj? && keys <= v.fields.Keys && keys != {} && s in FieldGains(offer, v, keys, decided)
    ensures k in keys && s == x + y && x in Gains(offer, v.fields[k], decided)
    ensures y in FieldGains(offer, v, keys - {k}, decided + KeysIn(offer, v.fields[k]))
  {
    k :| k in keys && s in Plus(Gains(offer, v.fields[k], decided),
                                FieldGains(offer, v, keys - {k}, decided + KeysIn(offer, v.fields[k])));
    var after := decided + KeysIn(offer, v.fields[k]);
    x, y :| x in Gains(offer, v.fields[k], decided) && y in FieldGains(offer, v, keys - {k}, after) && s == x + y;
  }

  lemma {:induction false} ItemWalkAdding(offer: Offer, v: Json, n: nat, decided: set<string>, s: real)
    returns (out: seq<Object>)
    requires v.Arr? && n <= |v.items| && s in ItemGains(offer, v, n, decided)
    ensures ItemVisits(v, n, out) && SumOf(offer, out, decided) == s
    decreases v, n
  {
    if n == 0 {
      out := [];
    } else {
      var after := decided + ItemKeys(offer, v, n - 1);
      var x, y :| x in ItemGains(offer, v, n - 1, decided) && y in Gains(offer, v.items[n - 1], after) && s == x + y;
      var before := ItemWalkAdding(offer, v, n - 1, decided, x);
      ItemWalkDecides(offer, v, n - 1, before);
      var below := WalkAdding(offer, v.items[n - 1], after, y);
      ItemVisitsAppend(v, n - 1, before, below);
      SumConcat(offer, before, below, decided);
      out := before + below;
    }
  }

  lemma {:induction false} ForestWalkAdding(offer: Offer, responses: seq<Json>, s: real) returns (out: seq<Object>)
    requires s in ForestGains(offer, responses)
    ensures ForestVisits(responses, out) && SumOf(offer, out, {}) == s
  {
    if responses == [] {
      out := [];
    } else {
      var front, last := responses[..|responses| - 1], responses[|responses| - 1];
      var after := ForestKeys(offer, front);
      var x, y :| x in ForestGains(offer, front) && y in Gains(offer, last, after) && s == x + y;
      var before := ForestWalkAdding(offer, front, x);
      ForestWalkDecides(offer, front, before);
      var below := WalkAdding(offer, last, after, y);
      ForestVisitsAppend(front, last, before, below);
      assert front + [last] == responses;
      SumConcat(offer, before, below, {});
      assert {} + Decides(offer, before) == after;
      out := before + below;
    }
  }

  // ----- The reported sum is what the walk adds. -----

  function Value(x: Option<real>): real { if x.Some? then x.value else 0.0 }

  lemma ValueOfSum(a: Option<real>, b: Option<real>)
    ensures Value(AddOptional(a, b)) == Value(a) + Value(b)
  {
  }

  ghost function TableSum(table: Table, f: NumberField): real { Value(TotalOver(table, table.Keys, f)) }

  lemma {:induction false} DecidedHaveNumbers(read: Reader, order: seq<Object>, f: NumberField, key: string)
    ensures key in Decides(OfferOf(read, f), order) <==> NumberAt(Fold(read, order), key, f).Some?
  {
    if order != [] {
      var front, m := order[..|order| - 1], order[|order| - 1];
      DecidedHaveNumbers(read, front, f, key);
      AbsorbDecides(read, Fold(read, front), m, key);
    }
  }

  // Only the number of one key may change.
  lemma ChangeOfOne(t: Table, u: Table, key: string, f: NumberField)
    requires t.Keys + {key} == u.Keys
    requires forall k :: k in t && k != key ==> NumberOf(t[k], f) == NumberOf(u[k], f)
    ensures TableSum(u, f) == TableSum(t, f) - Value(NumberAt(t, key, f)) + Value(NumberAt(u, key, f))
  {
    var others := t.Keys - {key};
    assert u.Keys - {key} == others;
    EqualNumbersEqualTotals(t, u, others, f);
    TotalOverPick(u, u.Keys, key, f);
    ValueOfSum(TotalOver(u, others, f), NumberOf(u[key], f));
    if key in t {
      TotalOverPick(t, t.Keys, key, f);
      ValueOfSum(TotalOver(t, others, f), NumberOf(t[key], f));
    } else {
      assert others == t.Keys;
    }
  }

  lemma AbsorbAdds(read: Reader, table: Table, m: Object, decided: set<string>, f: NumberField)
    requires forall key :: key in decided <==> NumberAt(table, key, f).Some?
    ensures TableSum(Absorb(read, table, m), f) == TableSum(table, f) + Adds(OfferOf(read, f), m, decided)
  {
    if IsClient(read(m)) {
      var key, after := Key(read(m)), Absorb(read, table, m);
      ChangeOfOne(table, after, key, f);
      AbsorbDecides(read, table, m, key);
      assert NumberAt(after, key, f) == Earlier(NumberAt(table, key, f), NumberOf(read(m), f));
    }
  }

  lemma {:induction false} FoldAdds(read: Reader, order: seq<Object>, f: NumberField)
    ensures TableSum(Fold(read, order), f) == SumOf(OfferOf(read, f), order, {})
  {
    if order != [] {
      var front, m := order[..|order| - 1], order[|order| - 1];
      var decided := Decides(OfferOf(read, f), front);
      FoldAdds(read, front, f);
      forall key ensures key in decided <==> NumberAt(Fold(read, front), key, f).Some? {
        DecidedHaveNumbers(read, front, f, key);
      }
      AbsorbAdds(read, Fold(read, front), m, decided, f);
      assert {} + decided == decided;
    }
  }

  lemma ListAdds(read: Reader, order: seq<Object>, out: seq<Client>, f: NumberField)
    requires Lists(out, Fold(read, order))
    ensures Value(Total(out, f)) == SumOf(OfferOf(read, f), order, {})
  {
    ListingTotals(out, Fold(read, order), Fold(read, order).Keys, f);
    FoldAdds(read, order, f);
  }

  // ----- The results. -----

  // The sums that can be reported, for any number of clients reported any number of times.
  ghost function PossibleSums(read: Reader, responses: seq<Json>, f: NumberField): set<real> {
    ForestGains(OfferOf(read, f), responses)
  }

  lemma ReportedSumIsPossible(read: Reader, responses: seq<Json>, out: seq<Client>, f: NumberField)
    requires Extracted(read, responses, out)
    ensures Value(Total(out, f)) in PossibleSums(read, responses, f)
  {
    var order := WalkOf(read, responses, out);
    ListAdds(read, order, out, f);
    ForestWalkAdds(OfferOf(read, f), responses, order);
  }

  lemma PossibleSumIsReported(read: Reader, responses: seq<Json>, f: NumberField, s: real) returns (out: seq<Client>)
    requires s in PossibleSums(read, responses, f)
    ensures Extracted(read, responses, out) && Value(Total(out, f)) == s
  {
    var order := ForestWalkAdding(OfferOf(read, f), responses, s);
    out := WalkIsExtracted(read, responses, order);
    ListAdds(read, order, out, f);
  }

  // The sums reported by some extraction are exactly those the responses can add.
  lemma ReportedSumsExactly(read: Reader, responses: seq<Json>, f: NumberField, s: real)
    ensures s in PossibleSums(read, responses, f)
       <==> exists out :: Extracted(read, responses, out) && Value(Total(out, f)) == s
  {
    if s in PossibleSums(read, responses, f) {
      var out := PossibleSumIsReported(read, responses, f, s);
    }
    if out :| Extracted(read, responses, out) && Value(Total(out, f)) == s {
      ReportedSumIsPossible(read, responses, out, f);
    }
  }

  // The reported sum is the same in all extractions exactly if there is at most one such sum.
  lemma SumFixedExactly(read: Reader, responses: seq<Json>, f: NumberField)
    ensures SumFixed(read, responses, f) <==> |PossibleSums(read, responses, f)| <= 1
  {
    var sums := PossibleSums(read, responses, f);
    if |sums| <= 1 {
      forall a, b | Extracted(read, responses, a) && Extracted(read, responses, b) ensures Total(a, f) == Total(b, f) {
        ReportedSumIsPossible(read, responses, a, f);
        ReportedSumIsPossible(read, responses, b, f);
        AtMostOne(sums, Value(Total(a, f)), Value(Total(b, f)));
        ExtractionsAgree(read, responses, a, b, f);
      }
    } else {
      var x, y := TwoOf(sums);
      var a := PossibleSumIsReported(read, responses, f, x);
      var b := PossibleSumIsReported(read, responses, f, y);
    }
  }

  // ----- The sample. -----

  lemma TotalIsThereIfTableHas(out: seq<Client>, table: Table, f: NumberField)
    requires Lists(out, table)
    ensures Total(out, f).Some? <==> SomeKeyHas(table, f)
  {
    ListingPresence(out, table, f);
    TotalPresent(out, f);
  }

  lemma TotalIsPossible(read: Reader, responses: seq<Json>, out: seq<Client>, f: NumberField)
    requires Extracted(read, responses, out)
    ensures Total(out, f).Some? <==> SomeObjectHas(read, ForestObjects(responses), f)
    ensures Total(out, f).Some? ==> Total(out, f).value in PossibleSums(read, responses, f)
  {
    var order := WalkOf(read, responses, out);
    TableHasWhatObjectsHave(read, order, f);
    TotalIsThereIfTableHas(out, Fold(read, order), f);
    ReportedSumIsPossible(read, responses, out, f);
  }

  lemma SampleRates(out: seq<Client>)
    ensures var s, total := SampleOf(out), Total(out, TotalBps);
      && s.downloadBps == Total(out, DownloadBps) && s.uploadBps == Total(out, UploadBps)
      && (total.Some? ==> s.totalBps == total)
      && (total.None? ==> s.totalBps == if s.downloadBps.Some? && s.uploadBps.Some?
                                        then Some(s.downloadBps.value + s.uploadBps.value) else None)
  {
  }

  // The rates of a sample, said of the objects in the responses: each is one of the sums possible for its own
  // field, present exactly if an object has that field; without any total rate the total is the sum of the
  // other two, if both are there.
  lemma SampleSumsExactly(read: Reader, responses: seq<Json>, out: seq<Client>)
    requires Extracted(read, responses, out)
    ensures var s, objects := SampleOf(out), ForestObjects(responses);
      && (s.downloadBps.Some? <==> SomeObjectHas(read, objects, DownloadBps))
      && (s.downloadBps.Some? ==> s.downloadBps.value in PossibleSums(read, responses, DownloadBps))
      && (s.uploadBps.Some? <==> SomeObjectHas(read, objects, UploadBps))
      && (s.uploadBps.Some? ==> s.uploadBps.value in PossibleSums(read, responses, UploadBps))
      && (if SomeObjectHas(read, objects, TotalBps)
          then s.totalBps.Some? && s.totalBps.value in PossibleSums(read, responses, TotalBps)
          else if s.downloadBps.Some? && s.uploadBps.Some?
          then s.totalBps == Some(s.downloadBps.value + s.uploadBps.value)
          else s.totalBps.None?)
  {
    TotalIsPossible(read, responses, out, DownloadBps);
    TotalIsPossible(read, responses, out, UploadBps);
    TotalIsPossible(read, responses, out, TotalBps);
    SampleRates(out);
  }
}
