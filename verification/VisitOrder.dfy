/**
  Which reported values depend on Go's map order (tplink.go, collectObjects and the loop of ExtractClients). A field of
  a client is the one its first contributor has, so the values that can be reported are those of the objects
  that can come first; a value is fixed exactly if there is at most one.
 */
module VisitOrder {
  import opened Basics
  import opened Extraction

  // ----- The first of a walk. -----

  // What an object offers, if anything.
  type Pick<!T> = Object -> Option<T>

  function Earlier<T>(a: Option<T>, b: Option<T>): Option<T> { if a.None? then b else a }

  function First<T>(pick: Pick<T>, order: seq<Object>): Option<T> {
    if order == [] then None else Earlier(First(pick, order[..|order| - 1]), pick(order[|order| - 1]))
  }

  lemma {:induction false} FirstOfConcat<T>(pick: Pick<T>, a: seq<Object>, b: seq<Object>)
    ensures First(pick, a + b) == Earlier(First(pick, a), First(pick, b))
    decreases |b|
  {
    if b == [] {
      assert a + b == a;
    } else {
      var front := b[..|b| - 1];
      FirstOfConcat(pick, a, front);
      assert (a + b)[..|a + b| - 1] == a + front;
    }
  }

  // ----- What can come first. -----

  // The object itself if it offers something, else what can come first below any of its entries; for an array,
  // what can come first in its first item that offers anything.
  ghost function Firsts<T(!new)>(pick: Pick<T>, v: Json): set<T>
    decreases v
  {
    match v
    case Obj(fields) =>
      if pick(fields).Some? then {pick(fields).value}
      else set k, x | k in v.fields.Keys && x in Firsts(pick, v.fields[k]) :: x
    case Arr(items) => ItemFirsts(pick, v, |items|)
    case _ => {}
  }

  ghost function ItemFirsts<T(!new)>(pick: Pick<T>, v: Json, n: nat): set<T>
    requires v.Arr? && n <= |v.items|
    decreases v, n
  {
    if n == 0 then {}
    else
      var before := ItemFirsts(pick, v, n - 1);
      if before != {} then before else Firsts(pick, v.items[n - 1])
  }

  ghost function ForestFirsts<T(!new)>(pick: Pick<T>, responses: seq<Json>): set<T> {
    if responses == [] then {}
    else
      var before := ForestFirsts(pick, responses[..|responses| - 1]);
      if before != {} then before else Firsts(pick, responses[|responses| - 1])
  }

  // A walk finds something iff something can come first, and finds one of the values that can.
  ghost predicate Finds<T(!new)>(found: Option<T>, possible: set<T>) {
    if found.None? then possible == {} else found.value in possible
  }

  // ----- No walk finds anything else. -----

  lemma {:induction false} WalkFinds<T(!new)>(pick: Pick<T>, v: Json, out: seq<Object>)
    requires Visits(v, out)
    ensures Finds(First(pick, out), Firsts(pick, v))
    decreases v
  {
    match v
    case Obj(fields) =>
      FieldWalkFinds(pick, v, fields.Keys, out[1..]);
      FirstOfConcat(pick, out[..1], out[1..]);
      assert out == out[..1] + out[1..] && out[..1][..0] == [] && First(pick, out[..1]) == pick(fields);
    case Arr(items) => ItemWalkFinds(pick, v, |items|, out);
    case _ =>
  }

  ghost function FieldFirsts<T(!new)>(pick: Pick<T>, v: Json, keys: set<string>): set<T>
    requires v.Obj? && keys <= v.fields.Keys
  {
    set k, x | k in keys && x in Firsts(pick, v.fields[k]) :: x
  }

  lemma {:induction false} FieldWalkFinds<T(!new)>(pick: Pick<T>, v: Json, keys: set<string>, out: seq<Object>)
    requires v.Obj? && keys <= v.fields.Keys && FieldVisits(v, keys, out)
    ensures Finds(First(pick, out), FieldFirsts(pick, v, keys))
    decreases v, |keys|
  {
    if keys != {} {
      var k, i :| k in keys && 0 <= i <= |out| && Visits(v.fields[k], out[..i]) && FieldVisits(v, keys - {k}, out[i..]);
      WalkFinds(pick, v.fields[k], out[..i]);
      FieldWalkFinds(pick, v, keys - {k}, out[i..]);
      FirstOfConcat(pick, out[..i], out[i..]);
      assert out == out[..i] + out[i..];
      FieldFirstsPick(pick, v, keys, k);
    }
  }

  lemma FieldFirstsPick<T(!new)>(pick: Pick<T>, v: Json, keys: set<string>, k: string)
    requires v.Obj? && keys <= v.fields.Keys && k in keys
    ensures FieldFirsts(pick, v, keys) == Firsts(pick, v.fields[k]) + FieldFirsts(pick, v, keys - {k})
  {
  }

  lemma {:induction false} ItemWalkFinds<T(!new)>(pick: Pick<T>, v: Json, n: nat, out: seq<Object>)
    requires v.Arr? && n <= |v.items| && ItemVisits(v, n, out)
    ensures Finds(First(pick, out), ItemFirsts(pick, v, n))
    decreases v, n
  {
    if n > 0 {
      var i :| 0 <= i <= |out| && ItemVisits(v, n - 1, out[..i]) && Visits(v.items[n - 1], out[i..]);
      ItemWalkFinds(pick, v, n - 1, out[..i]);
      WalkFinds(pick, v.items[n - 1], out[i..]);
      FirstOfConcat(pick, out[..i], out[i..]);
      assert out == out[..i] + out[i..];
    }
  }

  lemma {:induction false} ForestWalkFinds<T(!new)>(pick: Pick<T>, responses: seq<Json>, out: seq<Object>)
    requires ForestVisits(responses, out)
    ensures Finds(First(pick, out), ForestFirsts(pick, responses))
  {
    if responses != [] {
      var front, last := responses[..|responses| - 1], responses[|responses| - 1];
      var i :| 0 <= i <= |out| && ForestVisits(front, out[..i]) && Visits(last, out[i..]);
      ForestWalkFinds(pick, front, out[..i]);
      WalkFinds(pick, last, out[i..]);
      FirstOfConcat(pick, out[..i], out[i..]);
      assert out == out[..i] + out[i..];
    }
  }

  // ----- And every value that can come first is found by some walk. -----

  lemma {:induction false} SomeWalk(v: Json) returns (out: seq<Object>)
    ensures Visits(v, out)
    decreases v
  {
    match v
    case Obj(fields) =>
      var below := SomeFieldWalk(v, fields.Keys);
      out := [fields] + below;
      assert out[1..] == below;
    case Arr(items) => out := SomeItemWalk(v, |items|);
    case _ => out := [];
  }

  lemma {:induction false} SomeFieldWalk(v: Json, keys: set<string>) returns (out: seq<Object>)
    requires v.Obj? && keys <= v.fields.Keys
    ensures FieldVisits(v, keys, out)
    decreases v, |keys|
  {
    if keys == {} {
      out := [];
    } else {
      var k :| k in keys;
      var below := SomeWalk(v.fields[k]);
      var rest := SomeFieldWalk(v, keys - {k});
      FieldVisitsCons(v, keys, k, below, rest);
      out := below + rest;
    }
  }

  lemma {:induction false} SomeItemWalk(v: Json, n: nat) returns (out: seq<Object>)
    requires v.Arr? && n <= |v.items|
    ensures ItemVisits(v, n, out)
    decreases v, n
  {
    if n == 0 {
      out := [];
    } else {
      var before := SomeItemWalk(v, n - 1);
      var below := SomeWalk(v.items[n - 1]);
      ItemVisitsAppend(v, n - 1, before, below);
      out := before + below;
    }
  }

  // The walk takes the entry that can offer x before all others.
  lemma {:induction false} WalkWith<T(!new)>(pick: Pick<T>, v: Json, x: T) returns (out: seq<Object>)
    requires x in Firsts(pick, v)
    ensures Visits(v, out) && First(pick, out) == Some(x)
    decreases v
  {
    match v
    case Obj(fields) =>
      var below;
      if pick(fields).Some? {
        below := SomeFieldWalk(v, fields.Keys);
      } else {
        var k :| k in v.fields.Keys && x in Firsts(pick, v.fields[k]);
        var first := WalkWith(pick, v.fields[k], x);
        var rest := SomeFieldWalk(v, fields.Keys - {k});
        FieldVisitsCons(v, fields.Keys, k, first, rest);
        FirstOfConcat(pick, first, rest);
        below := first + rest;
      }
      out := [fields] + below;
      FirstOfConcat(pick, [fields], below);
      assert out[1..] == below && [fields][..0] == [] && First(pick, [fields]) == pick(fields);
    case Arr(items) => out := ItemWalkWith(pick, v, |items|, x);
  }

  lemma {:induction false} ItemWalkWith<T(!new)>(pick: Pick<T>, v: Json, n: nat, x: T) returns (out: seq<Object>)
    requires v.Arr? && n <= |v.items| && x in ItemFirsts(pick, v, n)
    ensures ItemVisits(v, n, out) && First(pick, out) == Some(x)
    decreases v, n
  {
    var before, below;
    if ItemFirsts(pick, v, n - 1) != {} {
      before := ItemWalkWith(pick, v, n - 1, x);
      below := SomeWalk(v.items[n - 1]);
    } else {
      before := SomeItemWalk(v, n - 1);
      ItemWalkFinds(pick, v, n - 1, before);
      below := WalkWith(pick, v.items[n - 1], x);
    }
    ItemVisitsAppend(v, n - 1, before, below);
    FirstOfConcat(pick, before, below);
    out := before + below;
  }

  lemma {:induction false} SomeForestWalk(responses: seq<Json>) returns (out: seq<Object>)
    ensures ForestVisits(responses, out)
  {
    if responses == [] {
      out := [];
    } else {
      var front, last := responses[..|responses| - 1], responses[|responses| - 1];
      var before := SomeForestWalk(front);
      var below := SomeWalk(last);
      ForestVisitsAppend(front, last, before, below);
      assert front + [last] == responses;
      out := before + below;
    }
  }

  lemma {:induction false} ForestWalkWith<T(!new)>(pick: Pick<T>, responses: seq<Json>, x: T) returns (out: seq<Object>)
    requires x in ForestFirsts(pick, responses)
    ensures ForestVisits(responses, out) && First(pick, out) == Some(x)
  {
    var front, last := responses[..|responses| - 1], responses[|responses| - 1];
    var before, below;
    if ForestFirsts(pick, front) != {} {
      before := ForestWalkWith(pick, front, x);
      below := SomeWalk(last);
    } else {
      before := SomeForestWalk(front);
      ForestWalkFinds(pick, front, before);
      below := WalkWith(pick, last, x);
    }
    ForestVisitsAppend(front, last, before, below);
    assert front + [last] == responses;
    FirstOfConcat(pick, before, below);
    out := before + below;
  }

  // ----- Fields of the clients. -----

  function NumberPick(read: Reader, key: string, f: NumberField): Pick<real> {
    m => if Contributes(read, m, key) then NumberOf(read(m), f) else None
  }

  function TextPick(read: Reader, key: string, f: TextField): Pick<string> {
    m => if Contributes(read, m, key) && TextOf(read(m), f) != "" then Some(TextOf(read(m), f)) else None
  }

  function NumberAt(table: Table, key: string, f: NumberField): Option<real> {
    if key in table then NumberOf(table[key], f) else None
  }

  function TextAt(table: Table, key: string, f: TextField): Option<string> {
    if key in table && TextOf(table[key], f) != "" then Some(TextOf(table[key], f)) else None
  }

  // The first contributor that has a field decides it.
  lemma {:induction false} FirstContributorDecides(read: Reader, order: seq<Object>, key: string)
    ensures forall f :: NumberAt(Fold(read, order), key, f) == First(NumberPick(read, key, f), order)
    ensures forall f :: TextAt(Fold(read, order), key, f) == First(TextPick(read, key, f), order)
  {
    if order != [] {
      var before, m := order[..|order| - 1], order[|order| - 1];
      FirstContributorDecides(read, before, key);
      AbsorbDecides(read, Fold(read, before), m, key);
    }
  }

  lemma AbsorbDecides(read: Reader, table: Table, m: Object, key: string)
    ensures forall f ::
      NumberAt(Absorb(read, table, m), key, f) == Earlier(NumberAt(table, key, f), NumberPick(read, key, f)(m))
    ensures forall f ::
      TextAt(Absorb(read, table, m), key, f) == Earlier(TextAt(table, key, f), TextPick(read, key, f)(m))
  {
    if Contributes(read, m, key) {
      MergeFields(if key in table then table[key] else NO_CLIENT, read(m));
    }
  }

  // The client of a key in a list, if there is one.
  ghost function NumberIn(out: seq<Client>, key: string, f: NumberField): Option<real> {
    if HasKey(out, key) then
      var i :| 0 <= i < |out| && Key(out[i]) == key;
      NumberOf(out[i], f)
    else None
  }

  ghost function TextIn(out: seq<Client>, key: string, f: TextField): Option<string> {
    if HasKey(out, key) then
      var i :| 0 <= i < |out| && Key(out[i]) == key;
      if TextOf(out[i], f) != "" then Some(TextOf(out[i], f)) else None
    else None
  }

  lemma ListedFields(out: seq<Client>, table: Table, key: string)
    requires Lists(out, table)
    ensures forall f :: NumberIn(out, key, f) == NumberAt(table, key, f)
    ensures forall f :: TextIn(out, key, f) == TextAt(table, key, f)
  {
    assert HasKey(out, key) <==> key in table;
  }

  lemma {:induction false} SomeListing(table: Table, keys: set<string>) returns (out: seq<Client>)
    requires keys <= table.Keys && forall key :: key in table ==> Key(table[key]) == key
    ensures forall i :: 0 <= i < |out| ==> Key(out[i]) in keys && table[Key(out[i])] == out[i]
    ensures forall i, j :: 0 <= i < j < |out| ==> Key(out[i]) != Key(out[j])
    ensures forall key :: key in keys ==> HasKey(out, key)
    decreases |keys|
  {
    if keys == {} {
      out := [];
    } else {
      var key :| key in keys;
      var before := SomeListing(table, keys - {key});
      HasKeyAppend(before, table[key]);
      out := before + [table[key]];
    }
  }

  // Every walk is the walk of some extraction.
  lemma WalkIsExtracted(read: Reader, responses: seq<Json>, order: seq<Object>) returns (out: seq<Client>)
    requires ForestVisits(responses, order)
    ensures Lists(out, Fold(read, order)) && Extracted(read, responses, out)
  {
    var table := Fold(read, order);
    forall key | key in table ensures Key(table[key]) == key {
      FoldDescribes(read, order, key);
    }
    out := SomeListing(table, table.Keys);
  }

  // ----- The results. -----

  // The numbers some extraction reports for a client are exactly those of the objects that can come first.
  lemma ReportedNumbersExactly(read: Reader, responses: seq<Json>, key: string, f: NumberField, x: real)
    ensures x in ForestFirsts(NumberPick(read, key, f), responses)
       <==> exists out :: Extracted(read, responses, out) && NumberIn(out, key, f) == Some(x)
  {
    var pick := NumberPick(read, key, f);
    if x in ForestFirsts(pick, responses) {
      var order := ForestWalkWith(pick, responses, x);
      var out := WalkIsExtracted(read, responses, order);
      FirstContributorDecides(read, order, key);
      ListedFields(out, Fold(read, order), key);
    }
    if out :| Extracted(read, responses, out) && NumberIn(out, key, f) == Some(x) {
      ExtractedNumber(read, responses, out, key, f);
    }
  }

  lemma ExtractedNumber(read: Reader, responses: seq<Json>, out: seq<Client>, key: string, f: NumberField)
    requires Extracted(read, responses, out)
    ensures Finds(NumberIn(out, key, f), ForestFirsts(NumberPick(read, key, f), responses))
  {
    var order :| ForestVisits(responses, order) && Lists(out, Fold(read, order));
    ListedFields(out, Fold(read, order), key);
    FirstContributorDecides(read, order, key);
    ForestWalkFinds(NumberPick(read, key, f), responses, order);
  }

  lemma ExtractedText(read: Reader, responses: seq<Json>, out: seq<Client>, key: string, f: TextField)
    requires Extracted(read, responses, out)
    ensures Finds(TextIn(out, key, f), ForestFirsts(TextPick(read, key, f), responses))
  {
    var order :| ForestVisits(responses, order) && Lists(out, Fold(read, order));
    ListedFields(out, Fold(read, order), key);
    FirstContributorDecides(read, order, key);
    ForestWalkFinds(TextPick(read, key, f), responses, order);
  }

  lemma ReportedTextsExactly(read: Reader, responses: seq<Json>, key: string, f: TextField, x: string)
    ensures x in ForestFirsts(TextPick(read, key, f), responses)
       <==> exists out :: Extracted(read, responses, out) && TextIn(out, key, f) == Some(x)
  {
    var pick := TextPick(read, key, f);
    if x in ForestFirsts(pick, responses) {
      var order := ForestWalkWith(pick, responses, x);
      var out := WalkIsExtracted(read, responses, order);
      FirstContributorDecides(read, order, key);
      ListedFields(out, Fold(read, order), key);
    }
    if out :| Extracted(read, responses, out) && TextIn(out, key, f) == Some(x) {
      ExtractedText(read, responses, out, key, f);
    }
  }

  lemma AtMostOne<T>(s: set<T>, x: T, y: T)
    requires |s| <= 1 && x in s && y in s
    ensures x == y
  {
    assert |s - {x}| == 0;
  }

  lemma TwoOf<T>(s: set<T>) returns (x: T, y: T)
    requires |s| > 1
    ensures x in s && y in s && x != y
  {
    x :| x in s;
    assert |s - {x}| >= 1;
    y :| y in s - {x};
  }

  ghost predicate NumberFixed(read: Reader, responses: seq<Json>, key: string, f: NumberField) {
    |ForestFirsts(NumberPick(read, key, f), responses)| <= 1
  }

  ghost predicate TextFixed(read: Reader, responses: seq<Json>, key: string, f: TextField) {
    |ForestFirsts(TextPick(read, key, f), responses)| <= 1
  }

  // A number is the same in all extractions exactly if at most one value can come first.
  lemma NumberIndependentExactly(read: Reader, responses: seq<Json>, key: string, f: NumberField)
    ensures (forall a, b ::
               Extracted(read, responses, a) && Extracted(read, responses, b)
               ==> NumberIn(a, key, f) == NumberIn(b, key, f))
       <==> NumberFixed(read, responses, key, f)
  {
    var firsts := ForestFirsts(NumberPick(read, key, f), responses);
    if NumberFixed(read, responses, key, f) {
      forall a, b | Extracted(read, responses, a) && Extracted(read, responses, b)
        ensures NumberIn(a, key, f) == NumberIn(b, key, f)
      {
        ExtractedNumber(read, responses, a, key, f);
        ExtractedNumber(read, responses, b, key, f);
        if firsts != {} { AtMostOne(firsts, NumberIn(a, key, f).value, NumberIn(b, key, f).value); }
      }
    } else {
      var x, y := TwoOf(firsts);
      ReportedNumbersExactly(read, responses, key, f, x);
      ReportedNumbersExactly(read, responses, key, f, y);
    }
  }

  // So is a text.
  lemma TextIndependentExactly(read: Reader, responses: seq<Json>, key: string, f: TextField)
    ensures (forall a, b ::
               Extracted(read, responses, a) && Extracted(read, responses, b)
               ==> TextIn(a, key, f) == TextIn(b, key, f))
       <==> TextFixed(read, responses, key, f)
  {
    var firsts := ForestFirsts(TextPick(read, key, f), responses);
    if TextFixed(read, responses, key, f) {
      forall a, b | Extracted(read, responses, a) && Extracted(read, responses, b)
        ensures TextIn(a, key, f) == TextIn(b, key, f)
      {
        ExtractedText(read, responses, a, key, f);
        ExtractedText(read, responses, b, key, f);
        if firsts != {} { AtMostOne(firsts, TextIn(a, key, f).value, TextIn(b, key, f).value); }
      }
    } else {
      var x, y := TwoOf(firsts);
      ReportedTextsExactly(read, responses, key, f, x);
      ReportedTextsExactly(read, responses, key, f, y);
    }
  }
}
