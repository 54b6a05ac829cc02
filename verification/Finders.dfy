/**
  The finders of the router client (tplink.go, findString, findStringList, findBool, findFloat and findPath): each
  takes the first match of a walk of the whole response, so it can depend on Go's map order. The theorems say
  which answers are possible.
 */
module Finders {
  import opened Basics
  import opened Strings
  import opened Extraction
  import opened VisitOrder

  // ----- The first match of some walk. -----

  ghost predicate Found<T(!new)>(pick: Pick<T>, v: Json, r: Option<T>) {
    exists out :: Visits(v, out) && First(pick, out) == r
  }

  // The matches that can be first, or none.
  ghost function Answers<T(!new)>(pick: Pick<T>, v: Json): set<Option<T>> {
    var firsts := Firsts(pick, v);
    if firsts == {} then {None} else set x | x in firsts :: Some(x)
  }

  lemma FoundExactly<T(!new)>(pick: Pick<T>, v: Json, r: Option<T>)
    ensures Found(pick, v, r) <==> r in Answers(pick, v)
  {
    if Found(pick, v, r) {
      var out :| Visits(v, out) && First(pick, out) == r;
      WalkFinds(pick, v, out);
    }
    if r in Answers(pick, v) {
      if r.Some? {
        var out := WalkWith(pick, v, r.value);
      } else {
        var out := SomeWalk(v);
        WalkFinds(pick, v, out);
      }
    }
  }

  // The answer is fixed exactly if at most one match can be first.
  lemma FixedExactly<T(!new)>(pick: Pick<T>, v: Json)
    ensures (forall r, s :: Found(pick, v, r) && Found(pick, v, s) ==> r == s) <==> |Firsts(pick, v)| <= 1
  {
    var firsts := Firsts(pick, v);
    if |firsts| <= 1 {
      forall r, s | Found(pick, v, r) && Found(pick, v, s) ensures r == s {
        FoundExactly(pick, v, r);
        FoundExactly(pick, v, s);
        if firsts != {} { AtMostOne(firsts, r.value, s.value); }
      }
    } else {
      var x, y := TwoOf(firsts);
      FoundExactly(pick, v, Some(x));
      FoundExactly(pick, v, Some(y));
    }
  }

  // The loop all finders share.
  method FirstMatch<T>(pick: Pick<T>, v: Json) returns (r: Option<T>)
    ensures exists out :: Visits(v, out) && First(pick, out) == r
  {
    var objects := CollectObjects(v);
    for i := 0 to |objects|
      invariant First(pick, objects[..i]).None?
    {
      var found := pick(objects[i]);
      ghost var seen := objects[..i + 1];
      assert seen[..|seen| - 1] == objects[..i];
      if found.Some? {
        FirstOfConcat(pick, seen, objects[i + 1..]);
        assert seen + objects[i + 1..] == objects;
        return found;
      }
    }
    assert objects[..|objects|] == objects;
    return None;
  }

  // ----- What each finder looks for in an object. -----

  function StringPick(key: string): Pick<string> {
    (m: Object) => var s := FirstString(m, [key]); if s == "" then None else Some(s)
  }

  function FloatPick(parse: Parser, key: string): Pick<real> { (m: Object) => FirstNumber(parse, m, [key]) }

  function BoolPick(key: string): Pick<bool> {
    (m: Object) => if key in m && m[key].Bool? then Some(m[key].b) else None
  }

  function StringsOf(items: seq<Json>): seq<string> {
    if items == [] then []
    else
      var front, last := StringsOf(items[..|items| - 1]), items[|items| - 1];
      if last.Str? then front + [last.s] else front
  }

  function ListPick(key: string): Pick<seq<string>> {
    (m: Object) =>
      if key in m && m[key].Arr? && StringsOf(m[key].items) != [] then Some(StringsOf(m[key].items)) else None
  }

  // What each takes from one object.
  lemma PicksExactly(parse: Parser, key: string, m: Object)
    ensures forall b :: BoolPick(key)(m) == Some(b) <==> key in m && m[key] == Bool(b)
    ensures forall s :: StringPick(key)(m) == Some(s) <==> s != "" && HasString(m, key) && TrimSpace(m[key].s) == s
    ensures forall x :: FloatPick(parse, key)(m) == Some(x) <==> key in m && NumberValue(parse, m[key]) == Some(x)
    ensures forall items ::
      ListPick(key)(m) == Some(items) <==> items != [] && key in m && m[key].Arr? && StringsOf(m[key].items) == items
  {
    assert [key][1..] == [] && [key][0] == key;
    assert FirstString(m, [key][1..]) == "" && FirstNumber(parse, m, [key][1..]) == None;
  }

  // The strings of a list are those of its parts, and of one item that item if it is a string.
  lemma {:induction false} StringsOfParts(a: seq<Json>, b: seq<Json>)
    ensures StringsOf(a + b) == StringsOf(a) + StringsOf(b)
    ensures |a| == 1 ==> StringsOf(a) == if a[0].Str? then [a[0].s] else []
  {
    if b == [] {
      assert a + b == a && StringsOf(a) + [] == StringsOf(a);
    } else {
      var front, last := b[..|b| - 1], b[|b| - 1];
      assert (a + b)[..|a + b| - 1] == a + front;
      StringsOfParts(a, front);
    }
  }

  // ----- The finders. -----

  method FindBool(v: Json, key: string) returns (b: bool)
    ensures exists r :: Found(BoolPick(key), v, r) && b == (r == Some(true))
  {
    var r := FirstMatch(BoolPick(key), v);
    assert Found(BoolPick(key), v, r);
    return r.Some? && r.value;
  }

  method FindStringList(v: Json, key: string) returns (items: seq<string>)
    ensures exists r :: Found(ListPick(key), v, r) && items == if r.Some? then r.value else []
  {
    var r := FirstMatch(ListPick(key), v);
    assert Found(ListPick(key), v, r);
    return if r.Some? then r.value else [];
  }

  // Every key is looked for in a walk of its own.
  ghost predicate FoundFloat(parse: Parser, v: Json, keys: seq<string>, r: Option<real>) {
    if keys == [] then r.None?
    else
      || (r.Some? && Found(FloatPick(parse, keys[0]), v, r))
      || (Found(FloatPick(parse, keys[0]), v, None) && FoundFloat(parse, v, keys[1..], r))
  }

  method FindFloat(parse: Parser, v: Json, keys: seq<string>) returns (r: Option<real>)
    ensures FoundFloat(parse, v, keys, r)
  {
    for i := 0 to |keys|
      invariant forall x :: FoundFloat(parse, v, keys[i..], x) ==> FoundFloat(parse, v, keys, x)
    {
      var n := FirstMatch(FloatPick(parse, keys[i]), v);
      assert Found(FloatPick(parse, keys[i]), v, n);
      assert keys[i..][0] == keys[i] && keys[i..][1..] == keys[i + 1..];
      if n.Some? {
        return n;
      }
    }
    return None;
  }

  function FindPath(v: Json, parts: seq<string>): Json
    decreases |parts|
  {
    if parts == [] then v
    else if !v.Obj? then Null
    else FindPath(if parts[0] in v.fields then v.fields[parts[0]] else Null, parts[1..])
  }

  // strings.Split(key, ".")
  function Split(key: string): (parts: seq<string>)
    ensures |parts| >= 1
  {
    if key == "" then [""]
    else if key[0] == '.' then [""] + Split(key[1..])
    else
      var rest := Split(key[1..]);
      [[key[0]] + rest[0]] + rest[1..]
  }

  // The parts, put together again.
  function Joined(parts: seq<string>): string
    requires parts != []
  {
    if |parts| == 1 then parts[0] else parts[0] + "." + Joined(parts[1..])
  }

  lemma {:induction false} SplitExactly(key: string)
    ensures Joined(Split(key)) == key && forall i :: 0 <= i < |Split(key)| ==> '.' !in Split(key)[i]
  {
    if key != "" {
      SplitExactly(key[1..]);
      var rest := Split(key[1..]);
      assert key == [key[0]] + key[1..];
      if key[0] == '.' {
        assert ([""] + rest)[1..] == rest && "" + "." == ".";
      } else if |rest| > 1 {
        var first := [key[0]] + rest[0];
        assert ([first] + rest[1..])[1..] == rest[1..];
        assert [key[0]] + (rest[0] + "." + Joined(rest[1..])) == first + "." + Joined(rest[1..]);
      }
    }
  }

  // A path is followed part by part, and leads nowhere from what is not an object or lacks the part.
  lemma {:induction false} PathExactly(v: Json, a: seq<string>, b: seq<string>)
    ensures FindPath(v, a + b) == FindPath(FindPath(v, a), b)
    ensures |a| == 1 ==> FindPath(v, a) == if v.Obj? && a[0] in v.fields then v.fields[a[0]] else Null
    decreases |a|
  {
    if a == [] {
      assert a + b == b;
    } else {
      assert (a + b)[1..] == a[1..] + b;
      var next := if v.Obj? && a[0] in v.fields then v.fields[a[0]] else Null;
      PathExactly(next, a[1..], b);
      if !v.Obj? { PathFromNull(b); }
    }
  }

  lemma {:induction false} PathFromNull(parts: seq<string>)
    ensures FindPath(Null, parts) == Null
  {
  }

  // A key with a dot is a path and leads to one place; any other is looked for in a walk of its own.
  ghost predicate FoundString(v: Json, keys: seq<string>, s: string) {
    if keys == [] then s == ""
    else if '.' in keys[0] then
      var at := FindPath(v, Split(keys[0]));
      if at.Str? then s == at.s else FoundString(v, keys[1..], s)
    else
      || Found(StringPick(keys[0]), v, Some(s))
      || (Found(StringPick(keys[0]), v, None) && FoundString(v, keys[1..], s))
  }

  method FindString(v: Json, keys: seq<string>) returns (s: string)
    ensures FoundString(v, keys, s)
  {
    assert keys[0..] == keys;
    for i := 0 to |keys|
      invariant forall x :: FoundString(v, keys[i..], x) ==> FoundString(v, keys, x)
    {
      assert keys[i..][0] == keys[i] && keys[i..][1..] == keys[i + 1..];
      if '.' in keys[i] {
        var at := FindPath(v, Split(keys[i]));
        if at.Str? {
          return at.s;
        }
        continue;
      }
      var r := FirstMatch(StringPick(keys[i]), v);
      assert Found(StringPick(keys[i]), v, r);
      if r.Some? {
        return r.value;
      }
    }
    return "";
  }

  // ----- Which answers are possible. -----

  ghost function StringAnswers(v: Json, keys: seq<string>): set<string> {
    if keys == [] then {""}
    else if '.' in keys[0] then
      var at := FindPath(v, Split(keys[0]));
      if at.Str? then {at.s} else StringAnswers(v, keys[1..])
    else
      var firsts := Firsts(StringPick(keys[0]), v);
      if firsts == {} then StringAnswers(v, keys[1..]) else firsts
  }

  lemma {:induction false} FoundStringExactly(v: Json, keys: seq<string>, s: string)
    ensures FoundString(v, keys, s) <==> s in StringAnswers(v, keys)
  {
    if keys != [] {
      FoundStringExactly(v, keys[1..], s);
      if '.' !in keys[0] {
        FoundExactly(StringPick(keys[0]), v, Some(s));
        FoundExactly(StringPick(keys[0]), v, None);
      }
    }
  }

  ghost function FloatAnswers(parse: Parser, v: Json, keys: seq<string>): set<Option<real>> {
    if keys == [] then {None}
    else
      var firsts := Firsts(FloatPick(parse, keys[0]), v);
      if firsts == {} then FloatAnswers(parse, v, keys[1..]) else Answers(FloatPick(parse, keys[0]), v)
  }

  lemma {:induction false} FoundFloatExactly(parse: Parser, v: Json, keys: seq<string>, r: Option<real>)
    ensures FoundFloat(parse, v, keys, r) <==> r in FloatAnswers(parse, v, keys)
  {
    if keys != [] {
      FoundFloatExactly(parse, v, keys[1..], r);
      FoundExactly(FloatPick(parse, keys[0]), v, r);
      FoundExactly(FloatPick(parse, keys[0]), v, None);
    }
  }

  // ----- A login reply that can be read as a success and as a failure. -----

  lemma FirstsOfFlag(b: bool)
    ensures Firsts(BoolPick("success"), Obj(map["success" := Bool(b)])) == {b}
  {
    assert BoolPick("success")(map["success" := Bool(b)]) == Some(b);
  }

  lemma SuccessDependsOnOrder() returns (reply: Json)
    ensures Found(BoolPick("success"), reply, Some(true)) && Found(BoolPick("success"), reply, Some(false))
  {
    var yes, no := Obj(map["success" := Bool(true)]), Obj(map["success" := Bool(false)]);
    var fields: Object := map["a" := yes, "b" := no];
    reply := Obj(fields);
    assert "success" !in fields;
    FirstsOfFlag(true);
    FirstsOfFlag(false);
    var firsts := Firsts(BoolPick("success"), reply);
    assert "a" in reply.fields.Keys && "b" in reply.fields.Keys;
    assert true in Firsts(BoolPick("success"), reply.fields["a"])
      && false in Firsts(BoolPick("success"), reply.fields["b"]);
    assert true in firsts && false in firsts;
    assert Some(true) in Answers(BoolPick("success"), reply) && Some(false) in Answers(BoolPick("success"), reply);
    FoundExactly(BoolPick("success"), reply, Some(true));
    FoundExactly(BoolPick("success"), reply, Some(false));
  }
}
