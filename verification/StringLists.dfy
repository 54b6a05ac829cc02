/**
  Cleaning of the lists in the settings (api.go, normalizeStringList): trim, drop blanks, cut, drop
  repetitions, and stop at a number of entries. A string is its bytes, since that is what is counted and cut;
  trimming is a parameter, held to the laws of strings.TrimSpace.
 */
module StringLists {
  import opened Basics

  type Trimmer = Bytes -> Bytes

  ghost predicate Lawful(trim: Trimmer) {
    && (forall s: Bytes :: |trim(s)| <= |s|)
    && (forall s: Bytes, t: Bytes :: trim(s) == t ==> trim(t) == t)
  }

  function Cut(s: Bytes, maxLen: nat): Bytes { if |s| > maxLen then s[..maxLen] else s }

  // The trimmed and cut entries that are not blank.
  function Cleaned(values: seq<Bytes>, trim: Trimmer, maxLen: nat): seq<Bytes> {
    if values == [] then []
    else
      var front, last := Cleaned(values[..|values| - 1], trim, maxLen), trim(values[|values| - 1]);
      if last == [] then front else front + [Cut(last, maxLen)]
  }

  function Dedup(xs: seq<Bytes>): seq<Bytes> {
    if xs == [] then []
    else
      var front, last := xs[..|xs| - 1], xs[|xs| - 1];
      if last in front then Dedup(front) else Dedup(front) + [last]
  }

  // At most maxItems entries are kept; but the first always is.
  function Limit(maxItems: int): nat { if maxItems < 1 then 1 else maxItems }

  function First(xs: seq<Bytes>, n: nat): seq<Bytes> { if |xs| <= n then xs else xs[..n] }

  function Normalized(values: seq<Bytes>, maxItems: int, trim: Trimmer, maxLen: nat): seq<Bytes> {
    First(Dedup(Cleaned(values, trim, maxLen)), Limit(maxItems))
  }

  // ----- The loop. -----

  lemma DedupOneMore(xs: seq<Bytes>, x: Bytes)
    ensures Dedup(xs + [x]) == if x in xs then Dedup(xs) else Dedup(xs) + [x]
  {
    assert (xs + [x])[..|xs|] == xs;
  }

  lemma {:induction false} DedupMembers(xs: seq<Bytes>)
    ensures forall x :: x in Dedup(xs) <==> x in xs
  {
    if xs != [] {
      var front, last := xs[..|xs| - 1], xs[|xs| - 1];
      assert xs == front + [last];
      DedupMembers(front);
    }
  }

  lemma CleanedOneMore(values: seq<Bytes>, value: Bytes, trim: Trimmer, maxLen: nat)
    ensures var before := Cleaned(values, trim, maxLen);
      Cleaned(values + [value], trim, maxLen)
      == if trim(value) == [] then before else before + [Cut(trim(value), maxLen)]
  {
    assert (values + [value])[..|values|] == values;
  }

  function DedupCleaned(values: seq<Bytes>, trim: Trimmer, maxLen: nat): seq<Bytes> {
    Dedup(Cleaned(values, trim, maxLen))
  }

  // What one more value adds.
  lemma OneMore(values: seq<Bytes>, value: Bytes, trim: Trimmer, maxLen: nat)
    ensures var before, x := DedupCleaned(values, trim, maxLen), Cut(trim(value), maxLen);
      DedupCleaned(values + [value], trim, maxLen) == if trim(value) == [] || x in before then before else before + [x]
  {
    CleanedOneMore(values, value, trim, maxLen);
    DedupOneMore(Cleaned(values, trim, maxLen), Cut(trim(value), maxLen));
    DedupMembers(Cleaned(values, trim, maxLen));
  }

  lemma {:induction false} MoreValuesOnlyAppend(values: seq<Bytes>, k: nat, trim: Trimmer, maxLen: nat)
    requires k <= |values|
    ensures DedupCleaned(values[..k], trim, maxLen) <= DedupCleaned(values, trim, maxLen)
    decreases |values|
  {
    if k == |values| {
      assert values[..k] == values;
    } else {
      var front, last := values[..|values| - 1], values[|values| - 1];
      assert values == front + [last] && values[..k] == front[..k];
      MoreValuesOnlyAppend(front, k, trim, maxLen);
      OneMore(front, last, trim, maxLen);
    }
  }

  method NormalizeStringList(values: seq<Bytes>, maxItems: int, trim: Trimmer, maxLen: nat) returns (out: seq<Bytes>)
    ensures out == Normalized(values, maxItems, trim, maxLen)
  {
    out := [];
    var seen: set<Bytes> := {};
    for i := 0 to |values|
      invariant out == DedupCleaned(values[..i], trim, maxLen)
      invariant |out| < Limit(maxItems)
      invariant forall x :: x in seen <==> x in out
    {
      assert values[..i + 1] == values[..i] + [values[i]];
      OneMore(values[..i], values[i], trim, maxLen);
      var value := trim(values[i]);
      if value == [] {
        continue;
      }
      if |value| > maxLen {
        value := value[..maxLen];
      }
      if value in seen {
        continue;
      }
      seen := seen + {value};
      out := out + [value];
      if |out| >= maxItems {
        MoreValuesOnlyAppend(values, i + 1, trim, maxLen);
        return;
      }
    }
    assert values[..|values|] == values;
  }

  // ----- What dropping repetitions means. -----

  predicate Distinct(xs: seq<Bytes>) { forall i, j :: 0 <= i < j < |xs| ==> xs[i] != xs[j] }

  function Position(xs: seq<Bytes>, x: Bytes): (i: nat)
    requires x in xs
    ensures i < |xs| && xs[i] == x && forall j :: 0 <= j < i ==> xs[j] != x
  {
    if xs[0] == x then 0 else
      assert x in xs[1..];
      Position(xs[1..], x) + 1
  }

  // d holds each entry of xs once, in the order of first occurrence.
  ghost predicate FirstOccurrences(xs: seq<Bytes>, d: seq<Bytes>) {
    && Distinct(d)
    && (forall x :: x in d <==> x in xs)
    && forall i, j :: 0 <= i < j < |d| ==> Position(xs, d[i]) < Position(xs, d[j])
  }

  lemma PositionGrows(xs: seq<Bytes>, last: Bytes, x: Bytes)
    requires x in xs + [last]
    ensures Position(xs + [last], x) == if x in xs then Position(xs, x) else |xs|
  {
    if x in xs {
      assert (xs + [last])[Position(xs, x)] == x;
    }
  }

  lemma {:induction false} DedupKeepsFirstOccurrences(xs: seq<Bytes>)
    ensures FirstOccurrences(xs, Dedup(xs))
  {
    if xs != [] {
      var front, last := xs[..|xs| - 1], xs[|xs| - 1];
      assert xs == front + [last];
      DedupKeepsFirstOccurrences(front);
      var d := Dedup(front);
      assert forall x :: x in d + [last] <==> x in d || x == last;
      forall i, j | 0 <= i < j < |Dedup(xs)| ensures Position(xs, Dedup(xs)[i]) < Position(xs, Dedup(xs)[j]) {
        PositionGrows(front, last, Dedup(xs)[i]);
        PositionGrows(front, last, Dedup(xs)[j]);
      }
    }
  }

  lemma NonEmptyHasSome(d: seq<Bytes>)
    ensures d != [] ==> exists x :: x in d
  {
    if d != [] { assert d[0] in d; }
  }

  // And nothing else does.
  lemma {:induction false} OnlyDedup(xs: seq<Bytes>, d: seq<Bytes>)
    requires FirstOccurrences(xs, d)
    ensures d == Dedup(xs)
    decreases |xs|
  {
    if xs == [] {
      NonEmptyHasSome(d);
    } else {
      var front, last := xs[..|xs| - 1], xs[|xs| - 1];
      assert xs == front + [last];
      if last in front {
        RepeatedLastDoesNotMatter(front, last, d);
        OnlyDedup(front, d);
      } else {
        LastComesLast(front, last, d);
        OnlyDedup(front, d[..|d| - 1]);
      }
    }
  }

  lemma RepeatedLastDoesNotMatter(front: seq<Bytes>, last: Bytes, d: seq<Bytes>)
    requires FirstOccurrences(front + [last], d) && last in front
    ensures FirstOccurrences(front, d)
  {
    forall x | x in front + [last] ensures x in front && Position(front + [last], x) == Position(front, x) {
      PositionGrows(front, last, x);
    }
  }

  lemma LastComesLast(front: seq<Bytes>, last: Bytes, d: seq<Bytes>)
    requires FirstOccurrences(front + [last], d) && last !in front
    ensures d != [] && d[|d| - 1] == last && FirstOccurrences(front, d[..|d| - 1])
  {
    var xs := front + [last];
    assert xs[|front|] == last && last in xs && last in d;
    var k :| 0 <= k < |d| && d[k] == last;
    forall x | x in xs ensures Position(xs, x) == if x in front then Position(front, x) else |front| {
      PositionGrows(front, last, x);
    }
    assert d[|d| - 1] in d && d[|d| - 1] in xs;
    assert Position(xs, d[|d| - 1]) <= Position(xs, d[k]);
    var e := d[..|d| - 1];
    forall x ensures x in e <==> x in front {
      if x in front {
        assert x in xs && x in d;
      }
      if x in e {
        assert x in d && x in xs;
      }
    }
  }

  // ----- What the cleaned list is. -----

  lemma {:induction false} CleanedMembers(values: seq<Bytes>, trim: Trimmer, maxLen: nat)
    ensures forall x ::
      x in Cleaned(values, trim, maxLen) <==> exists v :: v in values && trim(v) != [] && x == Cut(trim(v), maxLen)
  {
    if values != [] {
      var front, last := values[..|values| - 1], values[|values| - 1];
      assert values == front + [last];
      CleanedMembers(front, trim, maxLen);
      assert forall v :: v in values <==> v in front || v == last;
    }
  }

  // The entries are distinct, come from values that are not blank, and are short; and no such value
  // is missing unless the list is full.
  lemma NormalizedEntries(values: seq<Bytes>, maxItems: int, trim: Trimmer, maxLen: nat)
    ensures var out := Normalized(values, maxItems, trim, maxLen);
      && Distinct(out) && |out| <= (if maxItems < 1 then 1 else maxItems)
      && (forall x :: x in out ==> |x| <= maxLen && (maxLen > 0 ==> x != []))
      && (forall x :: x in out ==> exists v :: v in values && trim(v) != [] && x == Cut(trim(v), maxLen))
      && (|out| < maxItems || out == [] ==> forall v :: v in values && trim(v) != [] ==> Cut(trim(v), maxLen) in out)
  {
    var cleaned := Cleaned(values, trim, maxLen);
    CleanedMembers(values, trim, maxLen);
    DedupKeepsFirstOccurrences(cleaned);
    var out := Normalized(values, maxItems, trim, maxLen);
    forall x | x in out ensures x in cleaned {
      assert x in Dedup(cleaned);
    }
  }

  // ----- Cleaning again. -----

  ghost predicate Normal(xs: seq<Bytes>, maxItems: int, trim: Trimmer, maxLen: nat) {
    Distinct(xs) && |xs| <= Limit(maxItems) && forall x :: x in xs ==> x != [] && trim(x) == x && |x| <= maxLen
  }

  lemma {:induction false} CleanedNoLonger(values: seq<Bytes>, trim: Trimmer, maxLen: nat)
    ensures |Cleaned(values, trim, maxLen)| <= |values|
    ensures |Cleaned(values, trim, maxLen)| == |values| ==>
      forall i ::
        0 <= i < |values| ==>
          trim(values[i]) != [] && Cleaned(values, trim, maxLen)[i] == Cut(trim(values[i]), maxLen)
  {
    if values != [] { CleanedNoLonger(values[..|values| - 1], trim, maxLen); }
  }

  lemma {:induction false} DedupNoLonger(xs: seq<Bytes>)
    ensures |Dedup(xs)| <= |xs| && (|Dedup(xs)| == |xs| ==> Dedup(xs) == xs)
  {
    if xs != [] {
      assert xs == xs[..|xs| - 1] + [xs[|xs| - 1]];
      DedupNoLonger(xs[..|xs| - 1]);
    }
  }

  lemma {:induction false} DedupOfDistinct(xs: seq<Bytes>)
    requires Distinct(xs)
    ensures Dedup(xs) == xs
  {
    if xs != [] {
      assert xs == xs[..|xs| - 1] + [xs[|xs| - 1]];
      DedupOfDistinct(xs[..|xs| - 1]);
    }
  }

  lemma {:induction false} CleanedOfClean(xs: seq<Bytes>, trim: Trimmer, maxLen: nat)
    requires forall x :: x in xs ==> x != [] && trim(x) == x && |x| <= maxLen
    ensures Cleaned(xs, trim, maxLen) == xs
  {
    if xs != [] {
      var front, last := xs[..|xs| - 1], xs[|xs| - 1];
      assert xs == front + [last];
      assert last in xs;
      CleanedOfClean(front, trim, maxLen);
    }
  }

  lemma CutUnchanged(x: Bytes, trimmed: Bytes, maxLen: nat)
    requires x == Cut(trimmed, maxLen) && |trimmed| <= |x|
    ensures trimmed == x && |x| <= maxLen
  {
  }

  lemma CleanedUnchanged(xs: seq<Bytes>, trim: Trimmer, maxLen: nat)
    requires Lawful(trim) && Cleaned(xs, trim, maxLen) == xs
    ensures forall x :: x in xs ==> x != [] && trim(x) == x && |x| <= maxLen
  {
    CleanedNoLonger(xs, trim, maxLen);
    forall i | 0 <= i < |xs| ensures xs[i] != [] && trim(xs[i]) == xs[i] && |xs[i]| <= maxLen {
      CutUnchanged(xs[i], trim(xs[i]), maxLen);
    }
  }

  lemma UnchangedIsNormal(xs: seq<Bytes>, maxItems: int, trim: Trimmer, maxLen: nat)
    requires Lawful(trim) && Normalized(xs, maxItems, trim, maxLen) == xs
    ensures Normal(xs, maxItems, trim, maxLen)
  {
    var cleaned := Cleaned(xs, trim, maxLen);
    CleanedNoLonger(xs, trim, maxLen);
    DedupNoLonger(cleaned);
    DedupKeepsFirstOccurrences(cleaned);
    CleanedUnchanged(xs, trim, maxLen);
  }

  // A list is left as it is exactly if it is normal already.
  lemma FixpointExactly(xs: seq<Bytes>, maxItems: int, trim: Trimmer, maxLen: nat)
    requires Lawful(trim)
    ensures Normalized(xs, maxItems, trim, maxLen) == xs <==> Normal(xs, maxItems, trim, maxLen)
  {
    if Normal(xs, maxItems, trim, maxLen) {
      CleanedOfClean(xs, trim, maxLen);
      DedupOfDistinct(xs);
    }
    if Normalized(xs, maxItems, trim, maxLen) == xs {
      UnchangedIsNormal(xs, maxItems, trim, maxLen);
    }
  }

  // How many values are read before the list is full.
  function ReadCount(values: seq<Bytes>, maxItems: int, trim: Trimmer, maxLen: nat): (k: nat)
    ensures k <= |values|
  {
    if values == [] then 0
    else
      var front := values[..|values| - 1];
      if |DedupCleaned(front, trim, maxLen)| >= Limit(maxItems) then ReadCount(front, maxItems, trim, maxLen)
      else |values|
  }

  // Only what is read matters.
  lemma {:induction false} NormalizedOfRead(values: seq<Bytes>, maxItems: int, trim: Trimmer, maxLen: nat)
    ensures Normalized(values, maxItems, trim, maxLen)
      == DedupCleaned(values[..ReadCount(values, maxItems, trim, maxLen)], trim, maxLen)
  {
    var k := ReadCount(values, maxItems, trim, maxLen);
    if values != [] {
      var front, last := values[..|values| - 1], values[|values| - 1];
      assert values == front + [last];
      OneMore(front, last, trim, maxLen);
      if |DedupCleaned(front, trim, maxLen)| >= Limit(maxItems) {
        NormalizedOfRead(front, maxItems, trim, maxLen);
        assert values[..k] == front[..k];
      } else {
        assert values[..k] == values;
      }
    }
  }

  // The guard of the cut: the value is short enough, or what the cut leaves trims to itself.
  predicate CutLeavesTrimmed(value: Bytes, trim: Trimmer, maxLen: nat) {
    var trimmed := trim(value);
    trimmed == [] || |trimmed| <= maxLen || (trimmed[..maxLen] != [] && trim(trimmed[..maxLen]) == trimmed[..maxLen])
  }

  lemma CutLeavesTrimmedExactly(value: Bytes, trim: Trimmer, maxLen: nat)
    requires Lawful(trim) && trim(value) != []
    ensures CutLeavesTrimmed(value, trim, maxLen)
       <==> Cut(trim(value), maxLen) != [] && trim(Cut(trim(value), maxLen)) == Cut(trim(value), maxLen)
  {
  }

  predicate AllTrimmed(xs: seq<Bytes>, trim: Trimmer) { forall x :: x in xs ==> x != [] && trim(x) == x }

  lemma AgainChangesNothingByEntries(values: seq<Bytes>, maxItems: int, trim: Trimmer, maxLen: nat)
    requires Lawful(trim)
    ensures var out := Normalized(values, maxItems, trim, maxLen);
      Normalized(out, maxItems, trim, maxLen) == out <==> AllTrimmed(out, trim)
  {
    NormalizedEntries(values, maxItems, trim, maxLen);
    FixpointExactly(Normalized(values, maxItems, trim, maxLen), maxItems, trim, maxLen);
  }

  // Cleaning a cleaned list changes nothing exactly if every value read before the list was full either fits or is cut
  // where nothing is left to trim.
  lemma AgainChangesNothingExactly(values: seq<Bytes>, maxItems: int, trim: Trimmer, maxLen: nat)
    requires Lawful(trim)
    ensures var out := Normalized(values, maxItems, trim, maxLen);
      Normalized(out, maxItems, trim, maxLen) == out
      <==> forall i :: 0 <= i < ReadCount(values, maxItems, trim, maxLen) ==> CutLeavesTrimmed(values[i], trim, maxLen)
  {
    var read := values[..ReadCount(values, maxItems, trim, maxLen)];
    AgainChangesNothingByEntries(values, maxItems, trim, maxLen);
    NormalizedOfRead(values, maxItems, trim, maxLen);
    EntriesAreTheRead(read, trim, maxLen);
    assert forall i :: 0 <= i < |read| ==> read[i] == values[i];
  }

  lemma EntriesAreTheRead(read: seq<Bytes>, trim: Trimmer, maxLen: nat)
    requires Lawful(trim)
    ensures AllTrimmed(DedupCleaned(read, trim, maxLen), trim)
       <==> forall i :: 0 <= i < |read| ==> CutLeavesTrimmed(read[i], trim, maxLen)
  {
    CleanedMembers(read, trim, maxLen);
    DedupMembers(Cleaned(read, trim, maxLen));
    var out := DedupCleaned(read, trim, maxLen);
    if AllTrimmed(out, trim) {
      forall i | 0 <= i < |read| ensures CutLeavesTrimmed(read[i], trim, maxLen) {
        if trim(read[i]) != [] {
          assert Cut(trim(read[i]), maxLen) in out;
          CutLeavesTrimmedExactly(read[i], trim, maxLen);
        }
      }
    }
    if forall i :: 0 <= i < |read| ==> CutLeavesTrimmed(read[i], trim, maxLen) {
      forall x | x in out ensures x != [] && trim(x) == x {
        var v :| v in read && trim(v) != [] && x == Cut(trim(v), maxLen);
        CutLeavesTrimmedExactly(v, trim, maxLen);
      }
    }
  }

  // In particular if every trimmed value fits.
  lemma AgainChangesNothingIfAllFit(values: seq<Bytes>, maxItems: int, trim: Trimmer, maxLen: nat)
    requires Lawful(trim) && forall v :: v in values ==> |trim(v)| <= maxLen
    ensures var out := Normalized(values, maxItems, trim, maxLen);
      Normalized(out, maxItems, trim, maxLen) == out
  {
    AgainChangesNothingExactly(values, maxItems, trim, maxLen);
  }

  // ----- A cut that ends in a blank is trimmed the second time. -----

  predicate Blank(b: Byte) { 9 <= b <= 13 || b == 32 }

  // strings.TrimSpace on bytes that are ASCII.
  function TrimStart(s: Bytes): (t: Bytes)
    ensures |t| <= |s| && (t == [] || !Blank(t[0]))
  {
    if s == [] || !Blank(s[0]) then s else TrimStart(s[1..])
  }

  function TrimEnd(s: Bytes): (t: Bytes)
    ensures t <= s && (t == [] || !Blank(t[|t| - 1]))
  {
    if s == [] || !Blank(s[|s| - 1]) then s else TrimEnd(s[..|s| - 1])
  }

  function TrimBlanks(s: Bytes): Bytes { TrimEnd(TrimStart(s)) }

  lemma TrimBlanksIsLawful()
    ensures Lawful(TrimBlanks)
  {
    forall s: Bytes ensures |TrimBlanks(s)| <= |s| && TrimBlanks(TrimBlanks(s)) == TrimBlanks(s) {
      var t := TrimBlanks(s);
      assert t <= TrimStart(s);
      assert TrimStart(t) == t;
    }
  }

  function Filler(n: nat): Bytes { seq(n, _ => 97) }

  // A value of maxLen + 2 bytes with a blank as the last one that is kept.
  function BadlyCut(maxLen: nat): Bytes
    requires maxLen >= 1
  {
    Filler(maxLen - 1) + [32] + [97, 97]
  }

  lemma TrimOfSolid(s: Bytes)
    requires s != [] && !Blank(s[0]) && !Blank(s[|s| - 1])
    ensures TrimBlanks(s) == s
  {
  }

  lemma BadlyCutIsCut(maxLen: nat)
    requires maxLen >= 2
    ensures var value := BadlyCut(maxLen);
      TrimBlanks(value) == value && |value| > maxLen && value[..maxLen] == Filler(maxLen - 1) + [32]
  {
    var value := BadlyCut(maxLen);
    assert value[0] == 97 && value[|value| - 1] == 97;
    TrimOfSolid(value);
  }

  lemma EndingInBlankIsNotTrimmed(s: Bytes)
    requires s != [] && Blank(s[|s| - 1])
    ensures TrimBlanks(s) != s
  {
    var t := TrimBlanks(s);
    assert t == [] || !Blank(t[|t| - 1]);
  }

  // For every limit from two on, the callers' 255 among them, one such value is cleaned differently the second time.
  lemma CutCanLeaveABlank(maxItems: int, maxLen: nat)
    requires maxLen >= 2
    ensures var out := Normalized([BadlyCut(maxLen)], maxItems, TrimBlanks, maxLen);
      Normalized(out, maxItems, TrimBlanks, maxLen) != out
  {
    var value := BadlyCut(maxLen);
    BadlyCutIsCut(maxLen);
    EndingInBlankIsNotTrimmed(Filler(maxLen - 1) + [32]);
    assert !CutLeavesTrimmed(value, TrimBlanks, maxLen);
    TrimBlanksIsLawful();
    assert ReadCount([value], maxItems, TrimBlanks, maxLen) == 1;
    AgainChangesNothingExactly([value], maxItems, TrimBlanks, maxLen);
    assert [value][0] == value;
  }
}
