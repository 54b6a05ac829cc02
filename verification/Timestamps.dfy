/**
  Stored time (store.go, ts and parseTS): an instant is stored as RFC 3339 text (section 5.6) in UTC with
  the zeros at the end of the fraction dropped, and the database compares that text byte by byte. The
  theorems say exactly when the order of the text is not the order of time.
 */
module Timestamps {
  import opened Arithmetic
  import opened Basics
  import opened Calendar

  // ----- The order of text. -----

  // memcmp with the shorter string first, as SQLite's BINARY collation compares.
  predicate Less(a: string, b: string) {
    b != "" && (a == "" || a[0] < b[0] || (a[0] == b[0] && Less(a[1..], b[1..])))
  }

  lemma {:induction false} LessIsTotal(a: string, b: string)
    ensures Less(a, b) || a == b || Less(b, a)
    ensures !(Less(a, b) && Less(b, a))
    ensures !Less(a, a)
  {
    if a != "" {
      LessIsTotal(a[1..], if b == "" then "" else b[1..]);
      if b != "" && a[0] == b[0] && a[1..] == b[1..] {
        assert a == [a[0]] + a[1..] == b;
      }
    }
  }

  lemma {:induction false} LessIsTransitive(a: string, b: string, c: string)
    requires Less(a, b) && Less(b, c)
    ensures Less(a, c)
  {
    if a != "" && a[0] == b[0] == c[0] {
      LessIsTransitive(a[1..], b[1..], c[1..]);
    }
  }

  // Equally long beginnings decide first.
  lemma {:induction false} LessOfConcat(a: string, x: string, b: string, y: string)
    requires |a| == |b|
    ensures Less(a + x, b + y) <==> Less(a, b) || (a == b && Less(x, y))
  {
    if a == "" {
      assert a + x == x && b + y == y;
    } else {
      assert (a + x)[1..] == a[1..] + x && (b + y)[1..] == b[1..] + y;
      assert a == b <==> a[0] == b[0] && a[1..] == b[1..] by {
        assert a == [a[0]] + a[1..] && b == [b[0]] + b[1..];
      }
      LessOfConcat(a[1..], x, b[1..], y);
    }
  }

  // ----- Fixed-width decimals. -----

  function DigitChar(d: int): char
    requires 0 <= d <= 9
  {
    (48 + d) as char
  }

  predicate IsDigit(c: char) { '0' <= c <= '9' }

  predicate AllDigits(s: string) { forall i :: 0 <= i < |s| ==> IsDigit(s[i]) }

  // The low `width` digits of a number.
  function Pad(n: nat, width: nat): (s: string)
    ensures |s| == width
    ensures AllDigits(s)
  {
    if width == 0 then "" else Pad(n / 10, width - 1) + [DigitChar(n % 10)]
  }

  lemma {:induction false} PadOrder(n: nat, m: nat, width: nat)
    requires n < Pow10(width) && m < Pow10(width)
    ensures Less(Pad(n, width), Pad(m, width)) <==> n < m
    ensures Pad(n, width) == Pad(m, width) <==> n == m
  {
    if width > 0 {
      PadOrder(n / 10, m / 10, width - 1);
      var x, y := [DigitChar(n % 10)], [DigitChar(m % 10)];
      LessOfConcat(Pad(n / 10, width - 1), x, Pad(m / 10, width - 1), y);
      assert Less(x, y) <==> n % 10 < m % 10;
      ConcatEqual(Pad(n / 10, width - 1), x, Pad(m / 10, width - 1), y);
      assert x == y <==> x[0] == y[0];
    }
  }

  lemma ConcatEqual(a: string, x: string, b: string, y: string)
    requires |a| == |b|
    ensures a + x == b + y <==> a == b && x == y
  {
    assert a == (a + x)[..|a|] && x == (a + x)[|a|..];
    assert b == (b + y)[..|b|] && y == (b + y)[|b|..];
  }

  // ----- Dropping the zeros at the end of a fraction. -----

  function Trim(s: string): (t: string)
    ensures |t| <= |s|
    ensures AllDigits(s) ==> AllDigits(t)
    ensures t != "" ==> s[0] == t[0]
  {
    if s == "" then ""
    else
      var t := Trim(s[1..]);
      if t == "" && s[0] == '0' then "" else [s[0]] + t
  }

  function Zeros(k: nat): string { seq(k, _ => '0') }

  // Only zeros are dropped, and all of them.
  lemma {:induction false} TrimDropsZeros(s: string)
    ensures s == Trim(s) + Zeros(|s| - |Trim(s)|)
    ensures Trim(s) != "" ==> Trim(s)[|Trim(s)| - 1] != '0'
  {
    if s != "" {
      TrimDropsZeros(s[1..]);
      assert s == [s[0]] + s[1..];
    }
  }

  lemma {:induction false} ZerosAreLeast(s: string, t: string)
    requires |s| == |t| && AllDigits(t) && Trim(s) == ""
    ensures !Less(t, s)
    ensures Less(s, t) <==> Trim(t) != ""
  {
    if s != "" {
      ZerosAreLeast(s[1..], t[1..]);
    }
  }

  predicate ProperPrefix(a: string, b: string) { |a| < |b| && a == b[..|a|] }

  // With the closing Z a proper prefix sorts after its extension: Z is above every digit.
  lemma {:induction false} TrimOrder(s: string, t: string)
    requires |s| == |t| && AllDigits(s) && AllDigits(t)
    ensures Less(Trim(s) + "Z", Trim(t) + "Z")
       <==> (ProperPrefix(Trim(t), Trim(s)) || (Less(s, t) && !ProperPrefix(Trim(s), Trim(t))))
  {
    var f, g := Trim(s), Trim(t);
    if f == "" {
      ZerosAreLeast(s, t);
      assert g[..0] == "" && f + "Z" == "Z";
    } else if g == "" {
      assert f[..0] == "" && g + "Z" == "Z";
    } else {
      TrimOrder(s[1..], t[1..]);
      TrimStep(f, g);
      assert f[1..] == Trim(s[1..]) && g[1..] == Trim(t[1..]);
    }
  }

  lemma TrimStep(f: string, g: string)
    requires f != "" && g != ""
    ensures Less(f + "Z", g + "Z") <==> f[0] < g[0] || (f[0] == g[0] && Less(f[1..] + "Z", g[1..] + "Z"))
    ensures ProperPrefix(f, g) <==> f[0] == g[0] && ProperPrefix(f[1..], g[1..])
    ensures ProperPrefix(g, f) <==> f[0] == g[0] && ProperPrefix(g[1..], f[1..])
  {
    assert (f + "Z")[1..] == f[1..] + "Z" && (g + "Z")[1..] == g[1..] + "Z";
    PrefixStep(f, g);
    PrefixStep(g, f);
  }

  lemma PrefixStep(f: string, g: string)
    requires f != "" && g != ""
    ensures ProperPrefix(f, g) <==> f[0] == g[0] && ProperPrefix(f[1..], g[1..])
  {
    if |f| < |g| {
      assert g[..|f|] == [g[0]] + g[1..][..|f| - 1];
      assert f == [f[0]] + f[1..];
    }
  }

  // The digits of a nanosecond count that are printed.
  function Fraction(nano: nat): string { Trim(Pad(nano, 9)) }

  // What follows the seconds: nothing, or a point and the fraction; then Z.
  function Printed(f: string): string {
    (if f == "" then "" else "." + f) + "Z"
  }

  lemma PrintedOrder(f: string, g: string)
    requires AllDigits(f) && AllDigits(g)
    ensures Less(Printed(f), Printed(g)) <==> Less(f + "Z", g + "Z")
    ensures Printed(f) == Printed(g) <==> f == g
  {
    PrintedShape(f);
    PrintedShape(g);
    assert f == "" ==> f + "Z" == "Z";
    assert g == "" ==> g + "Z" == "Z";
  }

  lemma PrintedShape(f: string)
    ensures f == "" ==> Printed(f) == "Z"
    ensures f != "" ==> Printed(f) == ['.'] + (f + "Z") && Printed(f)[1..] == f + "Z"
    ensures f != "" ==> Printed(f)[1..][..|f|] == f
  {
  }

  function Tail(nano: nat): string { Printed(Fraction(nano)) }

  lemma FractionIdentifies(n: nat, m: nat)
    requires n < Pow10(9) && m < Pow10(9)
    ensures Fraction(n) == Fraction(m) <==> n == m
  {
    TrimDropsZeros(Pad(n, 9));
    TrimDropsZeros(Pad(m, 9));
    PadOrder(n, m, 9);
  }

  lemma TailOrder(n: nat, m: nat)
    requires n < Pow10(9) && m < Pow10(9)
    ensures Less(Tail(n), Tail(m))
       <==> (ProperPrefix(Fraction(m), Fraction(n)) || (n < m && !ProperPrefix(Fraction(n), Fraction(m))))
    ensures Tail(n) == Tail(m) <==> n == m
  {
    TrimOrder(Pad(n, 9), Pad(m, 9));
    PadOrder(n, m, 9);
    PrintedOrder(Fraction(n), Fraction(m));
    FractionIdentifies(n, m);
  }

  // ----- Whole timestamps. -----

  // A fixed-width field, its separator, and what follows.
  function Field(n: nat, width: nat, separator: char, rest: string): string {
    Pad(n, width) + ([separator] + rest)
  }

  lemma FieldOrder(n: nat, m: nat, width: nat, separator: char, x: string, y: string)
    requires n < Pow10(width) && m < Pow10(width)
    ensures Less(Field(n, width, separator, x), Field(m, width, separator, y)) <==> n < m || (n == m && Less(x, y))
    ensures Field(n, width, separator, x) == Field(m, width, separator, y) <==> n == m && x == y
  {
    PadOrder(n, m, width);
    LessOfConcat(Pad(n, width), [separator] + x, Pad(m, width), [separator] + y);
    LessOfConcat([separator], x, [separator], y);
    ConcatEqual(Pad(n, width), [separator] + x, Pad(m, width), [separator] + y);
    ConcatEqual([separator], x, [separator], y);
    LessIsTotal([separator], [separator]);
  }

  function DateText(c: Civil, rest: string): string {
    Field(c.year, 4, '-', Field(c.month, 2, '-', Field(c.day, 2, 'T', rest)))
  }

  // The seconds have no separator of their own: the tail starts with its point or Z.
  function TimeText(c: Civil): string {
    Field(c.hour, 2, ':', Field(c.minute, 2, ':', Pad(c.second, 2) + Tail(c.nano)))
  }

  // 2006-01-02T15:04:05.999999999Z
  function Text(c: Civil): string { DateText(c, TimeText(c)) }

  predicate Printable(c: Civil) { Valid(c) && c.year <= 9999 }

  lemma Powers()
    ensures Pow10(2) == 100 && Pow10(4) == 10000 && Pow10(9) == NANOS
  {
    assert Pow10(5) == 100_000;
  }

  lemma DateTextOrder(c: Civil, x: string, d: Civil, y: string)
    requires Printable(c) && Printable(d)
    ensures Less(DateText(c, x), DateText(d, y))
      <==> DayNumber(c) < DayNumber(d) || (DayNumber(c) == DayNumber(d) && Less(x, y))
    ensures DateText(c, x) == DateText(d, y) <==> DayNumber(c) == DayNumber(d) && x == y
  {
    Powers();
    DayOrder(c, d);
    FieldOrder(c.day, d.day, 2, 'T', x, y);
    FieldOrder(c.month, d.month, 2, '-', Field(c.day, 2, 'T', x), Field(d.day, 2, 'T', y));
    FieldOrder(c.year, d.year, 4, '-', Field(c.month, 2, '-', Field(c.day, 2, 'T', x)),
               Field(d.month, 2, '-', Field(d.day, 2, 'T', y)));
  }

  lemma TimeTextOrder(c: Civil, d: Civil)
    requires Printable(c) && Printable(d)
    ensures Less(TimeText(c), TimeText(d))
       <==> (SecondOfDay(c) < SecondOfDay(d) || (SecondOfDay(c) == SecondOfDay(d) && Less(Tail(c.nano), Tail(d.nano))))
    ensures TimeText(c) == TimeText(d) <==> SecondOfDay(c) == SecondOfDay(d) && Tail(c.nano) == Tail(d.nano)
  {
    Powers();
    PadOrder(c.second, d.second, 2);
    LessOfConcat(Pad(c.second, 2), Tail(c.nano), Pad(d.second, 2), Tail(d.nano));
    ConcatEqual(Pad(c.second, 2), Tail(c.nano), Pad(d.second, 2), Tail(d.nano));
    var x, y := Pad(c.second, 2) + Tail(c.nano), Pad(d.second, 2) + Tail(d.nano);
    FieldOrder(c.minute, d.minute, 2, ':', x, y);
    FieldOrder(c.hour, d.hour, 2, ':', Field(c.minute, 2, ':', x), Field(d.minute, 2, ':', y));
  }

  lemma TextOrder(c: Civil, d: Civil)
    requires Printable(c) && Printable(d)
    ensures Less(Text(c), Text(d))
      <==> Seconds(c) < Seconds(d) || (Seconds(c) == Seconds(d) && Less(Tail(c.nano), Tail(d.nano)))
    ensures Text(c) == Text(d) <==> Seconds(c) == Seconds(d) && Tail(c.nano) == Tail(d.nano)
  {
    DateTextOrder(c, TimeText(c), d, TimeText(d));
    TimeTextOrder(c, d);
    MixedRadix(DayNumber(c), SecondOfDay(c), DayNumber(d), SecondOfDay(d), DAY);
  }

  // Instants the four-digit year can print.
  predicate InRange(t: nat) { CivilOf(t).year <= 9999 }

  function Ts(t: nat): string { Text(CivilOf(t)) }

  // The digits of the instant's fraction of a second, trailing zeros dropped.
  function FractionOf(t: nat): string { Fraction(t % NANOS) }

  ghost predicate SameSecondPrefix(a: nat, b: nat) {
    a / NANOS == b / NANOS && ProperPrefix(FractionOf(a), FractionOf(b))
  }

  // Byte order against time order, exactly: chronological, except when both instants lie in the
  // same second and one trimmed fraction is a proper prefix of the other, where the order is reversed.
  lemma TsOrder(a: nat, b: nat)
    requires InRange(a) && InRange(b)
    ensures Less(Ts(a), Ts(b)) <==> SameSecondPrefix(b, a) || (a < b && !SameSecondPrefix(a, b))
    ensures Ts(a) == Ts(b) <==> a == b
  {
    var c, d := CivilOf(a), CivilOf(b);
    InstantParts(a);
    InstantParts(b);
    Powers();
    TextOrder(c, d);
    TailOrder(c.nano, d.nano);
  }

  lemma InstantParts(t: nat)
    ensures t / NANOS == Seconds(CivilOf(t)) && t % NANOS == CivilOf(t).nano
  {
    DivisionIsUnique(t, Seconds(CivilOf(t)), CivilOf(t).nano, NANOS);
  }

  // The pairs the text gets wrong are exactly the prefix pairs, and there the earlier instant sorts later.
  lemma InvertedExactly(a: nat, b: nat)
    requires InRange(a) && InRange(b) && a < b
    ensures Less(Ts(b), Ts(a)) <==> SameSecondPrefix(a, b)
    ensures Less(Ts(a), Ts(b)) <==> !SameSecondPrefix(a, b)
  {
    TsOrder(a, b);
    TsOrder(b, a);
    if SameSecondPrefix(b, a) {
      PrefixIsSmaller(b, a);
    }
  }

  lemma {:induction false} PrefixIsLess(f: string, g: string)
    requires ProperPrefix(f, g)
    ensures Less(f, g)
  {
    if f != "" {
      PrefixStep(f, g);
      PrefixIsLess(f[1..], g[1..]);
    }
  }

  lemma {:induction false} TrimKeepsOrder(s: string, t: string)
    requires |s| == |t| && AllDigits(s) && AllDigits(t) && Less(Trim(s), Trim(t))
    ensures Less(s, t)
  {
    if Trim(s) == "" {
      ZerosAreLeast(s, t);
    } else {
      if s[0] == t[0] {
        assert Trim(s)[1..] == Trim(s[1..]) && Trim(t)[1..] == Trim(t[1..]);
        TrimKeepsOrder(s[1..], t[1..]);
      }
    }
  }

  lemma PrefixIsSmaller(a: nat, b: nat)
    requires SameSecondPrefix(a, b)
    ensures a < b
  {
    Powers();
    PrefixIsLess(FractionOf(a), FractionOf(b));
    TrimKeepsOrder(Pad(a % NANOS, 9), Pad(b % NANOS, 9));
    PadOrder(a % NANOS, b % NANOS, 9);
  }

  // Text that is not later is at most one second later in time.
  lemma TextOrderWithinASecond(a: nat, b: nat)
    requires InRange(a) && InRange(b) && !Less(Ts(b), Ts(a))
    ensures a < b + NANOS
  {
    if b < a {
      InvertedExactly(b, a);
    }
  }

  lemma SecondApartIsLess(a: nat, b: nat)
    requires InRange(a) && InRange(b) && a + NANOS <= b
    ensures Less(Ts(a), Ts(b))
  {
    InvertedExactly(a, b);
  }

  lemma LessWithinASecond(a: nat, b: nat)
    requires InRange(a) && InRange(b) && Less(Ts(a), Ts(b))
    ensures a < b + NANOS
  {
    LessIsTotal(Ts(a), Ts(b));
    TextOrderWithinASecond(a, b);
  }

  // ----- "Latest" and window queries. -----

  datatype Stamped = Stamped(id: nat, at: nat)

  // ORDER BY text DESC, id DESC LIMIT 1.
  ghost predicate IsLatest(rows: seq<Stamped>, k: nat) {
    && k < |rows|
    && forall i :: 0 <= i < |rows| ==>
         Less(Ts(rows[i].at), Ts(rows[k].at)) || (rows[i].at == rows[k].at && rows[i].id <= rows[k].id)
  }

  ghost predicate AllInRange(rows: seq<Stamped>) {
    forall i :: 0 <= i < |rows| ==> InRange(rows[i].at)
  }

  // The row called latest is less than a second older than the true latest one, and is the true
  // latest one unless its fraction is a proper prefix of that of a later row in its own second.
  lemma LatestIsNearlyLatest(rows: seq<Stamped>, k: nat)
    requires AllInRange(rows) && IsLatest(rows, k)
    ensures forall i :: 0 <= i < |rows| ==> rows[i].at < rows[k].at + NANOS
    ensures forall i :: 0 <= i < |rows| && rows[k].at < rows[i].at ==> SameSecondPrefix(rows[k].at, rows[i].at)
  {
    forall i | 0 <= i < |rows|
      ensures rows[i].at < rows[k].at + NANOS
      ensures rows[k].at < rows[i].at ==> SameSecondPrefix(rows[k].at, rows[i].at)
    {
      LessIsTotal(Ts(rows[i].at), Ts(rows[k].at));
      TextOrderWithinASecond(rows[i].at, rows[k].at);
      if rows[k].at < rows[i].at {
        InvertedExactly(rows[k].at, rows[i].at);
      }
    }
  }

  // WHERE (from IS NULL OR text >= ts(from)) AND (to IS NULL OR text <= ts(to))
  predicate InWindow(at: nat, from: Option<nat>, to: Option<nat>) {
    && (from.Some? ==> !Less(Ts(at), Ts(from.value)))
    && (to.Some? ==> !Less(Ts(to.value), Ts(at)))
  }

  // Not after in text: not after in time, bar the reversed pairs, plus the pairs reversed the other way.
  ghost predicate TextAtMost(a: nat, b: nat) {
    (a <= b && !SameSecondPrefix(a, b)) || SameSecondPrefix(b, a)
  }

  lemma TextAtMostExactly(a: nat, b: nat)
    requires InRange(a) && InRange(b)
    ensures !Less(Ts(b), Ts(a)) <==> TextAtMost(a, b)
  {
    TsOrder(b, a);
    if SameSecondPrefix(a, b) { PrefixIsSmaller(a, b); }
    if SameSecondPrefix(b, a) { PrefixIsSmaller(b, a); }
  }

  ghost predicate BoundsInRange(from: Option<nat>, to: Option<nat>) {
    (from.Some? ==> InRange(from.value)) && (to.Some? ==> InRange(to.value))
  }

  // The rows of a window, exactly.
  lemma WindowExactly(at: nat, from: Option<nat>, to: Option<nat>)
    requires InRange(at) && BoundsInRange(from, to)
    ensures InWindow(at, from, to)
       <==> (from.Some? ==> TextAtMost(from.value, at)) && (to.Some? ==> TextAtMost(at, to.value))
  {
    if from.Some? { TextAtMostExactly(from.value, at); }
    if to.Some? { TextAtMostExactly(at, to.value); }
  }

  // So a window holds everything from a second after its start to a second before its end, and nothing from outside
  // the seconds of its bounds.
  lemma WindowIsNearlyExact(at: nat, from: Option<nat>, to: Option<nat>)
    requires InRange(at) && BoundsInRange(from, to)
    ensures (from.Some? ==> at >= from.value + NANOS) && (to.Some? ==> at + NANOS <= to.value)
      ==> InWindow(at, from, to)
    ensures InWindow(at, from, to) ==>
      (from.Some? ==> at / NANOS >= from.value / NANOS) && (to.Some? ==> at / NANOS <= to.value / NANOS)
  {
    if from.Some? { NearlyAtMost(from.value, at); }
    if to.Some? { NearlyAtMost(at, to.value); }
    WindowExactly(at, from, to);
  }

  lemma NearlyAtMost(a: nat, b: nat)
    ensures a + NANOS <= b ==> TextAtMost(a, b)
    ensures TextAtMost(a, b) ==> a / NANOS <= b / NANOS
  {
  }

  // Every second holds a pair the text gets wrong: its half, and one nanosecond more.
  lemma InversionInEverySecond(second: nat)
    requires InRange(second * NANOS + 500_000_000) && InRange(second * NANOS + 500_000_001)
    ensures Less(Ts(second * NANOS + 500_000_001), Ts(second * NANOS + 500_000_000))
  {
    var a, b := second * NANOS + 500_000_000, second * NANOS + 500_000_001;
    DivisionIsUnique(a, second, 500_000_000, NANOS);
    DivisionIsUnique(b, second, 500_000_001, NANOS);
    HalfSecondDigits();
    assert ProperPrefix("5", "5" + Zeros(7) + "1");
    InvertedExactly(a, b);
  }

  lemma HalfSecondDigits()
    ensures Fraction(500_000_000) == "5"
    ensures Fraction(500_000_001) == "5" + Zeros(7) + "1"
  {
    assert Pow10(8) == 100_000_000 && Pow10(7) == 10_000_000 by {
      Powers();
    }
    PadOfFive(8);
    PadOfFive(7);
    TrimZeros(8);
    assert ("5" + Zeros(8))[1..] == Zeros(8);
    assert Pad(500_000_001, 9) == Pad(50_000_000, 8) + "1";
    TrimOfNonzero("5" + Zeros(7) + "1");
  }

  lemma ShorterTrimEndsInZero(s: string)
    ensures |Trim(s)| < |s| ==> s[|s| - 1] == '0'
  {
    TrimDropsZeros(s);
    if |Trim(s)| < |s| {
      assert (Trim(s) + Zeros(|s| - |Trim(s)|))[|s| - 1] == '0';
    }
  }

  lemma TrimOfNonzero(s: string)
    requires s != "" && s[|s| - 1] != '0'
    ensures Trim(s) == s
  {
    TrimDropsZeros(s);
    ShorterTrimEndsInZero(s);
    assert Trim(s) + Zeros(0) == Trim(s);
  }

  lemma {:induction false} PadOfFive(k: nat)
    ensures Pad(5 * Pow10(k), k + 1) == "5" + Zeros(k)
  {
    if k == 0 {
      assert Pad(0, 0) == "" && "" + "5" == "5" + Zeros(0);
    } else {
      PadOfFive(k - 1);
      assert "5" + Zeros(k - 1) + "0" == "5" + Zeros(k);
    }
  }

  lemma {:induction false} TrimZeros(k: nat)
    ensures Trim(Zeros(k)) == ""
  {
    if k > 0 {
      TrimZeros(k - 1);
      assert Zeros(k)[1..] == Zeros(k - 1);
    }
  }

  // ----- Reading a timestamp back. -----

  function Value(s: string): nat
    requires AllDigits(s)
  {
    if s == "" then 0 else Value(s[..|s| - 1]) * 10 + (s[|s| - 1] as int - 48)
  }

  lemma {:induction false} ValueOfPad(n: nat, width: nat)
    requires n < Pow10(width)
    ensures Value(Pad(n, width)) == n
  {
    if width > 0 {
      ValueOfPad(n / 10, width - 1);
      assert Pad(n, width)[..width - 1] == Pad(n / 10, width - 1);
    }
  }

  function ReadField(text: string, width: nat, separator: char): Option<(nat, string)> {
    if |text| > width && AllDigits(text[..width]) && text[width] == separator
    then Some((Value(text[..width]), text[width + 1..]))
    else None
  }

  lemma ReadFieldOfField(n: nat, width: nat, separator: char, rest: string)
    requires n < Pow10(width)
    ensures ReadField(Field(n, width, separator, rest), width, separator) == Some((n, rest))
  {
    var text := Field(n, width, separator, rest);
    assert text[..width] == Pad(n, width) && text[width + 1..] == rest;
    ValueOfPad(n, width);
  }

  // Up to nine digits count, as in Go; missing ones are zeros.
  function ReadTail(text: string): Option<nat> {
    if text == "Z" then Some(0)
    else if |text| >= 3 && text[0] == '.' && text[|text| - 1] == 'Z' && AllDigits(text[1..|text| - 1]) then
      var digits := text[1..|text| - 1];
      Some(if |digits| >= 9 then Value(digits[..9]) else Value(digits + Zeros(9 - |digits|)))
    else None
  }

  function ParseTime(date: Civil, text: string): Option<Civil> {
    match ReadField(text, 2, ':')
    case None => None
    case Some((hour, afterHour)) =>
      match ReadField(afterHour, 2, ':')
      case None => None
      case Some((minute, afterMinute)) =>
        if |afterMinute| < 2 || !AllDigits(afterMinute[..2]) then None
        else
          match ReadTail(afterMinute[2..])
          case None => None
          case Some(nano) => Some(date.(hour := hour, minute := minute, second := Value(afterMinute[..2]),
                                        nano := nano))
  }

  // The UTC form only.
  function ParseTs(text: string): Option<nat> {
    match ReadField(text, 4, '-')
    case None => None
    case Some((year, afterYear)) =>
      match ReadField(afterYear, 2, '-')
      case None => None
      case Some((month, afterMonth)) =>
        match ReadField(afterMonth, 2, 'T')
        case None => None
        case Some((day, afterDay)) =>
          match ParseTime(Civil(year, month, day, 0, 0, 0, 0), afterDay)
          case None => None
          case Some(c) => if Valid(c) then Some(Nanos(c)) else None
  }

  lemma ReadTailOfTail(nano: nat)
    requires nano < NANOS
    ensures ReadTail(Tail(nano)) == Some(nano)
  {
    Powers();
    var f := Fraction(nano);
    TrimDropsZeros(Pad(nano, 9));
    ValueOfPad(nano, 9);
    PrintedShape(f);
    if f == "" {
      PadZeroValue(nano);
    } else {
      assert Tail(nano)[1..|Tail(nano)| - 1] == f;
      if |f| == 9 {
        assert f[..9] == f && Zeros(0) == "" && f + "" == f;
      }
    }
  }

  lemma PadZeroValue(nano: nat)
    requires nano < Pow10(9) && Fraction(nano) == ""
    ensures nano == 0
  {
    TrimDropsZeros(Pad(nano, 9));
    assert "" + Zeros(9) == Zeros(9);
    ZerosValue(9);
    ValueOfPad(nano, 9);
  }

  lemma {:induction false} ZerosValue(k: nat)
    ensures AllDigits(Zeros(k)) && Value(Zeros(k)) == 0
  {
    if k > 0 {
      ZerosValue(k - 1);
      assert Zeros(k)[..k - 1] == Zeros(k - 1);
    }
  }

  lemma ParseTimeOfTimeText(date: Civil, c: Civil)
    requires Printable(c)
    ensures ParseTime(date, TimeText(c)) == Some(date.(hour := c.hour, minute := c.minute, second := c.second,
                                                       nano := c.nano))
  {
    Powers();
    var seconds := Pad(c.second, 2) + Tail(c.nano);
    ReadFieldOfField(c.hour, 2, ':', Field(c.minute, 2, ':', seconds));
    ReadFieldOfField(c.minute, 2, ':', seconds);
    assert seconds[..2] == Pad(c.second, 2) && seconds[2..] == Tail(c.nano);
    ValueOfPad(c.second, 2);
    ReadTailOfTail(c.nano);
  }

  // Every stored timestamp reads back as the instant it was written from.
  lemma ParseOfTs(t: nat)
    requires InRange(t)
    ensures ParseTs(Ts(t)) == Some(t)
  {
    Powers();
    var c := CivilOf(t);
    var time := TimeText(c);
    ReadFieldOfField(c.year, 4, '-', Field(c.month, 2, '-', Field(c.day, 2, 'T', time)));
    ReadFieldOfField(c.month, 2, '-', Field(c.day, 2, 'T', time));
    ReadFieldOfField(c.day, 2, 'T', time);
    ParseTimeOfTimeText(Civil(c.year, c.month, c.day, 0, 0, 0, 0), c);
  }

  // ----- The text, character by character. -----

  function TwoDigits(n: nat): string
    requires n < 100
  {
    [DigitChar(n / 10), DigitChar(n % 10)]
  }

  lemma PadOfTwo(n: nat)
    requires n < 100
    ensures Pad(n, 2) == TwoDigits(n)
  {
    assert Pad(n / 10, 1) == Pad(0, 0) + [DigitChar(n / 10)] == [DigitChar(n / 10)];
  }

  lemma PadOfFour(n: nat)
    requires n < 10000
    ensures Pad(n, 4) == TwoDigits(n / 100) + TwoDigits(n % 100)
  {
    PadOfTwo(n / 100);
    FourDigits(n);
    var high := Pad(n / 100, 2);
    assert Pad(n / 10, 3) == high + [DigitChar(n / 10 % 10)];
    assert Pad(n, 4) == high + [DigitChar(n / 10 % 10)] + [DigitChar(n % 10)];
  }

  lemma FourDigits(n: nat)
    ensures n / 10 / 10 == n / 100 && n / 10 % 10 == n % 100 / 10 && n % 10 == n % 100 % 10
  {
  }

  lemma Flat(a: string, b: string, c: string, d: string, e: string, f: string, rest: string)
    ensures a + (b + (c + (d + (e + (f + rest))))) == a + b + c + d + e + f + rest
  {
  }

  // Year, month and day in fixed widths, and T ...
  lemma DateTextExactly(c: Civil, rest: string)
    requires Printable(c)
    ensures DateText(c, rest)
      == TwoDigits(c.year / 100) + TwoDigits(c.year % 100) + "-" + TwoDigits(c.month) + "-" + TwoDigits(c.day)
         + "T" + rest
  {
    PadOfFour(c.year);
    PadOfTwo(c.month);
    PadOfTwo(c.day);
    Flat(Pad(c.year, 4), "-", Pad(c.month, 2), "-", Pad(c.day, 2), "T", rest);
  }

  // ... then hour, minute and second; then the fraction, if it is not zero, and Z.
  lemma TimeTextExactly(c: Civil)
    requires Printable(c)
    ensures TimeText(c)
      == TwoDigits(c.hour) + ":" + TwoDigits(c.minute) + ":" + TwoDigits(c.second)
         + (if Fraction(c.nano) == "" then "Z" else "." + Fraction(c.nano) + "Z")
  {
    PadOfTwo(c.hour);
    PadOfTwo(c.minute);
    PadOfTwo(c.second);
    Flat(Pad(c.hour, 2), ":", Pad(c.minute, 2), ":", Pad(c.second, 2), "", Tail(c.nano));
    assert "" + Tail(c.nano) == Tail(c.nano);
    assert Pad(c.hour, 2) + ":" + Pad(c.minute, 2) + ":" + Pad(c.second, 2) + ""
      == Pad(c.hour, 2) + ":" + Pad(c.minute, 2) + ":" + Pad(c.second, 2);
  }

  // So the instant 739,311 days after the start of year 0, at 12:34:56.5, is stored as this.
  lemma StoredForm(t: nat)
    requires t == (739_311 * DAY + 12 * 3600 + 34 * 60 + 56) * NANOS + 500_000_000
    ensures Ts(t) == "2024-03-01" + "T" + ("12:34:56" + ".5Z")
  {
    var c := StoredInstant(t);
    StoredText(c);
  }

  lemma StoredText(c: Civil)
    requires Printable(c) && c.year == 2024 && c.month == 3 && c.day == 1
    requires c.hour == 12 && c.minute == 34 && c.second == 56 && c.nano == 500_000_000
    ensures Text(c) == "2024-03-01" + "T" + ("12:34:56" + ".5Z")
  {
    HalfSecondDigits();
    StoredDate(c);
    StoredTime(c);
    DateTextExactly(c, TimeText(c));
  }

  lemma StoredInstant(t: nat) returns (c: Civil)
    requires t == (739_311 * DAY + 12 * 3600 + 34 * 60 + 56) * NANOS + 500_000_000
    ensures Printable(c) && CivilOf(t) == c
    ensures c.year == 2024 && c.month == 3 && c.day == 1
    ensures c.hour == 12 && c.minute == 34 && c.second == 56 && c.nano == 500_000_000
  {
    c := Civil(2024, 3, 1, 12, 34, 56, 500_000_000);
    StoredDay(c, c.year, c.month);
    assert Nanos(c) == t;
    CivilOfNanos(c);
  }

  lemma StoredDay(c: Civil, year: nat, month: nat)
    requires year == c.year == 2024 && month == c.month == 3 && c.day == 1 && c.hour < 24 && c.minute < 60
    requires c.second < 60 && c.nano < NANOS
    ensures Valid(c) && DayNumber(c) == 739_311
  {
    DaysBeforeYearExactly(year);
    DaysBeforeYearExactly(year + 1);
    FirstDaysExactly(year, month);
  }

  lemma TwoDigitsAre(n: nat, high: nat, low: nat)
    requires high < 10 && low < 10 && n == 10 * high + low
    ensures TwoDigits(n) == [DigitChar(high), DigitChar(low)]
  {
  }

  lemma StoredDate(c: Civil)
    requires c.year == 2024 && c.month == 3 && c.day == 1
    ensures TwoDigits(c.year / 100) + TwoDigits(c.year % 100) + "-" + TwoDigits(c.month) + "-" + TwoDigits(c.day)
         == "2024-03-01"
  {
    TwoDigitsAre(c.year / 100, 2, 0);
    TwoDigitsAre(c.year % 100, 2, 4);
    TwoDigitsAre(c.month, 0, 3);
    TwoDigitsAre(c.day, 0, 1);
  }

  lemma StoredTime(c: Civil)
    requires Printable(c) && c.hour == 12 && c.minute == 34 && c.second == 56 && Fraction(c.nano) == "5"
    ensures TimeText(c) == "12:34:56" + ".5Z"
  {
    TimeTextExactly(c);
    TwoDigitsAre(c.hour, 1, 2);
    TwoDigitsAre(c.minute, 3, 4);
    TwoDigitsAre(c.second, 5, 6);
  }
}
