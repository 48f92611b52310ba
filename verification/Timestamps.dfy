/** Reading timestamps (contrib/tomlc99/toml.c:1673-1760) and the formats that print them back
    (contrib/tomlc99/toml_json.c:73-84); the shape is that of section 5.6 of RFC 3339. */
module Timestamps {
  import opened Text
  import opened Numbers

  datatype Date = Date(year: nat, month: nat, day: nat)
  datatype Time = Time(hour: nat, minute: nat, second: nat)
  datatype Stamp = Stamp(date: Option<Date>, time: Option<Time>, zone: Option<string>)

  // ---- toml_rtots ----

  /** The separator belongs at round i of n: 10 rounds for a date, 8 for a time. */
  predicate SepAt(n: nat, i: nat) {
    if n == 10 then i == 4 || i == 7 else i == 2 || i == 5
  }

  /** The loop over a date or a time from its round i on; a digit is also taken where a separator belongs. */
  function Rounds(s: string, p: nat, i: nat, n: nat, sep: char, val: nat): (r: Option<nat>)
    requires i <= n && p + i <= |s|
    ensures r.Some? ==> p + n <= |s|
    decreases n - i
  {
    if i == n then Some(val)
    else if p + i == |s| then None
    else
      var c := s[p + i];
      if c == sep then if SepAt(n, i) then Rounds(s, p, i + 1, n, sep, val) else None
      else if IsDigit(c) then Rounds(s, p, i + 1, n, sep, val * 10 + DigitOf(c))
      else None
  }

  function DateOf(val: nat): Date {
    Date(val / 10000, val / 100 % 100, val % 100)
  }

  function TimeOf(val: nat): Time {
    Time(val / 10000, val / 100 % 100, val % 100)
  }

  function SkipFraction(s: string, p: nat): (q: nat)
    requires p <= |s|
    ensures p <= q <= |s|
  {
    if At(s, p) == '.' then DigitsEnd(s, p + 1, 10) else p
  }

  predicate TwoDigits(s: string, p: nat) {
    IsDigit(At(s, p)) && IsDigit(At(s, p + 1))
  }

  /** The zone at p, which must reach the end of the text. */
  function Zone(s: string, p: nat): Option<string>
    requires p < |s|
  {
    if s[p] == 'Z' then if p + 1 == |s| then Some("Z") else None
    else if s[p] != '+' && s[p] != '-' then None
    else if !TwoDigits(s, p + 1) then None
    else
      var q := if At(s, p + 3) != ':' then p + 3 else p + 6;
      if q == p + 6 && !TwoDigits(s, p + 4) then None
      else if q == |s| then Some(s[p..q])
      else None
  }

  /** What follows the date, from p on. */
  function TimePart(s: string, p: nat, date: Option<Date>): Option<Stamp>
    requires p <= |s|
  {
    if p == |s| then Some(Stamp(date, None, None))
    else if |s| - p < 8 then None
    else
      match Rounds(s, p, 0, 8, ':', 0)
      case None => None
      case Some(val) =>
        var q := SkipFraction(s, p + 8);
        if q == |s| then Some(Stamp(date, Some(TimeOf(val)), None))
        else
          match Zone(s, q)
          case None => None
          case Some(z) => Some(Stamp(date, Some(TimeOf(val)), Some(z)))
  }

  function Rtots(s: string): Option<Stamp> {
    if |s| > 4 && s[4] == '-' then
      match Rounds(s, 0, 0, 10, '-', 0)
      case None => None
      case Some(val) =>
        if At(s, 10) == '\0' then TimePart(s, 10, Some(DateOf(val)))
        else if s[10] != 'T' && s[10] != ' ' then None
        else TimePart(s, 11, Some(DateOf(val)))
    else TimePart(s, 0, None)
  }

  /** The two loops of toml_rtots. */
  method ReadFields(s: string, p: nat, n: nat, sep: char) returns (r: Option<nat>)
    requires p <= |s| && sep != '\0'
    ensures r == Rounds(s, p, 0, n, sep, 0)
  {
    var i, val: nat := 0, 0;
    while i < n
      invariant i <= n && p + i <= |s|
      invariant Rounds(s, p, i, n, sep, val) == Rounds(s, p, 0, n, sep, 0)
    {
      var xx := At(s, p + i);
      if xx != sep {
        if !IsDigit(xx) { return None; }
        val := val * 10 + DigitOf(xx);
      } else if !SepAt(n, i) {
        return None;
      }
      i := i + 1;
    }
    return Some(val);
  }

  /** toml_rtots */
  method ReadStamp(s: string) returns (r: Option<Stamp>)
    requires NulFree(s)
    ensures r == Rtots(s)
  {
    var p, date := 0, None;
    if |s| > 4 && s[4] == '-' {
      var val := ReadFields(s, 0, 10, '-');
      if val.None? { return None; }
      p, date := 10, Some(DateOf(val.value));
      if p < |s| {
        assert s[p] in s;
        if s[p] != 'T' && s[p] != ' ' { return None; }
        p := p + 1;
      }
    }
    r := ReadTime(s, p, date);
  }

  method ReadTime(s: string, p: nat, date: Option<Date>) returns (r: Option<Stamp>)
    requires NulFree(s) && p <= |s|
    ensures r == TimePart(s, p, date)
  {
    if p == |s| { return Some(Stamp(date, None, None)); }
    if |s| - p < 8 { return None; }
    var val := ReadFields(s, p, 8, ':');
    if val.None? { return None; }
    var q := p + 8;
    if At(s, q) == '.' {
      q := q + 1;
      while IsDigit(At(s, q))
        invariant q <= |s| && DigitsEnd(s, q, 10) == SkipFraction(s, p + 8)
        decreases |s| - q
      {
        q := q + 1;
      }
    }
    if q == |s| { return Some(Stamp(date, Some(TimeOf(val.value)), None)); }
    var z := Zone(s, q);
    r := if z.None? then None else Some(Stamp(date, Some(TimeOf(val.value)), z));
  }

  // ---- printing ----

  function Digit(d: nat): (c: char)
    requires d < 10
    ensures IsDigit(c) && DigitOf(c) == d
  {
    (d + '0' as int) as char
  }

  /** The printf formats %02d and %04d. */
  function Pad(n: nat, width: nat): string {
    if width <= 1 then PrintNat(n) else Pad(n / 10, width - 1) + [Digit(n % 10)]
  }

  function PrintDate(d: Date): string {
    Pad(d.year, 4) + "-" + Pad(d.month, 2) + "-" + Pad(d.day, 2)
  }

  function PrintTime(t: Time): string {
    Pad(t.hour, 2) + ":" + Pad(t.minute, 2) + ":" + Pad(t.second, 2)
  }

  /** The three formats of print_raw. */
  function Print(t: Stamp): string {
    if t.date.Some? && t.time.Some? then
      PrintDate(t.date.value) + "T" + PrintTime(t.time.value) + (if t.zone.Some? then t.zone.value else [])
    else if t.date.Some? then PrintDate(t.date.value)
    else if t.time.Some? then PrintTime(t.time.value)
    else []
  }

  // ---- shapes ----

  predicate DigitsAt(s: string, p: nat, n: nat) {
    p + n <= |s| && forall i :: p <= i < p + n ==> IsDigit(s[i])
  }

  /** dddd-dd-dd */
  predicate DateShape(s: string) {
    |s| == 10 && DigitsAt(s, 0, 4) && s[4] == '-' && DigitsAt(s, 5, 2) && s[7] == '-' && DigitsAt(s, 8, 2)
  }

  /** dd:dd:dd */
  predicate TimeShape(s: string) {
    |s| == 8 && DigitsAt(s, 0, 2) && s[2] == ':' && DigitsAt(s, 3, 2) && s[5] == ':' && DigitsAt(s, 6, 2)
  }

  /** Nothing, Z, +dd, -dd, +dd:dd or -dd:dd */
  predicate ZoneShape(z: string) {
    || z == "" || z == "Z"
    || ((|z| == 3 || (|z| == 6 && z[3] == ':' && DigitsAt(z, 4, 2))) && (z[0] == '+' || z[0] == '-') &&
        DigitsAt(z, 1, 2))
  }

  /** A date, a time without zone, or a date, T, a time and a zone. */
  predicate Canonical(s: string) {
    || DateShape(s)
    || TimeShape(s)
    || (|s| >= 19 && DateShape(s[..10]) && s[10] == 'T' && TimeShape(s[11..19]) && ZoneShape(s[19..]))
  }

  /** The stamps print_raw has a format for, with fields of two and four digits. */
  predicate Printable(t: Stamp) {
    && (t.date.Some? || t.time.Some?)
    && (t.date.Some? ==> t.date.value.year < 10000 && t.date.value.month < 100 && t.date.value.day < 100)
    && (t.time.Some? ==> t.time.value.hour < 100 && t.time.value.minute < 100 && t.time.value.second < 100)
    && (t.zone.Some? ==> t.date.Some? && t.time.Some? && t.zone.value != "" && ZoneShape(t.zone.value))
  }

  // ---- fields ----

  /** The number written at s[p..p + n]. */
  function Num(s: string, p: nat, n: nat): nat
    requires p + n <= |s|
  {
    if n == 0 then 0 else Num(s, p, n - 1) * 10 + DigitOf(s[p + n - 1])
  }

  lemma Num2(s: string, p: nat)
    requires DigitsAt(s, p, 2)
    ensures Num(s, p, 2) == DigitOf(s[p]) * 10 + DigitOf(s[p + 1]) < 100
  {
    assert Num(s, p, 1) == DigitOf(s[p]) by { assert Num(s, p, 0) == 0; }
  }

  /** Printing and reading a field of fixed width. */
  lemma PadTwo(n: nat)
    requires n < 100
    ensures var s := Pad(n, 2); |s| == 2 && DigitsAt(s, 0, 2) && s == [Digit(n / 10), Digit(n % 10)]
  {
    assert Pad(n / 10, 1) == PrintNat(n / 10) == [Digit(n / 10)];
  }

  lemma PadFour(n: nat)
    requires n < 10000
    ensures var s := Pad(n, 4);
            s == [Digit(n / 1000), Digit(n / 100 % 10), Digit(n / 10 % 10), Digit(n % 10)]
  {
    assert n / 10 / 10 == n / 100 && n / 100 < 100;
    PadTwo(n / 100);
    assert n / 100 / 10 == n / 1000;
    assert Pad(n / 10, 3) == Pad(n / 100, 2) + [Digit(n / 10 % 10)];
    assert Pad(n, 4) == Pad(n / 10, 3) + [Digit(n % 10)];
  }

  // ---- one round, two rounds ----

  lemma DigitRound(s: string, p: nat, i: nat, n: nat, sep: char, val: nat)
    requires i < n && p + i < |s| && IsDigit(s[p + i]) && !IsDigit(sep)
    ensures Rounds(s, p, i, n, sep, val) == Rounds(s, p, i + 1, n, sep, val * 10 + DigitOf(s[p + i]))
  {
  }

  lemma TwoRounds(s: string, p: nat, i: nat, n: nat, sep: char, val: nat)
    requires i + 2 <= n && DigitsAt(s, p + i, 2) && !IsDigit(sep)
    ensures Rounds(s, p, i, n, sep, val) == Rounds(s, p, i + 2, n, sep, val * 100 + Num(s, p + i, 2))
  {
    DigitRound(s, p, i, n, sep, val);
    DigitRound(s, p, i + 1, n, sep, val * 10 + DigitOf(s[p + i]));
    Num2(s, p + i);
  }

  lemma YearRounds(s: string)
    requires |s| >= 10 && DigitsAt(s, 0, 2) && DigitsAt(s, 2, 2) && s[4] == '-'
    ensures Rounds(s, 0, 0, 10, '-', 0) == Rounds(s, 0, 5, 10, '-', Num(s, 0, 2) * 100 + Num(s, 2, 2))
  {
    TwoRounds(s, 0, 0, 10, '-', 0);
    TwoRounds(s, 0, 2, 10, '-', Num(s, 0, 2));
  }

  lemma MonthRounds(s: string, y: nat)
    requires |s| >= 10 && DigitsAt(s, 5, 2) && s[7] == '-' && DigitsAt(s, 8, 2)
    ensures Rounds(s, 0, 5, 10, '-', y) == Some(y * 10000 + Num(s, 5, 2) * 100 + Num(s, 8, 2))
  {
    TwoRounds(s, 0, 5, 10, '-', y);
    var m := y * 100 + Num(s, 5, 2);
    TwoRounds(s, 0, 8, 10, '-', m);
  }

  lemma DateRounds(s: string)
    requires |s| >= 10 && DateShape(s[..10])
    ensures Rounds(s, 0, 0, 10, '-', 0) == Some((Num(s, 0, 2) * 100 + Num(s, 2, 2)) * 10000 + Num(s, 5, 2) * 100 +
            Num(s, 8, 2))
  {
    hide Rounds, Num;
    Front(s, s[..10]);
    YearRounds(s);
    MonthRounds(s, Num(s, 0, 2) * 100 + Num(s, 2, 2));
  }

  lemma Front(s: string, d: string)
    requires d <= s && DateShape(d)
    ensures DigitsAt(s, 0, 2) && DigitsAt(s, 2, 2) && DigitsAt(s, 5, 2) && DigitsAt(s, 8, 2) && s[4] == '-' &&
            s[7] == '-'
  {
    assert forall i :: 0 <= i < 10 ==> s[i] == d[i];
  }

  lemma TimeRounds(s: string, p: nat)
    requires p + 8 <= |s| && TimeShape(s[p..p + 8])
    ensures Rounds(s, p, 0, 8, ':', 0) == Some(Num(s, p, 2) * 10000 + Num(s, p + 3, 2) * 100 + Num(s, p + 6, 2))
  {
    var t := s[p..p + 8];
    assert forall i :: 0 <= i < 8 ==> s[p + i] == t[i];
    assert DigitsAt(s, p, 2) && DigitsAt(s, p + 3, 2) && DigitsAt(s, p + 6, 2) by {
      assert forall i :: p <= i < p + 8 ==> s[i] == t[i - p];
    }
    TwoRounds(s, p, 0, 8, ':', 0);
    var h := Num(s, p, 2);
    assert Rounds(s, p, 2, 8, ':', h) == Rounds(s, p, 3, 8, ':', h);
    TwoRounds(s, p, 3, 8, ':', h);
    var m := h * 100 + Num(s, p + 3, 2);
    assert Rounds(s, p, 5, 8, ':', m) == Rounds(s, p, 6, 8, ':', m);
    TwoRounds(s, p, 6, 8, ':', m);
  }

  function DateFields(d: string): (t: Date)
    requires DateShape(d)
    ensures t.year < 10000 && t.month < 100 && t.day < 100
  {
    Num2(d, 0);
    Num2(d, 2);
    Num2(d, 5);
    Num2(d, 8);
    Date(Num(d, 0, 2) * 100 + Num(d, 2, 2), Num(d, 5, 2), Num(d, 8, 2))
  }

  function TimeFields(d: string): (t: Time)
    requires TimeShape(d)
    ensures t.hour < 100 && t.minute < 100 && t.second < 100
  {
    Num2(d, 0);
    Num2(d, 3);
    Num2(d, 6);
    Time(Num(d, 0, 2), Num(d, 3, 2), Num(d, 6, 2))
  }

  lemma NumInside(s: string, p: nat, d: string, q: nat)
    requires p + |d| <= |s| && s[p..p + |d|] == d && q + 2 <= |d| && DigitsAt(d, q, 2)
    ensures DigitsAt(s, p + q, 2) && Num(s, p + q, 2) == Num(d, q, 2)
  {
    assert d[q] == s[p + q] && d[q + 1] == s[p + q + 1];
    assert forall i :: p + q <= i < p + q + 2 ==> s[i] == d[i - p];
    Num2(s, p + q);
    Num2(d, q);
  }

  lemma Split(y: nat, m: nat, d: nat)
    requires m < 100 && d < 100
    ensures DateOf(y * 10000 + m * 100 + d) == Date(y, m, d) && TimeOf(y * 10000 + m * 100 + d) == Time(y, m, d)
  {
    var v := y * 10000 + m * 100 + d;
    assert v / 100 == y * 100 + m;
    assert v / 10000 == y;
  }

  lemma FieldsInside(s: string, d: string)
    requires d <= s && DateShape(d) && DigitsAt(s, 0, 2) && DigitsAt(s, 2, 2) && DigitsAt(s, 5, 2) && DigitsAt(s, 8, 2)
    ensures DateFields(d) == Date(Num(s, 0, 2) * 100 + Num(s, 2, 2), Num(s, 5, 2), Num(s, 8, 2))
  {
    hide Num;
    NumInside(s, 0, d, 0);
    NumInside(s, 0, d, 2);
    NumInside(s, 0, d, 5);
    NumInside(s, 0, d, 8);
  }

  lemma ReadDate(s: string)
    requires |s| >= 10 && DateShape(s[..10])
    ensures var r := Rounds(s, 0, 0, 10, '-', 0); r.Some? && DateOf(r.value) == DateFields(s[..10])
  {
    hide Rounds, Num, DateShape, DateOf;
    var f := DateFields(s[..10]);
    DateRounds(s);
    Front(s, s[..10]);
    FieldsInside(s, s[..10]);
    Split(f.year, f.month, f.day);
  }

  lemma ReadTimeFields(s: string, p: nat)
    requires p + 8 <= |s| && TimeShape(s[p..p + 8])
    ensures var r := Rounds(s, p, 0, 8, ':', 0); r.Some? && TimeOf(r.value) == TimeFields(s[p..p + 8])
  {
    hide Rounds, Num;
    var d, f := s[p..p + 8], TimeFields(s[p..p + 8]);
    TimeRounds(s, p);
    NumInside(s, p, d, 0);
    NumInside(s, p, d, 3);
    NumInside(s, p, d, 6);
    Split(f.hour, f.minute, f.second);
  }

  // ---- printed fields ----

  lemma PadOfNum(d: string, p: nat)
    requires DigitsAt(d, p, 2)
    ensures Num(d, p, 2) < 100 && Pad(Num(d, p, 2), 2) == d[p..p + 2]
  {
    Num2(d, p);
    PadTwo(Num(d, p, 2));
  }

  lemma NumOfPad(n: nat, d: string, p: nat)
    requires n < 100 && p + 2 <= |d| && d[p..p + 2] == Pad(n, 2)
    ensures DigitsAt(d, p, 2) && Num(d, p, 2) == n
  {
    PadTwo(n);
    assert d[p] == d[p..p + 2][0] && d[p + 1] == d[p..p + 2][1];
    Num2(d, p);
  }

  lemma Quotients(a: nat, b: nat)
    requires a < 100 && b < 100
    ensures var n := a * 100 + b;
            n / 1000 == a / 10 && n / 100 % 10 == a % 10 && n / 10 % 10 == b / 10 && n % 10 == b % 10
  {
    var n := a * 100 + b;
    assert n / 100 == a && n / 1000 == n / 100 / 10;
    assert n / 10 == 10 * a + b / 10;
  }

  lemma PadFourHalves(a: nat, b: nat)
    requires a < 100 && b < 100
    ensures Pad(a * 100 + b, 4) == Pad(a, 2) + Pad(b, 2)
  {
    var n := a * 100 + b;
    PadFour(n);
    PadTwo(a);
    PadTwo(b);
    Quotients(a, b);
  }

  lemma PrintOfDate(d: string)
    requires DateShape(d)
    ensures PrintDate(DateFields(d)) == d
  {
    hide Pad, Num;
    PadOfNum(d, 0);
    PadOfNum(d, 2);
    PadOfNum(d, 5);
    PadOfNum(d, 8);
    PadFourHalves(Num(d, 0, 2), Num(d, 2, 2));
    assert d == d[0..2] + d[2..4] + "-" + d[5..7] + "-" + d[8..10];
  }

  lemma PrintOfTime(d: string)
    requires TimeShape(d)
    ensures PrintTime(TimeFields(d)) == d
  {
    PadOfNum(d, 0);
    PadOfNum(d, 3);
    PadOfNum(d, 6);
    assert d == d[0..2] + ":" + d[3..5] + ":" + d[6..8];
  }

  lemma DateOfPrint(t: Date)
    requires t.year < 10000 && t.month < 100 && t.day < 100
    ensures DateShape(PrintDate(t)) && DateFields(PrintDate(t)) == t
  {
    hide Pad, Num;
    var d, a, b := PrintDate(t), t.year / 100, t.year % 100;
    PadFourHalves(a, b);
    PadTwo(a);
    PadTwo(b);
    PadTwo(t.month);
    PadTwo(t.day);
    assert d == Pad(a, 2) + Pad(b, 2) + "-" + Pad(t.month, 2) + "-" + Pad(t.day, 2);
    NumOfPad(a, d, 0);
    NumOfPad(b, d, 2);
    NumOfPad(t.month, d, 5);
    NumOfPad(t.day, d, 8);
  }

  lemma TimeOfPrint(t: Time)
    requires t.hour < 100 && t.minute < 100 && t.second < 100
    ensures TimeShape(PrintTime(t)) && TimeFields(PrintTime(t)) == t
  {
    hide Pad, Num;
    var d := PrintTime(t);
    PadTwo(t.hour);
    PadTwo(t.minute);
    PadTwo(t.second);
    NumOfPad(t.hour, d, 0);
    NumOfPad(t.minute, d, 3);
    NumOfPad(t.second, d, 6);
  }

  // ---- reading canonical texts ----

  lemma ReadZone(s: string, p: nat)
    requires p < |s| && ZoneShape(s[p..])
    ensures Zone(s, p) == Some(s[p..])
  {
    var z := s[p..];
    assert z[0] == s[p];
    if |z| >= 3 { assert z[1] == s[p + 1] && z[2] == s[p + 2]; }
    assert s[p..|s|] == z;
    if |z| == 6 { assert z[3] == s[p + 3] && z[4] == s[p + 4] && z[5] == s[p + 5]; }
  }

  lemma ReadTimePart(s: string, p: nat, date: Option<Date>)
    requires p + 8 <= |s| && TimeShape(s[p..p + 8]) && ZoneShape(s[p + 8..])
    ensures TimePart(s, p, date) ==
            Some(Stamp(date, Some(TimeFields(s[p..p + 8])), if p + 8 == |s| then None else Some(s[p + 8..])))
  {
    hide Rounds;
    ReadTimeFields(s, p);
    if p + 8 < |s| {
      assert s[p + 8] == s[p + 8..][0];
      ReadZone(s, p + 8);
    }
  }

  /** A canonical text is read as the fields it shows. */
  function Shown(s: string): Stamp
    requires Canonical(s)
  {
    if |s| == 10 then Stamp(Some(DateFields(s)), None, None)
    else if |s| == 8 then Stamp(None, Some(TimeFields(s)), None)
    else Stamp(Some(DateFields(s[..10])), Some(TimeFields(s[11..19])), if |s| == 19 then None else Some(s[19..]))
  }

  lemma ReadCanonical(s: string)
    requires NulFree(s) && Canonical(s)
    ensures Rtots(s) == Some(Shown(s))
  {
    if |s| == 8 {
      assert s[0..8] == s && s[8..] == [];
      ReadTimePart(s, 0, None);
    } else {
      assert s[..10][4] == s[4];
      ReadDate(s);
      if |s| == 10 {
        assert s[..10] == s;
      } else {
        ReadTimePart(s, 11, Some(DateFields(s[..10])));
      }
    }
  }

  lemma PrintShown(s: string)
    requires Canonical(s)
    ensures Print(Shown(s)) == s && Printable(Shown(s))
  {
    if |s| == 8 {
      PrintOfTime(s);
    } else if |s| == 10 {
      PrintOfDate(s);
    } else {
      PrintOfDate(s[..10]);
      PrintOfTime(s[11..19]);
      assert s == s[..10] + "T" + s[11..19] + s[19..];
    }
  }

  /** Every printable stamp prints as a canonical text that shows it. */
  lemma PrintIsCanonical(t: Stamp)
    requires Printable(t)
    ensures Canonical(Print(t)) && Shown(Print(t)) == t
  {
    var s := Print(t);
    if t.date.Some? { DateOfPrint(t.date.value); }
    if t.time.Some? { TimeOfPrint(t.time.value); }
    if t.date.Some? && t.time.Some? {
      var z := if t.zone.Some? then t.zone.value else [];
      assert s[..10] == PrintDate(t.date.value) && s[11..19] == PrintTime(t.time.value) && s[19..] == z;
    }
  }

  lemma CanonicalNulFree(s: string)
    requires Canonical(s)
    ensures NulFree(s)
  {
  }

  /** Printing a stamp and reading it back is the identity. */
  lemma PrintRead(t: Stamp)
    requires Printable(t)
    ensures Rtots(Print(t)) == Some(t)
  {
    PrintIsCanonical(t);
    CanonicalNulFree(Print(t));
    ReadCanonical(Print(t));
  }

  // ---- reading and printing again ----

  lemma {:induction false} PrintNatDigits(n: nat)
    ensures (forall c :: c in PrintNat(n) ==> IsDigit(c)) && (n >= 10 ==> |PrintNat(n)| >= 2)
  {
    PrintedDigits(n);
  }

  lemma {:induction false} PadDigits(n: nat, w: nat)
    requires w > 0
    ensures (forall c :: c in Pad(n, w) ==> IsDigit(c)) && |Pad(n, w)| >= w
    decreases w
  {
    if w == 1 { PrintNatDigits(n); } else { PadDigits(n / 10, w - 1); }
  }

  lemma WideYear(y: nat)
    requires y >= 10000
    ensures |Pad(y, 4)| > 4
  {
    assert y / 10 / 10 / 10 >= 10;
    PrintNatDigits(y / 10 / 10 / 10);
    assert Pad(y / 10 / 10 / 10, 1) == PrintNat(y / 10 / 10 / 10);
    assert |Pad(y / 10 / 10, 2)| >= 3 && |Pad(y / 10, 3)| >= 4;
  }

  lemma WideHour(h: nat)
    requires 100 <= h < 10000
    ensures 3 <= |Pad(h, 2)| <= 4
  {
    var q := h / 10;
    assert Pad(h, 2) == PrintNat(q) + [Digit(h % 10)];
    assert PrintNat(q) == PrintNat(q / 10) + [Digit(q % 10)];
    if q / 10 >= 10 { assert PrintNat(q / 10) == PrintNat(q / 100) + [Digit(q / 10 % 10)]; }
  }

  lemma Scale(a: nat, b: nat, p: nat)
    requires a <= 10 * b
    ensures a * p <= b * (10 * p)
  {
    assert a * p <= (10 * b) * p;
  }

  lemma {:induction false} RoundsBound(s: string, p: nat, i: nat, n: nat, sep: char, val: nat)
    requires i <= n && p + i <= |s| && Rounds(s, p, i, n, sep, val).Some?
    ensures Rounds(s, p, i, n, sep, val).value < (val + 1) * Pow10(n - i)
    decreases n - i
  {
    hide Rounds;
    if i < n {
      var v := OneRound(s, p, i, n, sep, val);
      RoundsBound(s, p, i + 1, n, sep, v);
      Scale(v + 1, val + 1, Pow10(n - i - 1));
    } else {
      NoRound(s, p, n, sep, val);
    }
  }

  lemma NoRound(s: string, p: nat, n: nat, sep: char, val: nat)
    requires p + n <= |s|
    ensures Rounds(s, p, n, n, sep, val) == Some(val)
  {
  }

  lemma OneRound(s: string, p: nat, i: nat, n: nat, sep: char, val: nat) returns (v: nat)
    requires i < n && p + i <= |s| && Rounds(s, p, i, n, sep, val).Some?
    ensures p + i < |s| && v < val * 10 + 10 && Rounds(s, p, i, n, sep, val) == Rounds(s, p, i + 1, n, sep, v)
  {
    var c := s[p + i];
    v := if c == sep then val else val * 10 + DigitOf(c);
  }

  lemma ColonTooLate(s: string, p: nat, h: nat)
    requires 3 <= h <= 4 && DigitsAt(s, p, h) && p + h < |s| && s[p + h] == ':'
    ensures Rounds(s, p, 0, 8, ':', 0) == None
  {
    TwoRounds(s, p, 0, 8, ':', 0);
    var v := Num(s, p, 2);
    DigitRound(s, p, 2, 8, ':', v);
    if h == 4 { DigitRound(s, p, 3, 8, ':', v * 10 + DigitOf(s[p + 2])); }
  }

  /** A time that was read and prints as the text at p has two-digit hours. */
  lemma HourFits(s: string, p: nat, t: Time)
    requires p <= |s| && Rounds(s, p, 0, 8, ':', 0).Some? && t == TimeOf(Rounds(s, p, 0, 8, ':', 0).value)
    requires PrintTime(t) <= s[p..]
    ensures t.hour < 100
  {
    RoundsBound(s, p, 0, 8, ':', 0);
    assert Pow10(8) == 10000 * Pow10(4) && Pow10(4) == 10000;
    if t.hour >= 100 {
      var h := Pad(t.hour, 2);
      WideHour(t.hour);
      PadDigits(t.hour, 2);
      assert h + ":" <= PrintTime(t);
      assert forall i :: 0 <= i < |h| ==> s[p + i] == h[i];
      assert s[p + |h|] == ':';
      ColonTooLate(s, p, |h|);
    }
  }

  lemma YearFits(s: string, t: Date)
    requires |s| > 4 && s[4] == '-' && PrintDate(t) <= s
    ensures t.year < 10000
  {
    var y := Pad(t.year, 4);
    PadDigits(t.year, 4);
    assert y <= PrintDate(t);
    assert forall i :: 0 <= i < |y| ==> s[i] == y[i] && IsDigit(y[i]);
    if t.year >= 10000 { WideYear(t.year); }
  }

  lemma ZoneRead(s: string, p: nat)
    requires p < |s| && Zone(s, p).Some?
    ensures Zone(s, p).value == s[p..] && Zone(s, p).value != "" && ZoneShape(Zone(s, p).value)
  {
    assert s[p..|s|] == s[p..];
  }

  /** What a text that was read must look like, part by part. */
  lemma TimePartRead(s: string, p: nat, date: Option<Date>)
    requires p <= |s| && TimePart(s, p, date).Some?
    ensures var t := TimePart(s, p, date).value;
            && t.date == date && (t.zone.Some? ==> t.time.Some? && t.zone.value != "" && ZoneShape(t.zone.value))
            && (t.time.None? ==> p == |s|)
            && (t.time.Some? ==>
                  var r := Rounds(s, p, 0, 8, ':', 0); r.Some? && t.time.value == TimeOf(r.value))
  {
    hide Rounds, Zone, ZoneShape;
    if |s| - p >= 8 && Rounds(s, p, 0, 8, ':', 0).Some? {
      var q := SkipFraction(s, p + 8);
      if q < |s| && Zone(s, q).Some? { ZoneRead(s, q); }
    }
  }

  lemma DateTimeRead(s: string, t: Stamp)
    requires NulFree(s) && |s| > 4 && s[4] == '-' && Rtots(s) == Some(t)
    ensures Rounds(s, 0, 0, 10, '-', 0).Some? && t.date == Some(DateOf(Rounds(s, 0, 0, 10, '-', 0).value))
    ensures t.zone.Some? ==> t.time.Some? && t.zone.value != "" && ZoneShape(t.zone.value)
    ensures t.time.Some? ==> |s| > 10
    ensures t.time.Some? ==>
              var r := Rounds(s, 11, 0, 8, ':', 0); r.Some? && t.time.value == TimeOf(r.value)
  {
    hide Rounds, ZoneShape, TimePart, DateOf, TimeOf;
    var d := DateOf(Rounds(s, 0, 0, 10, '-', 0).value);
    if |s| > 10 { assert s[10] in s; }
    TimePartRead(s, if |s| == 10 then 10 else 11, Some(d));
  }

  lemma DateTimePrintable(s: string, t: Stamp)
    requires NulFree(s) && |s| > 4 && s[4] == '-' && Rtots(s) == Some(t) && Print(t) == s
    ensures Printable(t)
  {
    hide Rounds, ZoneShape, TimePart, Rtots, PrintDate, PrintTime;
    DateTimeRead(s, t);
    YearFits(s, t.date.value);
    DateOfPrint(t.date.value);
    if t.time.Some? {
      assert s[11..] == PrintTime(t.time.value) + if t.zone.Some? then t.zone.value else [];
      HourFits(s, 11, t.time.value);
    }
  }

  lemma TimePrintable(s: string, t: Stamp)
    requires NulFree(s) && !(|s| > 4 && s[4] == '-') && Rtots(s) == Some(t) && Print(t) == s && s != ""
    ensures Printable(t)
  {
    hide Rounds, ZoneShape, Pad;
    TimePartRead(s, 0, None);
    assert s[0..] == s;
    HourFits(s, 0, t.time.value);
    TimeOfPrint(t.time.value);
    ReadCanonical(s);
  }

  /** A text is read and printed back unchanged exactly when it is canonical (or empty); toml_rtots also
      accepts digits in place of later separators, fractions, a space for the T, and more. */
  lemma ReadPrintExact(s: string)
    requires NulFree(s)
    ensures (Rtots(s).Some? && Print(Rtots(s).value) == s) <==> (s == "" || Canonical(s))
  {
    if Canonical(s) {
      ReadCanonical(s);
      PrintShown(s);
    } else if s != "" && Rtots(s).Some? && Print(Rtots(s).value) == s {
      var t := Rtots(s).value;
      if |s| > 4 && s[4] == '-' { DateTimePrintable(s, t); } else { TimePrintable(s, t); }
      PrintIsCanonical(t);
    }
  }

  /** A digit where the second separator of a date belongs. */
  lemma DigitForSeparator(s: string)
    requires s == "1979-05127"
    ensures Rtots(s).Some? && !Canonical(s)
  {
    hide Rounds;
    YearRounds(s);
    var y := Num(s, 0, 2) * 100 + Num(s, 2, 2);
    NineDigits(s, y);
  }

  lemma NineDigits(s: string, y: nat)
    requires |s| == 10 && DigitsAt(s, 5, 5)
    ensures Rounds(s, 0, 5, 10, '-', y).Some?
  {
    hide Rounds;
    TwoRounds(s, 0, 5, 10, '-', y);
    var m := y * 100 + Num(s, 5, 2);
    DigitRound(s, 0, 7, 10, '-', m);
    var n := m * 10 + DigitOf(s[7]);
    TwoRounds(s, 0, 8, 10, '-', n);
    NoRound(s, 0, 10, '-', n * 100 + Num(s, 8, 2));
  }

  // ---- which texts are read, and with which fields ----

  /** The digits of the first i bytes at p, without the separators. */
  function Kept(s: string, p: nat, i: nat, sep: char): string
    requires p + i <= |s|
  {
    if i == 0 then []
    else Kept(s, p, i - 1, sep) + if s[p + i - 1] == sep then [] else [s[p + i - 1]]
  }

  /** The byte of round i: a digit, or the separator where it belongs. */
  predicate FieldByte(s: string, p: nat, i: nat, n: nat, sep: char)
    requires p + i < |s|
  {
    '0' <= s[p + i] <= '9' || (s[p + i] == sep && if n == 10 then i == 4 || i == 7 else i == 2 || i == 5)
  }

  predicate FieldsFrom(s: string, p: nat, i: nat, n: nat, sep: char) {
    p + n <= |s| && forall j :: i <= j < n ==> FieldByte(s, p, j, n, sep)
  }

  predicate FieldText(s: string, p: nat, n: nat, sep: char) {
    FieldsFrom(s, p, 0, n, sep)
  }

  lemma KeptValue(s: string, p: nat, i: nat, sep: char)
    requires p + i < |s|
    ensures Value(Kept(s, p, i + 1, sep), 10) ==
            if s[p + i] == sep then Value(Kept(s, p, i, sep), 10)
            else Value(Kept(s, p, i, sep), 10) * 10 + DigitOf(s[p + i])
  {
    var k, c := Kept(s, p, i, sep), s[p + i];
    if c == sep { assert k + [] == k; } else { assert (k + [c])[..|k|] == k; }
  }

  lemma {:induction false} RoundsFrom(s: string, p: nat, i: nat, n: nat, sep: char)
    requires i <= n && p + i <= |s| && !IsDigit(sep)
    ensures Rounds(s, p, i, n, sep, Value(Kept(s, p, i, sep), 10)) ==
            if FieldsFrom(s, p, i, n, sep) then Some(Value(Kept(s, p, n, sep), 10)) else None
    decreases n - i
  {
    hide Value, Kept;
    if i == n {
    } else if p + i < |s| {
      KeptValue(s, p, i, sep);
      RoundsFrom(s, p, i + 1, n, sep);
      assert FieldsFrom(s, p, i, n, sep) <==> FieldByte(s, p, i, n, sep) && FieldsFrom(s, p, i + 1, n, sep);
    }
  }

  /** The two loops read exactly the field texts, as the number their digits write. */
  lemma RoundsExactly(s: string, p: nat, n: nat, sep: char)
    requires p <= |s| && !IsDigit(sep)
    ensures Rounds(s, p, 0, n, sep, 0) ==
            if FieldText(s, p, n, sep) then Some(Value(Kept(s, p, n, sep), 10)) else None
  {
    RoundsFrom(s, p, 0, n, sep);
    assert Value([], 10) == 0;
  }

  predicate HasDate(s: string) {
    |s| > 4 && s[4] == '-'
  }

  /** Where the time starts. */
  function TimeStart(s: string): (p: nat)
    ensures p <= |s|
  {
    if !HasDate(s) || |s| < 10 then 0 else if |s| == 10 then 10 else 11
  }

  /** Nothing, or a point and digits. */
  predicate IsFraction(f: string) {
    f == "" || (f[0] == '.' && forall i :: 1 <= i < |f| ==> '0' <= f[i] <= '9')
  }

  /** From p on stand a time, then the fraction f, then the zone z. */
  predicate TimeParts(s: string, p: nat, f: string, z: string) {
    FieldText(s, p, 8, ':') && p + 8 <= |s| && s[p + 8..] == f + z && IsFraction(f) && ZoneShape(z)
  }

  /** A zone does not start with a digit or a point, so the fraction ends where it starts. */
  lemma FractionSkipped(s: string, p: nat, f: string, z: string)
    requires p <= |s| && s[p..] == f + z && IsFraction(f) && ZoneShape(z)
    ensures SkipFraction(s, p) == p + |f| && s[p + |f|..] == z
  {
    var q := p + |f|;
    assert s[q..] == z by { assert s[p..][|f|..] == z; }
    assert forall i :: 0 <= i < |f| ==> s[p + i] == f[i] by { assert forall i :: 0 <= i < |f| ==> s[p..][i] == f[i]; }
    if z != "" { assert s[q] == z[0]; }
    assert forall i :: p + 1 <= i < q ==> IsDigit(s[i]) by { assert forall i :: p <= i < q ==> s[i] == f[i - p]; }
  }

  /** Whatever is skipped is a fraction. */
  lemma SkippedIsFraction(s: string, p: nat)
    requires p <= |s|
    ensures IsFraction(s[p..SkipFraction(s, p)]) && s[p..] == s[p..SkipFraction(s, p)] + s[SkipFraction(s, p)..]
  {
  }

  lemma ZoneExactly(s: string, p: nat)
    requires p < |s|
    ensures Zone(s, p) == if ZoneShape(s[p..]) then Some(s[p..]) else None
  {
    if ZoneShape(s[p..]) {
      ReadZone(s, p);
    } else if Zone(s, p).Some? {
      ZoneRead(s, p);
    }
  }

  /** The time st.time with the zone st.zone is read from p on exactly when it can be split this way. */
  ghost predicate TimeReadsAs(s: string, p: nat, st: Stamp) {
    exists f, z :: TimeParts(s, p, f, z)
                   && st.time == Some(TimeOf(Value(Kept(s, p, 8, ':'), 10)))
                   && st.zone == if z == "" then None else Some(z)
  }

  lemma TimeExactly(s: string, p: nat, date: Option<Date>, st: Stamp)
    requires p < |s|
    ensures TimePart(s, p, date) == Some(st) <==> st.date == date && TimeReadsAs(s, p, st)
  {
    hide Rounds, Kept, Value, TimeOf, Zone, ZoneShape, FieldText, SkipFraction, IsFraction;
    RoundsExactly(s, p, 8, ':');
    FieldLength(s, p, 8, ':');
    if FieldText(s, p, 8, ':') {
      var q := SkipFraction(s, p + 8);
      SkippedIsFraction(s, p + 8);
      if q < |s| { ZoneExactly(s, q); } else { NoZone(s[q..]); }
      if TimePart(s, p, date) == Some(st) { assert TimeParts(s, p, s[p + 8..q], s[q..]); }
      if TimeReadsAs(s, p, st) {
        var f, z :| TimeParts(s, p, f, z)
                    && st.time == Some(TimeOf(Value(Kept(s, p, 8, ':'), 10)))
                    && st.zone == if z == "" then None else Some(z);
        FractionSkipped(s, p + 8, f, z);
      }
    }
  }

  lemma FieldLength(s: string, p: nat, n: nat, sep: char)
    ensures FieldText(s, p, n, sep) ==> p + n <= |s|
  {
  }

  lemma NoZone(z: string)
    requires z == ""
    ensures ZoneShape(z)
  {
  }

  /** The texts that are read, and the fields they are read as: a date, a time with any fraction and a zone, or
      both with T or a blank between them; a date may also end in that T or blank, and nothing at all is read
      too. In a date the second separator, and in a time either, may be a digit. The fields are those that the
      digits write; the fraction has no part in them. */
  ghost predicate ReadsAs(s: string, st: Stamp) {
    && (HasDate(s) ==> FieldText(s, 0, 10, '-') && |s| >= 10 && (|s| > 10 ==> s[10] == 'T' || s[10] == ' '))
    && st.date == (if HasDate(s) then Some(DateOf(Value(Kept(s, 0, 10, '-'), 10))) else None)
    && (if TimeStart(s) == |s| then st.time == None && st.zone == None else TimeReadsAs(s, TimeStart(s), st))
  }

  /** toml_rtots reads exactly these texts, as these fields. */
  lemma RtotsExactly(s: string, st: Stamp)
    requires NulFree(s)
    ensures Rtots(s) == Some(st) <==> ReadsAs(s, st)
  {
    hide Rounds, Kept, Value, DateOf, TimeOf, TimePart, TimeReadsAs, FieldText;
    var p := TimeStart(s);
    if HasDate(s) {
      RoundsExactly(s, 0, 10, '-');
      FieldLength(s, 0, 10, '-');
      if |s| > 10 { assert s[10] in s; }
    }
    var some := HasDate(s) && FieldText(s, 0, 10, '-');
    var date := if some then Some(DateOf(Value(Kept(s, 0, 10, '-'), 10))) else None;
    if p < |s| { TimeExactly(s, p, date, st); } else { NothingMore(s, date); }
  }

  /** A fraction changes nothing: what is read with one is read without it, as the same fields. */
  lemma FractionIgnored(s: string, p: nat, f: string, z: string, date: Option<Date>)
    requires p + 8 <= |s| && s[p + 8..] == f + z && IsFraction(f) && ZoneShape(z)
    ensures TimePart(s, p, date) == TimePart(s[..p + 8] + z, p, date)
  {
    hide Rounds, Zone, ZoneShape, SkipFraction, IsFraction, TimeOf;
    var u := s[..p + 8] + z;
    SameRounds(s, u, p, 0, 0);
    FractionSkipped(s, p + 8, f, z);
    assert u[p + 8..] == "" + z;
    NoFraction();
    FractionSkipped(u, p + 8, "", z);
    assert u[p + 8 + |""|..] == z;
    if z != "" {
      ZoneExactly(s, p + 8 + |f|);
      ZoneExactly(u, p + 8);
    }
  }

  lemma NoFraction()
    ensures IsFraction("")
  {
  }

  lemma {:induction false} SameRounds(s: string, u: string, p: nat, i: nat, val: nat)
    requires i <= 8 && p + 8 <= |s| && p + 8 <= |u| && s[..p + 8] == u[..p + 8]
    ensures Rounds(s, p, i, 8, ':', val) == Rounds(u, p, i, 8, ':', val)
    decreases 8 - i
  {
    if i == 8 {
    } else {
      assert s[p + i] == s[..p + 8][p + i] == u[p + i];
      SameRounds(s, u, p, i + 1, val);
      SameRounds(s, u, p, i + 1, val * 10 + DigitOf(s[p + i]));
    }
  }

  /** Which digits make which field. */
  lemma FieldsOfText(s: string)
    requires s == "1979-05-27T07:32:04-08:30"
    ensures Rtots(s) == Some(Stamp(Some(Date(1979, 5, 27)), Some(Time(7, 32, 4)), Some("-08:30")))
  {
    hide Rtots, DateShape, TimeShape, ZoneShape, DateFields, TimeFields;
    var d, t, z := s[..10], s[11..19], s[19..];
    assert d == "1979-05-27" && t == "07:32:04" && z == "-08:30";
    DateOfText(d);
    TimeOfText(t);
    ZoneOfText(z);
    CanonicalNulFree(s);
    ReadCanonical(s);
  }

  lemma DateOfText(d: string)
    requires d == "1979-05-27"
    ensures DateShape(d) && DateFields(d) == Date(1979, 5, 27)
  {
    NumOfTwo(d, 0, 19);
    NumOfTwo(d, 2, 79);
    NumOfTwo(d, 5, 5);
    NumOfTwo(d, 8, 27);
  }

  lemma TimeOfText(t: string)
    requires t == "07:32:04"
    ensures TimeShape(t) && TimeFields(t) == Time(7, 32, 4)
  {
    NumOfTwo(t, 0, 7);
    NumOfTwo(t, 3, 32);
    NumOfTwo(t, 6, 4);
  }

  lemma ZoneOfText(z: string)
    requires z == "-08:30"
    ensures ZoneShape(z)
  {
  }

  lemma NumOfTwo(s: string, p: nat, n: nat)
    requires p + 2 <= |s| && IsDigit(s[p]) && IsDigit(s[p + 1])
    requires n == (s[p] as int - '0' as int) * 10 + (s[p + 1] as int - '0' as int)
    ensures Num(s, p, 2) == n
  {
    Num2(s, p);
  }

  lemma NothingMore(s: string, date: Option<Date>)
    ensures TimePart(s, |s|, date) == Some(Stamp(date, None, None))
  {
  }

  /** The zone that is read has the shape of one. */
  lemma ZoneOfRead(s: string)
    requires Rtots(s).Some?
    ensures Rtots(s).value.zone.Some? ==> ZoneShape(Rtots(s).value.zone.value)
  {
    hide Rounds, ZoneShape, TimePart, DateOf, TimeOf;
    if HasDate(s) {
      var d := DateOf(Rounds(s, 0, 0, 10, '-', 0).value);
      TimePartRead(s, if At(s, 10) == '\0' then 10 else 11, Some(d));
    } else {
      TimePartRead(s, 0, None);
    }
  }
}
