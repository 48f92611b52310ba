/** Reading integers (contrib/tomlc99/toml.c:1783-1821) and the format that prints them back
    (contrib/tomlc99/toml_json.c:67-68). strtoll is section 7.20.1.4 of ISO/IEC 9899:1999 with base 0 and a
    64-bit long long. */
module Numbers {
  import opened Text

  const INT64_MIN := -0x8000_0000_0000_0000
  const INT64_MAX := 0x7FFF_FFFF_FFFF_FFFF

  predicate FitsInt64(v: int) {
    INT64_MIN <= v <= INT64_MAX
  }

  // ---- digits ----

  /** The value of a letter or digit in a number of base up to 36; 36 for any other byte. */
  function DigitOf(c: char): (d: nat)
    ensures d < 10 <==> IsDigit(c)
  {
    if IsDigit(c) then c as int - '0' as int
    else if 'a' <= c <= 'z' then c as int - 'a' as int + 10
    else if 'A' <= c <= 'Z' then c as int - 'A' as int + 10
    else 36
  }

  function Pow10(n: nat): (p: nat)
    ensures p > 0
  {
    if n == 0 then 1 else 10 * Pow10(n - 1)
  }

  /** Digit by digit from the left. */
  function Value(ds: string, base: nat): nat {
    if ds == [] then 0 else Value(ds[..|ds| - 1], base) * base + DigitOf(ds[|ds| - 1])
  }

  function DigitsEnd(s: string, p: nat, base: nat): (q: nat)
    requires p <= |s|
    ensures p <= q <= |s|
    ensures forall i :: p <= i < q ==> DigitOf(s[i]) < base
    ensures q < |s| ==> DigitOf(s[q]) >= base
    decreases |s| - p
  {
    if p < |s| && DigitOf(s[p]) < base then DigitsEnd(s, p + 1, base) else p
  }

  // ---- strtoll ----

  /** isspace in the C locale. */
  predicate IsCSpace(c: char) {
    c == ' ' || 9 as char <= c <= 13 as char
  }

  function SkipSpaces(s: string, p: nat): (q: nat)
    requires p <= |s|
    ensures p <= q <= |s|
    decreases |s| - p
  {
    if p < |s| && IsCSpace(s[p]) then SkipSpaces(s, p + 1) else p
  }

  /** The number, the index of the first byte not read, and whether errno becomes ERANGE. */
  datatype Read = Read(value: int, end: nat, erange: bool)

  function Strtoll(s: string): Read {
    var p := SkipSpaces(s, 0);
    var q := if At(s, p) == '-' || At(s, p) == '+' then p + 1 else p;
    var hex := At(s, q) == '0' && (At(s, q + 1) == 'x' || At(s, q + 1) == 'X') && DigitOf(At(s, q + 2)) < 16;
    var base := if hex then 16 else if At(s, q) == '0' then 8 else 10;
    var b := if hex then q + 2 else q;
    var e := DigitsEnd(s, b, base);
    if e == b then Read(0, 0, false) else Clamp(Signed(At(s, p) == '-', Value(s[b..e], base)), e)
  }

  function Clamp(v: int, e: nat): Read {
    if v < INT64_MIN then Read(INT64_MIN, e, true)
    else if v > INT64_MAX then Read(INT64_MAX, e, true)
    else Read(v, e, false)
  }

  function Signed(neg: bool, n: nat): int {
    if neg then -(n as int) else n
  }

  // ---- toml_rtoi ----

  const BUF := 100

  function Strip(s: string): (r: string)
    ensures |r| <= |s|
  {
    if s == [] then [] else if s[0] == '_' then Strip(s[1..]) else [s[0]] + Strip(s[1..])
  }

  function SignLen(src: string): (n: nat)
    ensures n <= |src|
  {
    if src != [] && (src[0] == '+' || src[0] == '-') then 1 else 0
  }

  function Rtoi(src: string): Option<int> {
    var n := SignLen(src);
    if At(src, n) == '0' then (if At(src, n + 1) != '\0' then None else Some(0))
    else
      var buf := src[..n] + Strip(src[n..]);
      if |buf| >= BUF then None
      else
        var r := Strtoll(buf);
        if r.erange || r.end != |buf| then None else Some(r.value)
  }

  lemma StripSnoc(s: string, i: nat)
    requires i < |s|
    ensures Strip(s[..i + 1]) == Strip(s[..i]) + if s[i] == '_' then [] else [s[i]]
  {
    assert Strip([]) == [] && Strip([s[i]]) == if s[i] == '_' then [] else [s[i]];
    StripAppend(s[..i], [s[i]]);
    assert s[..i + 1] == s[..i] + [s[i]];
  }

  lemma {:induction false} StripAppend(a: string, b: string)
    ensures Strip(a + b) == Strip(a) + Strip(b)
  {
    if a == [] {
      assert a + b == b;
    } else {
      assert (a + b)[1..] == a[1..] + b;
      StripAppend(a[1..], b);
    }
  }

  lemma Slices(src: string, n: nat, s: nat)
    requires n <= s <= |src|
    ensures src[n..][..s - n] == src[n..s]
  {
  }

  /** The loop that strips underscores; it stops early when the buffer is full. */
  method CopyDigits(src: string, n: nat, buf: array<char>) returns (s: nat, p: nat)
    requires NulFree(src) && n <= 1 && n <= |src| && buf.Length == BUF
    modifies buf
    ensures n <= s <= |src| && p <= BUF && (s < |src| ==> p == BUF)
    ensures buf[..p] == src[..n] + Strip(src[n..s])
  {
    hide Strip;
    s, p := n, n;
    forall i | 0 <= i < n { buf[i] := src[i]; }
    assert buf[..p] == src[..n] + Strip(src[n..s]);
    while At(src, s) != '\0' && p < BUF
      invariant n <= s <= |src| && p <= BUF
      invariant buf[..p] == src[..n] + Strip(src[n..s])
      decreases |src| - s
    {
      var ch := src[s];
      StripSnoc(src[n..], s - n);
      Slices(src, n, s);
      Slices(src, n, s + 1);
      s := s + 1;
      if ch != '_' {
        ghost var was := buf[..p];
        buf[p] := ch;
        p := p + 1;
        assert buf[..p] == was + [ch];
      }
    }
  }

  lemma Copied(src: string, n: nat, s: nat)
    requires n <= s <= |src|
    ensures |Strip(src[n..s])| <= |Strip(src[n..])| && (s == |src| ==> src[n..s] == src[n..])
  {
    StripAppend(src[n..s], src[s..]);
    assert src[n..] == src[n..s] + src[s..];
  }

  /** toml_rtoi */
  method ReadInt(src: string) returns (r: Option<int>)
    requires NulFree(src)
    ensures r == Rtoi(src)
  {
    var n := SignLen(src);
    if At(src, n) == '0' {
      return if At(src, n + 1) != '\0' then None else Some(0);
    }
    var buf := new char[BUF];
    var s, p := CopyDigits(src, n, buf);
    Copied(src, n, s);
    if s < |src| || p == BUF { return None; }
    var num := Strtoll(buf[..p]);
    r := if num.erange || num.end != p then None else Some(num.value);
  }

  // ---- decimal literals ----

  predicate DecimalDigit(c: char) {
    IsDigit(c) || c == '_'
  }

  predicate DecimalLiteral(u: string) {
    u == "0" || (u != [] && '1' <= u[0] <= '9' && forall c :: c in u ==> DecimalDigit(c))
  }

  function Digits(u: string): nat {
    if u == [] then 0 else (if u[0] == '_' then 0 else 1) + Digits(u[1..])
  }

  /** The value of a literal by the places of its digits. */
  function Decimal(u: string): nat {
    if u == [] then 0
    else (if u[0] == '_' then 0 else DigitOf(u[0]) * Pow10(Digits(u[1..]))) + Decimal(u[1..])
  }

  lemma Distribute(d: nat, p: nat, v: nat)
    ensures (d * p + v) * 10 == d * (10 * p) + v * 10
  {
  }

  lemma {:induction false} ValueOfCons(c: char, ds: string)
    ensures Value([c] + ds, 10) == DigitOf(c) * Pow10(|ds|) + Value(ds, 10)
    decreases |ds|
  {
    var all := [c] + ds;
    if ds == [] {
      assert all[..0] == [] && Value([], 10) == 0;
    } else {
      var n := |ds| - 1;
      assert all[..|all| - 1] == [c] + ds[..n];
      ValueOfCons(c, ds[..n]);
      Distribute(DigitOf(c), Pow10(n), Value(ds[..n], 10));
    }
  }

  /** Places and left-to-right reading agree. */
  lemma {:induction false} DecimalIsValue(u: string)
    ensures Digits(u) == |Strip(u)| && Decimal(u) == Value(Strip(u), 10)
  {
    if u == [] {
    } else {
      DecimalIsValue(u[1..]);
      if u[0] != '_' { ValueOfCons(u[0], Strip(u[1..])); }
    }
  }

  lemma {:induction false} ManyDigits(ds: string)
    requires ds != [] && 1 <= DigitOf(ds[0])
    ensures Value(ds, 10) >= Pow10(|ds| - 1)
    decreases |ds|
  {
    if |ds| > 1 {
      ManyDigits(ds[..|ds| - 1]);
    } else {
      assert Value(ds[..0], 10) == 0;
    }
  }

  lemma {:induction false} Pow10Monotone(m: nat, n: nat)
    requires m <= n
    ensures Pow10(m) <= Pow10(n)
    decreases n - m
  {
    if m >= n {
    } else {
      Pow10Monotone(m, n - 1);
    }
  }

  lemma TooManyDigits(ds: string)
    requires |ds| >= BUF - 1 && 1 <= DigitOf(ds[0])
    ensures Value(ds, 10) > -INT64_MIN
  {
    ManyDigits(ds);
    Pow10Monotone(20, |ds| - 1);
    assert Pow10(20) == 100 * Pow10(18) && Pow10(18) == 1000_000 * Pow10(12);
    assert Pow10(12) == 1000_000 * Pow10(6) && Pow10(6) == 1000_000;
  }

  lemma {:induction false} StripChars(u: string)
    ensures (forall c :: c in Strip(u) ==> IsDigit(c)) <==> forall c :: c in u ==> DecimalDigit(c)
  {
    if u == [] {
    } else {
      StripChars(u[1..]);
      assert forall c :: c in u <==> c == u[0] || c in u[1..];
      if u[0] != '_' {
        assert forall c :: c in Strip(u) <==> c == u[0] || c in Strip(u[1..]);
        assert u[0] in u && u[0] in Strip(u);
      }
    }
  }

  lemma AllDigitsEnd(s: string, p: nat)
    requires p <= |s|
    ensures DigitsEnd(s, p, 10) == |s| <==> forall c :: c in s[p..] ==> IsDigit(c)
  {
    var e := DigitsEnd(s, p, 10);
    if e < |s| { assert s[p..][e - p] == s[e]; }
  }

  /** strtoll on a text with 1-9 after its sign. */
  lemma StrtollDecimal(s: string, n: nat)
    requires n == SignLen(s) && n < |s| && '1' <= s[n] <= '9'
    ensures var e := DigitsEnd(s, n, 10);
            e > n && Strtoll(s) == Clamp(Signed(s[0] == '-', Value(s[n..e], 10)), e)
  {
    assert SkipSpaces(s, 0) == 0;
    assert DigitsEnd(s, n, 10) > n;
  }

  lemma ReadDigits(s: string, n: nat)
    requires n == SignLen(s) && n < |s| && '1' <= s[n] <= '9'
    ensures var r, v := Strtoll(s), Signed(s[0] == '-', Value(s[n..], 10));
            && (r.end == |s| <==> forall c :: c in s[n..] ==> IsDigit(c))
            && (r.end == |s| ==> r == Clamp(v, |s|))
  {
    StrtollDecimal(s, n);
    AllDigitsEnd(s, n);
    if DigitsEnd(s, n, 10) == |s| { assert s[n..|s|] == s[n..]; }
  }

  lemma StrippedLiteral(u: string)
    requires u != [] && '1' <= u[0] <= '9'
    ensures var ds := Strip(u);
            && ds != [] && ds[0] == u[0] && Value(ds, 10) == Decimal(u)
            && (DecimalLiteral(u) <==> forall c :: c in ds ==> IsDigit(c))
  {
    DecimalIsValue(u);
    StripChars(u);
  }

  /** The case where strtoll is called. */
  lemma RtoiNonzero(src: string)
    requires NulFree(src) && SignLen(src) < |src| && '1' <= src[SignLen(src)] <= '9'
    ensures var u := src[SignLen(src)..];
            var v := Signed(src[0] == '-', Decimal(u));
            Rtoi(src) == if DecimalLiteral(u) && FitsInt64(v) then Some(v) else None
  {
    var n := SignLen(src);
    var sign, u := src[..n], src[n..];
    var ds := Strip(u);
    StrippedLiteral(u);
    var buf := sign + ds;
    assert buf[n..] == ds && SignLen(buf) == n && buf[0] == src[0];
    ReadDigits(buf, n);
    if |buf| >= BUF { TooManyDigits(ds); }
  }

  /** Whatever starts with a digit after its sign is read exactly when it is a decimal literal whose value
      fits 64 bits, and then as that value: the 100-byte buffer refuses no literal that fits. */
  lemma RtoiExact(src: string)
    requires NulFree(src) && SignLen(src) < |src| && IsDigit(src[SignLen(src)])
    ensures var u := src[SignLen(src)..];
            var v := Signed(src[0] == '-', Decimal(u));
            Rtoi(src) == if DecimalLiteral(u) && FitsInt64(v) then Some(v) else None
  {
    var n := SignLen(src);
    var u := src[n..];
    if u[0] != '0' {
      RtoiNonzero(src);
    } else if |u| == 1 {
      assert u == "0" && Decimal(u) == 0 by { assert Decimal(u[1..]) == 0; }
    } else {
      assert u[1] == src[n + 1] && src[n + 1] in src;
    }
  }

  // ---- the other texts ----

  predicate AllBelow(ds: string, base: nat) {
    forall i :: 0 <= i < |ds| ==> DigitOf(ds[i]) < base
  }

  /** The value of an integer constant of C without suffix: hexadecimal, octal or decimal. */
  function Constant(b: string): Option<nat> {
    if |b| > 2 && b[0] == '0' && (b[1] == 'x' || b[1] == 'X') && AllBelow(b[2..], 16) then Some(Value(b[2..], 16))
    else if b != [] && b[0] == '0' && AllBelow(b, 8) then Some(Value(b, 8))
    else if b != [] && '1' <= b[0] <= '9' && AllBelow(b, 10) then Some(Value(b, 10))
    else None
  }

  /** Where a number may start: after white space and a sign. */
  function NumberStart(s: string): (q: nat)
    ensures q <= |s|
  {
    var p := SkipSpaces(s, 0);
    if At(s, p) == '-' || At(s, p) == '+' then p + 1 else p
  }

  predicate Negative(s: string) {
    At(s, SkipSpaces(s, 0)) == '-'
  }

  lemma DigitsToEnd(s: string, p: nat, base: nat)
    requires p <= |s|
    ensures DigitsEnd(s, p, base) == |s| <==> AllBelow(s[p..], base)
    ensures s[p..|s|] == s[p..]
  {
    var e := DigitsEnd(s, p, base);
    if e < |s| { assert s[p..][e - p] == s[e]; }
  }

  predicate HexAt(s: string, q: nat) {
    At(s, q) == '0' && (At(s, q + 1) == 'x' || At(s, q + 1) == 'X') && DigitOf(At(s, q + 2)) < 16
  }

  /** strtoll from the start of the digits, in the base they are in. */
  lemma StrtollFrom(s: string, b: nat, base: nat)
    requires var q := NumberStart(s);
             b == (if HexAt(s, q) then q + 2 else q) &&
                 base == if HexAt(s, q) then 16 else if At(s, q) == '0' then 8 else 10
    ensures b <= |s|
    ensures var e := DigitsEnd(s, b, base);
            Strtoll(s) == if e == b then Read(0, 0, false) else Clamp(Signed(Negative(s), Value(s[b..e], base)), e)
  {
  }

  /** If the digits reach the end, strtoll takes the whole text, and otherwise it does not. */
  lemma ReadsDigits(s: string, b: nat, base: nat)
    requires s != []
    requires var q := NumberStart(s);
             b == (if HexAt(s, q) then q + 2 else q) &&
                 base == if HexAt(s, q) then 16 else if At(s, q) == '0' then 8 else 10
    ensures b <= |s|
    ensures var r, ds := Strtoll(s), s[b..];
            && (r.end == |s| <==> ds != [] && AllBelow(ds, base))
            && (r.end == |s| ==> r == Clamp(Signed(Negative(s), Value(ds, base)), |s|))
  {
    hide Strtoll, Value, Clamp;
    StrtollFrom(s, b, base);
    DigitsToEnd(s, b, base);
    ClampEnd(Signed(Negative(s), Value(s[b..DigitsEnd(s, b, base)], base)), DigitsEnd(s, b, base));
  }

  lemma ClampEnd(v: int, e: nat)
    ensures Clamp(v, e).end == e
  {
  }

  /** strtoll takes a whole text exactly when an integer constant stands after its white space and sign. */
  lemma ReadsWhole(s: string)
    requires s != []
    ensures var r, c := Strtoll(s), Constant(s[NumberStart(s)..]);
            (r.end == |s| <==> c.Some?) && (c.Some? ==> r == Clamp(Signed(Negative(s), c.value), |s|))
  {
    hide Strtoll, Value, Clamp;
    var q := NumberStart(s);
    var b := s[q..];
    var hex := HexAt(s, q);
    ReadsDigits(s, if hex then q + 2 else q, if hex then 16 else if At(s, q) == '0' then 8 else 10);
    ConstantAt(s, q);
  }

  /** Which constant starts at q. */
  lemma ConstantAt(s: string, q: nat)
    requires q <= |s|
    ensures HexAt(s, q) ==> q + 2 < |s|
    ensures HexAt(s, q) ==>
              Constant(s[q..]) == if AllBelow(s[q + 2..], 16) then Some(Value(s[q + 2..], 16)) else None
    ensures !HexAt(s, q) && At(s, q) == '0' ==>
              Constant(s[q..]) == if AllBelow(s[q..], 8) then Some(Value(s[q..], 8)) else None
    ensures At(s, q) != '0' ==>
              Constant(s[q..]) == if s[q..] != [] && AllBelow(s[q..], 10) then Some(Value(s[q..], 10)) else None
  {
    hide Value;
    var b := s[q..];
    if b != [] { assert b[0] == s[q]; }
    if |b| > 1 { assert b[1] == s[q + 1]; }
    if |b| > 2 { assert b[2..] == s[q + 2..] && b[2..][0] == s[q + 2]; }
    if HexAt(s, q) { assert DigitOf(b[1]) >= 8; }
  }

  /** Every text without a digit after its optional sign: stripped of underscores it must be empty, or an
      integer constant of C after white space and a sign, that fits. (A sign alone is refused.) */
  lemma RtoiOther(src: string)
    requires NulFree(src) && (SignLen(src) < |src| ==> !IsDigit(src[SignLen(src)]))
    ensures var buf := src[..SignLen(src)] + Strip(src[SignLen(src)..]);
            Rtoi(src) ==
            if |buf| >= BUF then None
            else if buf == "" then Some(0)
            else
              match Constant(buf[NumberStart(buf)..])
              case None => None
              case Some(n) => if FitsInt64(Signed(Negative(buf), n)) then Some(Signed(Negative(buf), n)) else None
  {
    var buf := src[..SignLen(src)] + Strip(src[SignLen(src)..]);
    if buf != [] { ReadsWhole(buf); }
  }

  /** A text that starts with a byte no number starts with is refused. */
  lemma NoNumberStart(src: string)
    requires NulFree(src) && src != []
    requires !IsDigit(src[0]) && src[0] != '+' && src[0] != '-' && src[0] != '_' && !IsCSpace(src[0])
    ensures Rtoi(src) == None
  {
    RtoiOther(src);
    var buf := Strip(src);
    assert src[..0] + Strip(src[0..]) == buf && src[0..] == src;
    assert NumberStart(buf) == 0 && buf[0..] == buf && buf[0] == src[0];
  }

  /** Nothing, underscores, and a number after a blank are among the texts that are read. */
  lemma OddIntegers(five: string)
    requires five == " 5"
    ensures Rtoi("") == Some(0) && Rtoi("_") == Some(0) && Rtoi(five) == Some(5)
  {
    RtoiOther("");
    UnderscoreIsZero("_");
    hide Strip, NumberStart, Constant, Negative, Value, Rtoi;
    FiveStripped(five);
    FiveRead(five);
    RtoiOther(five);
    assert five[0..] == five && five[..0] + five == five;
  }

  lemma FiveRead(five: string)
    requires five == " 5"
    ensures NumberStart(five) == 1 && !Negative(five) && Constant(five[1..]) == Some(5)
  {
    assert five[0] == ' ' && five[1] == '5';
    assert SkipSpaces(five, 1) == 1 && SkipSpaces(five, 0) == 1;
    FiveStripped(five);
    assert five[1..] == "5";
  }

  lemma UnderscoreIsZero(s: string)
    requires s == "_"
    ensures Rtoi(s) == Some(0)
  {
    assert s[1..] == [] && s[0..] == s;
    RtoiOther(s);
  }

  lemma FiveStripped(five: string)
    requires five == " 5"
    ensures Strip(five) == five && Value("5", 10) == 5
  {
    assert five[1..] == "5" && five[1..][1..] == [];
    assert "5"[..0] == [];
  }

  // ---- printing ----

  function PrintNat(n: nat): (s: string)
    ensures s != []
  {
    if n < 10 then [(n + '0' as int) as char] else PrintNat(n / 10) + [(n % 10 + '0' as int) as char]
  }

  /** The format of print_raw for an integer. */
  function PrintInt(v: int): string {
    if v < 0 then "-" + PrintNat(-v) else PrintNat(v)
  }

  lemma {:induction false} PrintedDigits(n: nat)
    ensures var s := PrintNat(n);
            && (forall c :: c in s ==> IsDigit(c)) && (n > 0 ==> s[0] != '0') && Value(s, 10) == n && Strip(s) == s
  {
    var s := PrintNat(n);
    if n >= 10 {
      PrintedDigits(n / 10);
      assert s[..|s| - 1] == PrintNat(n / 10);
      StripSnoc(s, |s| - 1);
      assert s[..|s|] == s;
    } else {
      assert Value(s[..0], 10) == 0;
    }
  }

  /** Printing an int64 and reading it back is the identity. */
  lemma PrintRead(v: int)
    requires FitsInt64(v)
    ensures Rtoi(PrintInt(v)) == Some(v)
  {
    var n: nat := if v < 0 then -v else v;
    var s, d := PrintInt(v), PrintNat(n);
    PrintedDigits(n);
    PrintedShape(v, n);
    DecimalIsValue(d);
    RtoiExact(s);
  }

  lemma PrintedShape(v: int, n: nat)
    requires n == if v < 0 then -v else v
    ensures var s, d := PrintInt(v), PrintNat(n);
            && NulFree(s) && SignLen(s) == (if v < 0 then 1 else 0) && s[SignLen(s)..] == d
            && DecimalLiteral(d) && IsDigit(d[0])
  {
    PrintedLiteral(n);
    var d := PrintNat(n);
    var s := PrintInt(v);
    if v < 0 {
      assert s == "-" + d;
      assert s[1..] == d;
    } else {
      assert s[0..] == d;
    }
    forall c | c in s ensures c != '\0' { assert c == '-' || c in d; }
  }

  lemma PrintedLiteral(n: nat)
    ensures DecimalLiteral(PrintNat(n)) && forall c :: c in PrintNat(n) ==> IsDigit(c)
    ensures IsDigit(PrintNat(n)[0])
  {
    var d := PrintNat(n);
    PrintedDigits(n);
    assert d[0] in d;
    if n == 0 {
      PrintZero();
    } else {
      assert forall c :: c in d ==> IsDigit(c) ==> DecimalDigit(c);
    }
  }

  lemma PrintZero()
    ensures PrintNat(0) == "0"
  {
  }

  /** Outside that domain base 0 shows: an underscore before 0x hides the 0 from the test for it. */
  lemma UnderscoreHidesPrefix()
    ensures Rtoi("_0x1F") == Some(31) && !DecimalLiteral("_0x1F") && Rtoi("0x1F") == None
  {
    var s, t := "_0x1F", "0x1F";
    hide Strip, Strtoll;
    StripHex();
    HexRead();
    assert s[0..] == s && s[..0] + t == t;
  }

  lemma StripHex()
    ensures Strip("_0x1F") == "0x1F"
  {
    var s := "_0x1F";
    assert Strip("F") == "F" by { assert Strip([]) == []; }
    assert s[1..] == "0x1F" && "0x1F"[1..] == "x1F" && "x1F"[1..] == "1F" && "1F"[1..] == "F";
  }

  lemma HexRead()
    ensures Strtoll("0x1F") == Read(31, 4, false)
  {
    var t := "0x1F";
    assert SkipSpaces(t, 0) == 0;
    assert DigitOf('1') == 1 && DigitOf('F') == 15;
    assert DigitsEnd(t, 4, 16) == 4 && DigitsEnd(t, 3, 16) == 4 && DigitsEnd(t, 2, 16) == 4;
    assert t[2..4] == "1F" && "1F"[..1] == "1" && "1"[..0] == [];
    assert Value([], 16) == 0 && Value("1", 16) == 1 && Value("1F", 16) == 31;
  }
}
