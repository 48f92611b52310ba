/** Reading integers in terms of the bytes themselves (contrib/tomlc99/toml.c:1783-1821): the range, the white
    space, the buffer and the digits of each base. */
module NumberLaws {
  import opened Text
  import opened Numbers

  /** A printed integer of any size is read exactly if it fits 64 bits. */
  lemma PrintReadExactly(v: int)
    ensures Rtoi(PrintInt(v)) == if -9223372036854775808 <= v <= 9223372036854775807 then Some(v) else None
  {
    hide Rtoi, PrintInt, PrintNat, DecimalLiteral, Decimal;
    var n: nat := if v < 0 then -v else v;
    PrintedDigits(n);
    PrintedShape(v, n);
    DecimalIsValue(PrintNat(n));
    PrintedSign(v);
    RtoiExact(PrintInt(v));
  }

  lemma PrintedSign(v: int)
    ensures PrintInt(v) != "" && (PrintInt(v)[0] == '-' <==> v < 0)
  {
    if v >= 0 { PrintedLiteral(v); }
  }

  /** Two digits in each of the three bases. */
  lemma TwoDigits(c: char, d: char, base: nat)
    ensures Value([c, d], base) == DigitOf(c) * base + DigitOf(d)
  {
    assert [c, d][..1] == [c] && [c][..0] == [];
    assert Value([], base) == 0 && Value([c], base) == DigitOf(c);
  }

  /** A text after an underscore that has no underscores, no NUL and no sign or white space in front. */
  lemma AfterUnderscore(b: string)
    requires NulFree(b) && '_' !in b && b != "" && b[0] != '-' && b[0] != '+' && !IsCSpace(b[0])
    ensures Rtoi("_" + b) == if |b| >= 100 then None else
              match Constant(b) case None => None case Some(n) => if FitsInt64(n) then Some(n) else None
  {
    hide Constant, Strip, Rtoi;
    var s := "_" + b;
    StripNone(b);
    StripFirst(b);
    assert s[..0] + b == b && s[0..] == s && SignLen(s) == 0;
    assert SkipSpaces(b, 0) == 0 && NumberStart(b) == 0 && b[0..] == b;
    RtoiOther(s);
  }

  lemma StripFirst(b: string)
    ensures Strip("_" + b) == Strip(b)
  {
    assert ("_" + b)[1..] == b;
  }

  lemma {:induction false} StripNone(b: string)
    requires '_' !in b
    ensures Strip(b) == b
  {
    if b == [] {
    } else {
      assert b[0] in b;
      StripNone(b[1..]);
    }
  }

  const LOWER := "0123456789abcdef"
  const UPPER := "0123456789ABCDEF"

  lemma DigitIs(c: char, i: nat)
    requires i < 16 && (c == LOWER[i] || c == UPPER[i])
    ensures DigitOf(c) == i && c != '_' && c != '\0'
  {
  }

  /** Hexadecimal digits of either case, after either prefix. */
  lemma HexPair(x: char, c: char, i: nat, d: char, j: nat)
    requires (x == 'x' || x == 'X') && i < 16 && j < 16
    requires (c == LOWER[i] || c == UPPER[i]) && (d == LOWER[j] || d == UPPER[j])
    ensures Rtoi("_" + ['0', x, c, d]) == Some(16 * i + j)
  {
    hide Rtoi;
    var b := ['0', x, c, d];
    DigitIs(c, i);
    DigitIs(d, j);
    TwoDigits(c, d, 16);
    assert b[2..] == [c, d];
    AfterUnderscore(b);
  }

  /** Octal digits; an eight or a nine among them is refused. */
  lemma OctalPair(c: char, i: nat, d: char, j: nat)
    requires i < 10 && j < 10 && c == UPPER[i] && d == UPPER[j]
    ensures Rtoi("_" + ['0', c, d]) == if i < 8 && j < 8 then Some(8 * i + j) else None
  {
    hide Rtoi;
    var b := ['0', c, d];
    DigitIs(c, i);
    DigitIs(d, j);
    TwoDigits(c, d, 8);
    assert Value(b, 8) == Value([c, d], 8) by { LeadingZero(c, d); }
    assert b[1] == c && b[2] == d && c != 'x' && c != 'X';
    AfterUnderscore(b);
  }

  lemma LeadingZero(c: char, d: char)
    ensures Value(['0', c, d], 8) == Value([c, d], 8)
  {
    assert ['0', c, d][..2] == ['0', c] && ['0', c][..1] == ['0'] && ['0'][..0] == [];
    assert Value([], 8) == 0 && Value(['0'], 8) == 0;
    TwoDigits('0', c, 8);
    TwoDigits(c, d, 8);
  }

  /** The white space that may stand before a number, and nothing else that may. */
  lemma BeforeDigit(c: char)
    requires !IsDigit(c) && c != '\0' && c != '+' && c != '-' && c != '_'
    ensures Rtoi([c, '5']) ==
            if c == ' ' || c == '\t' || c == '\n' || c == 11 as char || c == 12 as char || c == '\r' then Some(5)
            else None
  {
    var s := [c, '5'];
    if c == ' ' || c == '\t' || c == '\n' || c == 11 as char || c == 12 as char || c == '\r' {
      SpacedFive(c);
    } else {
      NoNumberStart(s);
    }
  }

  lemma SpacedFive(c: char)
    requires IsCSpace(c)
    ensures Rtoi([c, '5']) == Some(5)
  {
    hide Rtoi, Strip;
    var s := [c, '5'];
    StripNone(s);
    assert s[..0] + s == s && s[0..] == s && s[1..] == "5";
    assert SkipSpaces(s, 1) == 1 && SkipSpaces(s, 0) == 1 && NumberStart(s) == 1;
    assert Value("5", 10) == 5 by { assert "5"[..0] == []; }
    RtoiOther(s);
  }

  function Zeros(n: nat): (s: string)
    ensures |s| == n && forall i :: 0 <= i < n ==> s[i] == '0'
  {
    seq(n, i => '0')
  }

  lemma {:induction false} ZerosValue(n: nat)
    ensures Value(Zeros(n), 8) == 0
  {
    if n == 0 {
    } else {
      ZerosValue(n - 1);
      assert Zeros(n)[..n - 1] == Zeros(n - 1);
    }
  }

  /** The buffer takes ninety-nine bytes. */
  lemma BufferLimit(n: nat)
    ensures Rtoi("_" + Zeros(n)) == if n < 100 then Some(0) else None
  {
    hide Rtoi, Value;
    var b := Zeros(n);
    ZerosValue(n);
    if n == 0 {
      assert "_" + b == "_";
      UnderscoreIsZero("_");
    } else {
      assert AllBelow(b, 8) && (n > 1 ==> b[1] == '0');
      AfterUnderscore(b);
    }
  }
}
