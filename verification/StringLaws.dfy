/** What string texts mean, byte by byte (contrib/tomlc99/toml.c:391-481, 486-543, 1864-1946): escapes, deleted
    line ends, the newline after an opening triple quote, and bare keys. */
module StringLaws {
  import opened Text
  import opened Lexer
  import Utf8
  import LineJoin
  import opened Strings
  import opened EscapePrinter
  import TokenLaws

  const HEX := "0123456789ABCDEF"

  // ---- escapes ----

  /** The last n hexadecimal digits of v. */
  function Hex(v: nat, n: nat): (s: string)
    ensures |s| == n
  {
    if n == 0 then "" else Hex(v / 16, n - 1) + [HEX[v % 16]]
  }

  function Pow16(n: nat): nat {
    if n == 0 then 1 else 16 * Pow16(n - 1)
  }

  lemma HexDigits()
    ensures forall d :: 0 <= d < 16 ==> IsHex(HEX[d]) && HexDigit(HEX[d]) == d
  {
  }

  lemma {:induction false} HexReads(src: string, p: nat, n: nat, v: nat)
    requires Has(src, p, Hex(v, n)) && v < Pow16(n)
    ensures HexRun(src, p, n) && HexValue(src, p, n) == v
    decreases n
  {
    if n == 0 {
    } else {
      HexDigits();
      HasSplit(src, p, Hex(v / 16, n - 1), [HEX[v % 16]]);
      HasByte(src, p, Hex(v, n), n - 1);
      HexReads(src, p, n - 1, v / 16);
    }
  }

  /** The text of a basic string that is one \\u or \\U escape. */
  function EscapeText(v: nat, long: bool): string {
    "\"\\" + (if long then "U" + Hex(v, 8) else "u" + Hex(v, 4)) + "\""
  }

  lemma CodeBytes(v: nat)
    requires 0 < v && Utf8.Encode(v).Some?
    ensures NulFree(Utf8.Encode(v).value)
  {
    Utf8.EncodesAs(v);
  }

  lemma EscapeParts(v: nat, long: bool)
    ensures var text, n := EscapeText(v, long), if long then 8 else 4;
            && |text| == n + 4 && text[0] == '"' && text[1] == '\\' && text[2] == (if long then 'U' else 'u')
            && Has(text, 3, Hex(v, n)) && text[n + 3] == '"'
  {
  }

  /** The code that an escape names: its digits, written to base 16, are those of the code. */
  lemma UnicodeEscape(v: nat, long: bool)
    requires if long then v < 0x1_0000_0000 else v < 0x1_0000
    ensures Rtos(EscapeText(v, long)) == if v == 0 then Some("") else Utf8.Encode(v)
  {
    hide Rtos, Hex, EscapeText, HexRun, HexValue;
    var text, n := EscapeText(v, long), if long then 8 else 4;
    assert v < Pow16(n) by { assert Pow16(4) == 0x1_0000 && Pow16(8) == 0x1_0000 * Pow16(4); }
    EscapeParts(v, long);
    HexReads(text, 3, n, v);
    RtosOfSingle(text);
    OneEscape(text, n, v);
    if v == 0 { Utf8.EncodesAs(0); } else if Utf8.Encode(v).Some? { CodeBytes(v); CStrOfNulFree(Utf8.Encode(v).value); }
  }

  lemma OneEscape(text: string, n: nat, v: nat)
    requires |text| == n + 4 && text[1] == '\\' && (if n == 8 then text[2] == 'U' else n == 4 && text[2] == 'u')
    requires HexRun(text, 3, n) && HexValue(text, 3, n) == v
    ensures Normalize(text, 1, |text| - 1, true) == Utf8.Encode(v)
  {
    hide HexRun, HexValue;
    assert Normalize(text, n + 3, n + 3, true) == Some([]);
    assert !EndsLine(text, 2);
    match Utf8.Encode(v)
    case None =>
    case Some(e) => assert e + [] == e;
  }

  /** A text of a basic string with one escape of one letter. */
  function LetterText(c: char): string {
    "\"\\" + [c] + "\""
  }

  lemma OneLetter(c: char)
    requires c != '\n' && c != '\r'
    ensures Normalize(LetterText(c), 1, 3, true) == if IsSimpleEscape(c) then Some([Unescape(c)]) else None
  {
    var text := LetterText(c);
    assert text[1] == '\\' && text[2] == c;
    assert Normalize(text, 3, 3, true) == Some([]);
    if IsSimpleEscape(c) { assert [Unescape(c)] + [] == [Unescape(c)]; }
  }

  /** What each letter after a backslash stands for; no other letter may stand there. */
  lemma LetterEscape(c: char)
    requires c != '\n' && c != '\r'
    ensures Rtos(LetterText(c)) ==
            if c == 'b' then Some([8 as char]) else if c == 't' then Some([9 as char])
            else if c == 'n' then Some([10 as char]) else if c == 'f' then Some([12 as char])
            else if c == 'r' then Some([13 as char]) else if c == '"' then Some([34 as char])
            else if c == '\\' then Some([92 as char]) else None
  {
    hide Rtos, Normalize;
    var text := LetterText(c);
    assert |text| == 4 && text[0] == '"' && text[1] == '\\' && text[3] == '"';
    RtosOfSingle(text);
    OneLetter(c);
    if IsSimpleEscape(c) { CStrOfNulFree([Unescape(c)]); }
  }

  /** Only the sixteen digits make an escape: with any other byte among the four the text is refused. */
  lemma BadHexRefused(s: string, i: nat)
    requires |s| == 4 && i < 4 && s[i] !in HEX
    ensures Rtos("\"\\u" + s + "\"") == None
  {
    hide Rtos;
    var text := "\"\\u" + s + "\"";
    assert |text| == 8 && text[0] == '"' && text[1] == '\\' && text[2] == 'u' && text[7] == '"' && text[3 + i] == s[i];
    assert !IsHex(s[i]) by { if IsHex(s[i]) { HexIsListed(s[i]); } }
    assert !HexRun(text, 3, 4);
    assert !EndsLine(text, 2);
    RtosOfSingle(text);
  }

  lemma HexIsListed(c: char)
    requires IsHex(c)
    ensures c in HEX
  {
    var d := if IsDigit(c) then c as int - '0' as int else c as int - 'A' as int + 10;
    assert HEX[d] == c;
  }

  // ---- what the scanner makes of them ----

  predicate EscapeLetter(c: char) {
    c == 'b' || c == 't' || c == 'n' || c == 'f' || c == 'r' || c == '"' || c == '\\'
  }

  /** A basic string with an escape of one letter is scanned whole for these seven letters and for no other. */
  lemma LetterScanned(c: char, dot: bool)
    ensures ScanEnd(LetterText(c), 0, dot) == if EscapeLetter(c) then Some(4) else None
  {
    var text := LetterText(c);
    assert |text| == 4 && text[0] == '"' && text[1] == '\\' && text[2] == c && text[3] == '"';
    SingleScan(text, dot);
    assert BasicEnd(text, 3) == Some(3);
    assert !IsHex('"');
  }

  lemma SingleScan(text: string, dot: bool)
    requires |text| >= 2 && text[0] == '"' && text[1] != '"'
    ensures ScanEnd(text, 0, dot) == match BasicEnd(text, 1) case None => None case Some(i) => Some(i + 1)
  {
    assert text[0..] == text;
    TokenLaws.NotTripled(text, 0, "'''");
    TokenLaws.NotTripled(text, 0, "\"\"\"");
  }

  /** The same between triple quotes, where a backslash may also end a line. */
  lemma LetterScannedTriple(c: char, dot: bool)
    ensures ScanEnd("\"\"\"\\" + [c] + "\"\"\"", 0, dot) == if EscapeLetter(c) || c == '\n' then Some(8) else None
  {
    var text := "\"\"\"\\" + [c] + "\"\"\"";
    assert |text| == 8 && text[3] == '\\' && text[4] == c && text[5] == '"' && text[6] == '"' && text[7] == '"';
    assert text[0..] == text && text[0] == '"' && text[..3] == "\"\"\"";
    TokenLaws.NotTripled(text, 0, "'''");
    assert TripleEnd(text, 8, 3) == Some(8) && TripleEnd(text, 7, 2) == Some(8) && TripleEnd(text, 6, 1) == Some(8);
    assert TripleEnd(text, 5, 0) == Some(8);
    assert !IsHex('"');
  }

  /** The text of an escape by its code is scanned whole. */
  lemma EscapeScanned(v: nat, long: bool, dot: bool)
    requires if long then v < 0x1_0000_0000 else v < 0x1_0000
    ensures ScanEnd(EscapeText(v, long), 0, dot) == Some(|EscapeText(v, long)|)
  {
    hide Hex, EscapeText, HexRun, HexValue;
    var text, n := EscapeText(v, long), if long then 8 else 4;
    assert v < Pow16(n) by { assert Pow16(4) == 0x1_0000 && Pow16(8) == 0x1_0000 * Pow16(4); }
    EscapeParts(v, long);
    HexReads(text, 3, n, v);
    SingleScan(text, dot);
    assert BasicEnd(text, n + 3) == Some(n + 3);
  }

  // ---- line ends ----

  predicate White(c: char) {
    c == ' ' || c == '\t' || c == '\r' || c == '\n'
  }

  lemma {:induction false} DropsWhite(w: string, x: string)
    requires (forall i :: 0 <= i < |w| ==> White(w[i])) && (x == "" || !White(x[0]))
    ensures LineJoin.DropSpace(w + x) == x
    decreases |w|
  {
    if w == "" {
      assert w + x == x;
    } else {
      assert (w + x)[1..] == w[1..] + x;
      DropsWhite(w[1..], x);
    }
  }

  /** The filter of kill_line_ending_backslash, in three laws: a backslash before LF or CRLF goes with the line
      end and the white space after it; a backslash before anything else stays; so does any other byte. */
  lemma LineEndDeleted(nl: string, w: string, x: string)
    requires nl == "\n" || nl == "\r\n"
    requires (forall i :: 0 <= i < |w| ==> White(w[i])) && (x == "" || !White(x[0]))
    ensures LineJoin.Join("\\" + (nl + (w + x))) == LineJoin.Join(x)
  {
    var s, v := "\\" + (nl + (w + x)), nl + w;
    assert s[1..] == v + x by { assert nl + (w + x) == v + x; }
    assert s[1] == nl[0] && (nl == "\r\n" ==> s[2] == '\n');
    assert forall i :: 0 <= i < |v| ==> White(v[i]);
    DropsWhite(v, x);
    assert LineJoin.Joins(s);
  }

  lemma OtherBytesStay(c: char, x: string)
    requires c != '\\' || !("\n" <= x || "\r\n" <= x)
    ensures LineJoin.Join([c] + x) == [c] + LineJoin.Join(x)
  {
    var s := [c] + x;
    assert s[1..] == x;
    assert !LineJoin.Joins(s) by {
      if c == '\\' && |x| > 0 { assert s[1] == x[0]; }
      if c == '\\' && |x| > 1 { assert s[2] == x[1]; }
    }
  }

  // ---- the newline after an opening triple quote ----

  predicate StartsLine(s: string) {
    "\n" <= s || "\r\n" <= s
  }

  lemma AfterNewlineIs(nl: string, s: string)
    requires nl == "\n" || nl == "\r\n" || (nl == "" && !StartsLine(s))
    ensures AfterNewline(nl + s, 0) == |nl|
  {
    var t := nl + s;
    if nl == "" {
      assert t == s;
      if |s| > 0 { assert s[..1] == [s[0]]; }
      if |s| > 1 { assert s[..2] == [s[0], s[1]]; }
    } else {
      assert t[0] == nl[0] && (nl == "\r\n" ==> t[1] == '\n');
    }
  }

  /** One LF or CRLF there is skipped, and nothing else is. */
  lemma MultilineLiteral(nl: string, s: string)
    requires nl == "\n" || nl == "\r\n" || (nl == "" && !StartsLine(s))
    ensures Rtos("'''" + (nl + s) + "'''") == Some(LineJoin.Join(s))
  {
    hide Rtos;
    MultilineLiteralValue(nl + s);
    AfterNewlineIs(nl, s);
    assert (nl + s)[|nl|..] == s;
  }

  /** The same between triple quotes, for a text without quotes and backslashes: its value is itself. */
  lemma MultilineBasic(nl: string, s: string)
    requires nl == "\n" || nl == "\r\n" || (nl == "" && !StartsLine(s))
    requires NulFree(s) && '"' !in s && '\\' !in s
    ensures Rtos("\"\"\"" + (nl + s) + "\"\"\"") == Some(s)
    ensures ScanEnd("\"\"\"" + (nl + s) + "\"\"\"", 0, false) == Some(|nl| + |s| + 6)
  {
    hide Rtos, Normalize, ScanEnd, TripleEnd;
    var body := nl + s;
    var text := "\"\"\"" + body + "\"\"\"";
    var n := |text| - 3;
    assert Has(text, 3, body) && |text| == |body| + 6;
    assert text[n] == '"' && text[n + 1] == '"' && text[n + 2] == '"';
    AfterNewlineIs(nl, s);
    assert AfterNewline(text, 3) == 3 + |nl| by { NewlineAt(text, body); }
    HasSplit(text, 3, nl, s);
    PlainReads(text, 3 + |nl|, s, true);
    CStrOfNulFree(s);
    TripleRtos(text);
    assert '"' !in body && '\\' !in body;
    PlainTriple(text, 3, body);
    TripleScan(text);
  }

  lemma NewlineAt(text: string, body: string)
    requires Has(text, 3, body) && |text| == |body| + 6 && text[|body| + 3] == '"'
    ensures AfterNewline(text, 3) == 3 + AfterNewline(body, 0)
  {
    if |body| > 0 { HasByte(text, 3, body, 0); }
    if |body| > 1 { HasByte(text, 3, body, 1); }
  }

  lemma {:induction false} PlainReads(text: string, p: nat, s: string, kill: bool)
    requires Has(text, p, s) && '\\' !in s
    ensures Normalize(text, p, p + |s|, kill) == Some(s)
    decreases |s|
  {
    if s == "" {
    } else {
      HasByte(text, p, s, 0);
      HasSplit(text, p, [s[0]], s[1..]) by { assert [s[0]] + s[1..] == s; }
      PlainReads(text, p + 1, s[1..], kill);
      assert [s[0]] + s[1..] == s;
      assert s[0] in s;
    }
  }

  lemma TripleRtos(text: string)
    requires |text| >= 6 && "\"\"\"" <= text && text[|text| - 3..] == "\"\"\""
    ensures var v := Normalize(text, AfterNewline(text, 3), |text| - 3, true);
            Rtos(text) == if v.None? then None else Some(CStr(v.value))
  {
    assert text[..3] == "\"\"\"";
  }

  lemma {:induction false} PlainTriple(text: string, p: nat, s: string)
    requires Has(text, p, s) && '\\' !in s && '"' !in s && p + |s| + 3 == |text|
    requires text[p + |s|] == '"' && text[p + |s| + 1] == '"' && text[p + |s| + 2] == '"'
    ensures TripleEnd(text, p, 0) == Some(|text|)
    decreases |s|
  {
    if s == "" {
      assert TripleEnd(text, p + 3, 3) == Some(p + 3);
      assert TripleEnd(text, p + 2, 2) == TripleEnd(text, p + 3, 3);
      assert TripleEnd(text, p + 1, 1) == TripleEnd(text, p + 2, 2);
    } else {
      HasByte(text, p, s, 0);
      assert [s[0]] + s[1..] == s;
      HasSplit(text, p, [s[0]], s[1..]);
      assert s[0] in s;
      PlainTriple(text, p + 1, s[1..]);
    }
  }

  lemma TripleScan(text: string)
    requires "\"\"\"" <= text
    ensures ScanEnd(text, 0, false) == TripleEnd(text, 3, 0)
  {
    assert text[0..] == text && text[..3][0] == '"';
  }

  // ---- bare keys ----

  predicate BareByte(c: char) {
    '0' <= c <= '9' || 'A' <= c <= 'Z' || 'a' <= c <= 'z' || c == '_' || c == '-'
  }

  /** A word that does not start with a quote is a key exactly when it has letters, digits, underscores and
      dashes only, and then it is its own key. */
  lemma BareKeyExactly(s: string)
    requires s != "" ==> s[0] != '\'' && s[0] != '"'
    ensures NormalizeKey(s) == if forall i :: 0 <= i < |s| ==> BareByte(s[i]) then Some(s) else None
  {
    if forall i :: 0 <= i < |s| ==> BareByte(s[i]) {
      assert forall c :: c in s ==> IsBareKeyChar(c);
    } else {
      var i :| 0 <= i < |s| && !BareByte(s[i]);
      assert s[i] in s && !IsBareKeyChar(s[i]);
    }
  }

  /** Three quotes of either sort around a key are taken off, and a newline between them is refused. */
  lemma TripleQuotedKey(s: string)
    requires NulFree(s)
    ensures NormalizeKey("'''" + (s + "'''")) == if '\n' in s then None else Some(s)
    ensures '\\' !in s ==> NormalizeKey("\"\"\"" + (s + "\"\"\"")) == if '\n' in s then None else Some(s)
  {
    CStrOfNulFree(s);
    KeyBody("'''", s);
    KeyBody("\"\"\"", s);
    if '\\' !in s { PlainReads("\"\"\"" + (s + "\"\"\""), 3, s, false); }
  }

  lemma KeyBody(q: string, s: string)
    requires |q| == 3 && q[0] == q[1] == q[2]
    ensures var text := q + (s + q); |text| == |s| + 6 && Has(text, 3, s) && text[3..|text| - 3] == s
    ensures var text := q + (s + q); text[0] == text[1] == text[2] == q[0]
  {
  }
}
