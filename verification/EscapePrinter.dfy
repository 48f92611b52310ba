/** print_escape_string (contrib/tomlc99/toml_json.c:37-52), the inverse of scanning and
    normalising a basic string. */
module EscapePrinter {
  import opened Text
  import opened Lexer
  import opened Strings

  function EscapeChar(c: char): (e: string)
    ensures 1 <= |e| <= 2
  {
    if c == 8 as char then "\\b"
    else if c == '\t' then "\\t"
    else if c == '\n' then "\\n"
    else if c == 12 as char then "\\f"
    else if c == '\r' then "\\r"
    else if c == '"' then "\\\""
    else if c == '\\' then "\\\\"
    else [c]
  }

  function Escape(s: string): string {
    if s == [] then [] else EscapeChar(s[0]) + Escape(s[1..])
  }

  /** The switch of print_escape_string. */
  method PutEscaped(ch: char) returns (out: string)
    ensures out == EscapeChar(ch)
  {
    if ch == 8 as char { out := "\\b"; }
    else if ch == '\t' { out := "\\t"; }
    else if ch == '\n' { out := "\\n"; }
    else if ch == 12 as char { out := "\\f"; }
    else if ch == '\r' { out := "\\r"; }
    else if ch == '"' { out := "\\\""; }
    else if ch == '\\' { out := "\\\\"; }
    else { out := [ch]; }
  }

  /** print_escape_string: prints up to the NUL. */
  method PrintEscapeString(s: string) returns (out: string)
    ensures out == Escape(CStr(s))
  {
    out := [];
    var i := 0;
    assert s[0..] == s;
    while At(s, i) != '\0'
      invariant i <= |s|
      invariant Escape(CStr(s)) == out + Escape(CStr(s[i..]))
      decreases |s| - i
    {
      var piece := PutEscaped(s[i]);
      EscapeStep(s, i);
      assert out + (piece + Escape(CStr(s[i + 1..]))) == (out + piece) + Escape(CStr(s[i + 1..]));
      out := out + piece;
      i := i + 1;
    }
    EscapeStop(s, i);
    assert out + [] == out;
  }

  lemma EscapeStep(s: string, i: nat)
    requires At(s, i) != '\0'
    ensures Escape(CStr(s[i..])) == EscapeChar(s[i]) + Escape(CStr(s[i + 1..]))
  {
    assert s[i..][1..] == s[i + 1..];
  }

  lemma EscapeStop(s: string, i: nat)
    requires i <= |s| && At(s, i) == '\0'
    ensures Escape(CStr(s[i..])) == []
  {
  }

  /** One printed byte: the scanner steps over it and the normaliser reads it back. */
  lemma PrintedByte(src: string, p: nat, q: nat, c: char, kill: bool)
    requires p + |EscapeChar(c)| <= q < |src|
    requires src[p] == EscapeChar(c)[0] && (|EscapeChar(c)| == 2 ==> src[p + 1] == EscapeChar(c)[1])
    ensures BasicEnd(src, p) == BasicEnd(src, p + |EscapeChar(c)|)
    ensures Normalize(src, p, q, kill) == Prepend([c], Normalize(src, p + |EscapeChar(c)|, q, kill))
  {
    if |EscapeChar(c)| == 2 {
      assert EscapeLen(src, p) == Some(2) && Unescape(src[p + 1]) == c;
    }
  }

  lemma BodyEnd(src: string, p: nat, kill: bool)
    requires At(src, p) == '"'
    ensures BasicEnd(src, p) == Some(p) && Normalize(src, p, p, kill) == Some([])
  {
  }

  /** The scanner goes over the printed body to the quote that closes it, and the normaliser, with
      or without the line-ending flag, reads the body back. */
  lemma {:induction false} ScanAndNormaliseBody(src: string, p: nat, s: string, kill: bool)
    requires Has(src, p, Escape(s)) && At(src, p + |Escape(s)|) == '"'
    ensures BasicEnd(src, p) == Some(p + |Escape(s)|)
    ensures Normalize(src, p, p + |Escape(s)|, kill) == Some(s)
    decreases |s|
  {
    hide BasicEnd, Normalize, EscapeChar;
    if s == [] {
      BodyEnd(src, p, kill);
    } else {
      var e, rest := EscapeChar(s[0]), Escape(s[1..]);
      assert Escape(s) == e + rest;
      HasSplit(src, p, e, rest);
      HasByte(src, p, e, 0);
      if |e| == 2 { HasByte(src, p, e, 1); }
      PrintedByte(src, p, p + |Escape(s)|, s[0], kill);
      ScanAndNormaliseBody(src, p + |e|, s[1..], kill);
      assert s == [s[0]] + s[1..];
    }
  }

  /** The first byte of an escaped text is never a quote. */
  lemma EscapeStart(s: string)
    ensures s != [] ==> Escape(s) != [] && Escape(s)[0] != '"'
  {
  }

  const QUOTE := "\""

  function Quoted(s: string): string {
    [QUOTE[0]] + Escape(s) + QUOTE
  }

  /** A quoted print starts a triple-quoted string only if it is empty and a quote follows. */
  lemma NotTriple(src: string, p: nat, s: string)
    requires p < |src| && src[p] == '"' && Has(src, p + 1, Escape(s))
    requires s == [] ==> At(src, p + 2) != '"'
    ensures !("\"\"\"" <= src[p..]) && !("'''" <= src[p..])
  {
    assert src[p..][0] == src[p];
    if s == [] {
      assert |src[p..]| >= 3 ==> src[p..][2] == src[p + 2];
    } else {
      EscapeStart(s);
      HasByte(src, p + 1, Escape(s), 0);
      assert src[p..][1] == src[p + 1];
    }
  }

  lemma QuotedParts(src: string, p: nat, s: string)
    requires Has(src, p, Quoted(s))
    ensures |Quoted(s)| == |Escape(s)| + 2
    ensures At(src, p) == '"' && Has(src, p + 1, Escape(s)) && At(src, p + 1 + |Escape(s)|) == '"'
  {
    var body := Escape(s);
    HasSplit(src, p, QUOTE + body, QUOTE);
    HasSplit(src, p, QUOTE, body);
    HasByte(src, p, QUOTE, 0);
    HasByte(src, p + 1 + |body|, QUOTE, 0);
  }

  /** Where a quoted print stands, the scanner takes exactly it. */
  lemma PrintedIsOneToken(src: string, p: nat, s: string, dot: bool)
    requires Has(src, p, Quoted(s))
    requires s == [] ==> At(src, p + 2) != '"'
    ensures ScanEnd(src, p, dot) == Some(p + |Quoted(s)|)
  {
    hide BasicEnd, Escape;
    QuotedParts(src, p, s);
    ScanAndNormaliseBody(src, p + 1, s, true);
    NotTriple(src, p, s);
  }

  /** The value of a quoted print of s is s. */
  lemma PrintedValue(s: string)
    requires NulFree(s)
    ensures Rtos(Quoted(s)) == Some(s)
  {
    hide Rtos, Normalize, BasicEnd;
    var token := Quoted(s);
    assert Has(token, 0, token);
    QuotedParts(token, 0, s);
    ScanAndNormaliseBody(token, 1, s, true);
    NotTriple(token, 0, s);
    assert token[0..] == token;
    RtosOfSingle(token);
    CStrOfNulFree(s);
  }

  /** toml_rtos on a text in single double-quotes. */
  lemma RtosOfSingle(token: string)
    requires |token| >= 2 && token[0] == '"' && token[|token| - 1] == '"' && !("\"\"\"" <= token)
    ensures var v := Normalize(token, 1, |token| - 1, true);
            Rtos(token) == if v.None? then None else Some(CStr(v.value))
  {
    assert token[|token| - 1..] == token[..1];
  }

  /** Print, scan, normalise is the identity: in any text, a quoted print of s is one token, and the
      value of that token is s again. */
  lemma PrintScanNormalise(before: string, s: string, rest: string, dot: bool)
    requires NulFree(s)
    requires s == [] ==> !(QUOTE <= rest)
    ensures ScanEnd(before + Quoted(s) + rest, |before|, dot) == Some(|before| + |Quoted(s)|)
    ensures Rtos(Quoted(s)) == Some(s)
  {
    hide Rtos, ScanEnd;
    HasInside(before, Quoted(s), rest);
    if s == [] { assert At(before + Quoted(s) + rest, |before| + 2) == At(rest, 0); }
    PrintedIsOneToken(before + Quoted(s) + rest, |before|, s, dot);
    PrintedValue(s);
  }

  // ---- keys ----

  /** A quoted print is a key for every text without a newline, and that key is the text. */
  lemma QuotedIsKey(s: string)
    requires NulFree(s)
    ensures NormalizeKey(Quoted(s)) == if '\n' in s then None else Some(s)
  {
    hide Normalize, BasicEnd, Escape, NormalizeKey;
    var text := Quoted(s);
    assert Has(text, 0, text);
    QuotedParts(text, 0, s);
    ScanAndNormaliseBody(text, 1, s, false);
    EscapeStart(s);
    if s != [] {
      HasByte(text, 1, Escape(s), 0);
    } else {
      assert Escape(s) == [] by { EscapeNothing(); }
    }
    KeyOfQuoted(text);
    CStrOfNulFree(s);
  }

  lemma EscapeNothing()
    ensures Escape([]) == []
  {
  }

  /** The key of a word between single quotes of either sort. */
  lemma KeyOfQuoted(text: string)
    requires |text| >= 2 && (text[0] == '\'' || text[0] == '"')
    requires !(At(text, 1) == text[0] && At(text, 2) == text[0])
    ensures var body := if text[0] == '\'' then Some(text[1..|text| - 1]) else Normalize(text, 1, |text| - 1, false);
            NormalizeKey(text) ==
            if body.None? || '\n' in CStr(body.value) then None else Some(CStr(body.value))
  {
  }

  /** The same between apostrophes, for a text that has none. */
  lemma LiteralIsKey(s: string)
    requires NulFree(s) && '\'' !in s
    ensures NormalizeKey("'" + s + "'") == if '\n' in s then None else Some(s)
  {
    hide NormalizeKey;
    var text := "'" + s + "'";
    assert |text| == |s| + 2 && text[0] == '\'';
    if s != [] { assert text[1] == s[0] && s[0] in s; }
    assert text[1..|text| - 1] == s;
    KeyOfQuoted(text);
    CStrOfNulFree(s);
  }

  /** A bare word is its own key. */
  lemma BareIsKey(s: string)
    requires forall c :: c in s ==> IsBareKeyChar(c)
    ensures NormalizeKey(s) == Some(s)
  {
    if s != [] { assert s[0] in s; }
  }
}
