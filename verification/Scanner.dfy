/** scan_string and next_token as the loops they are (contrib/tomlc99/toml.c:1411-1550), proved against
    the item-by-item lexer. The text is the NUL-free content of a C string. */
module Scanner {
  import opened Text
  import opened Lexer

  /** strstr from p. */
  method FindFrom(src: string, p: nat, pat: string) returns (r: Option<nat>)
    requires p <= |src|
    ensures r == Find(src, p, pat)
  {
    var i := p;
    while !(pat <= src[i..])
      invariant p <= i <= |src| && Find(src, i, pat) == Find(src, p, pat)
      decreases |src| - i
    {
      if i == |src| { return None; }
      i := i + 1;
    }
    return Some(i);
  }

  method ScanLiteral(src: string, start: nat) returns (r: Option<nat>)
    requires NulFree(src) && start <= |src|
    ensures r == match LiteralEnd(src, start) case None => None case Some(i) => Some(i + 1)
  {
    var p := start;
    while At(src, p) != '\0' && src[p] != '\n' && src[p] != '\''
      invariant start <= p <= |src| && LiteralEnd(src, p) == LiteralEnd(src, start)
      decreases |src| - p
    {
      p := p + 1;
    }
    NulAtEnd(src, p);
    if At(src, p) != '\'' { return None; }
    return Some(p + 1);
  }

  lemma NulAtEnd(src: string, p: nat)
    requires NulFree(src) && p <= |src|
    ensures At(src, p) == '\0' <==> p == |src|
  {
    if p < |src| { assert src[p] in src; }
  }

  /** The state of the quote scanners between two bytes: after a backslash, inside the hex digits of an
      escape whose backslash is at item, or between items. */
  ghost predicate InItem(src: string, item: nat, p: nat, escape: bool, hexreq: nat) {
    if escape then item + 1 == p <= |src| && src[item] == '\\' && hexreq == 0
    else if hexreq > 0 then
      && item + 2 <= p <= |src| && src[item] == '\\'
      && ((src[item + 1] == 'u' && p - (item + 2) + hexreq == 4) ||
          (src[item + 1] == 'U' && p - (item + 2) + hexreq == 8))
      && forall i :: item + 2 <= i < p ==> IsHex(src[i])
    else item == p <= |src|
  }

  /** A byte that is not a hex digit, inside an escape, spoils the item. */
  lemma BadHex(src: string, item: nat, p: nat, hexreq: nat)
    requires InItem(src, item, p, false, hexreq) && hexreq > 0
    requires p == |src| || !IsHex(src[p])
    ensures EscapeLen(src, item) == None
  {
  }

  /** The single-line basic scanner, from just past the opening quote. */
  method ScanBasic(src: string, start: nat) returns (r: Option<nat>)
    requires NulFree(src) && start <= |src|
    ensures r == match BasicEnd(src, start) case None => None case Some(i) => Some(i + 1)
  {
    var p := start;
    var hexreq := 0;
    var escape := false;
    ghost var item := start;
    while At(src, p) != '\0'
      invariant start <= item <= p <= |src| && InItem(src, item, p, escape, hexreq)
      invariant BasicEnd(src, item) == BasicEnd(src, start)
      decreases |src| - p
    {
      var c := src[p];
      if escape {
        escape := false;
        if IsSimpleEscape(c) {
          item := p + 1;
        } else if c == 'u' {
          hexreq := 4;
        } else if c == 'U' {
          hexreq := 8;
        } else {
          return None;
        }
      } else if hexreq > 0 {
        if !IsHex(c) {
          BadHex(src, item, p, hexreq);
          return None;
        }
        hexreq := hexreq - 1;
        if hexreq == 0 {
          HexDone(src, item, p);
          item := p + 1;
        }
      } else if c == '\\' {
        escape := true;
      } else if c == '\n' || c == '"' {
        break;
      } else {
        item := p + 1;
      }
      p := p + 1;
    }
    NulAtEnd(src, p);
    if p == |src| {
      if hexreq > 0 { BadHex(src, item, p, hexreq); }
      return None;
    }
    if src[p] != '"' { return None; }
    return Some(p + 1);
  }

  /** The last hex digit of an escape completes the item. */
  lemma HexDone(src: string, item: nat, p: nat)
    requires p < |src| && InItem(src, item, p, false, 1) && IsHex(src[p])
    ensures EscapeLen(src, item) == Some(p + 1 - item)
  {
  }

  /** The triple-quoted basic scanner, from just past the opening quotes. */
  method ScanTripleBasic(src: string, start: nat) returns (r: Option<nat>)
    requires NulFree(src) && start <= |src|
    ensures r == TripleEnd(src, start, 0)
  {
    var p := start;
    var hexreq := 0;
    var escape := false;
    var qcnt := 0;
    ghost var item := start;
    while At(src, p) != '\0' && qcnt < 3
      invariant start <= item <= p <= |src| && InItem(src, item, p, escape, hexreq) && qcnt <= 3
      invariant qcnt == 3 ==> !escape && hexreq == 0
      invariant TripleEnd(src, item, qcnt) == TripleEnd(src, start, 0)
      decreases |src| - p
    {
      var c := src[p];
      if escape {
        escape := false;
        if IsSimpleEscape(c) || c == '\n' {
          item := p + 1;
        } else if c == 'u' {
          hexreq := 4;
        } else if c == 'U' {
          hexreq := 8;
        } else {
          return None;
        }
      } else if hexreq > 0 {
        if !IsHex(c) {
          BadHex(src, item, p, hexreq);
          return None;
        }
        hexreq := hexreq - 1;
        if hexreq == 0 {
          HexDone(src, item, p);
          item := p + 1;
        }
      } else if c == '\\' {
        escape := true;
      } else {
        qcnt := if c == '"' then qcnt + 1 else 0;
        item := p + 1;
      }
      p := p + 1;
    }
    NulAtEnd(src, p);
    if qcnt != 3 {
      if hexreq > 0 { BadHex(src, item, p, hexreq); }
      return None;
    }
    return Some(p);
  }

  method ScanBare(src: string, start: nat, dot: bool) returns (p: nat)
    requires NulFree(src) && start <= |src|
    ensures p == BareEnd(src, start, dot)
  {
    p := start;
    while At(src, p) != '\0' && src[p] != '\n'
      invariant start <= p <= |src| && BareEnd(src, p, dot) == BareEnd(src, start, dot)
      decreases |src| - p
    {
      var ch := src[p];
      if ch == '.' && dot { break; }
      if !IsBare(ch, false) { break; }
      p := p + 1;
    }
    NulAtEnd(src, p);
  }

  /** scan_string: the end of the word at p. */
  method ScanString(src: string, p: nat, dot: bool) returns (r: Option<nat>)
    requires NulFree(src) && p < |src|
    ensures r == ScanEnd(src, p, dot)
  {
    if "'''" <= src[p..] {
      var i := FindFrom(src, p + 3, "'''");
      return match i case None => None case Some(q) => Some(q + 3);
    }
    if "\"\"\"" <= src[p..] {
      r := ScanTripleBasic(src, p + 3);
      return;
    }
    if src[p] == '\'' {
      r := ScanLiteral(src, p + 1);
      return;
    }
    if src[p] == '"' {
      r := ScanBasic(src, p + 1);
      return;
    }
    var q := ScanBare(src, p, dot);
    return Some(q);
  }

  /** The comment-skipping loop of next_token. */
  method SkipComment(src: string, start: nat) returns (p: nat)
    requires start <= |src|
    ensures p == LineEnd(src, start)
  {
    p := start;
    while p < |src| && src[p] != '\n'
      invariant start <= p <= |src| && LineEnd(src, p) == LineEnd(src, start)
    {
      p := p + 1;
    }
  }

  /** Eating a token: the newlines in it count. */
  method EatToken(src: string, tok: Token) returns (p: nat, lineno: nat)
    requires ValidTok(src, tok)
    ensures p == tok.pos + tok.len && lineno == LineAfter(src, tok)
  {
    p, lineno := tok.pos, tok.lineno;
    var i := 0;
    while i < tok.len
      invariant i <= tok.len && p == tok.pos + i
      invariant lineno + NewlinesBefore(src, tok.pos) == tok.lineno + NewlinesBefore(src, p)
    {
      if src[p] == '\n' { lineno := lineno + 1; }
      p := p + 1;
      i := i + 1;
    }
  }

  /** next_token. */
  method NextToken(src: string, tok: Token, dot: bool) returns (r: Option<Token>)
    requires NulFree(src) && ValidTok(src, tok)
    ensures r == Next(src, tok, dot)
  {
    var p, lineno := EatToken(src, tok);
    while p < |src|
      invariant tok.pos + tok.len <= p <= |src|
      invariant GapEnd(src, p) == GapEnd(src, tok.pos + tok.len)
    {
      var c := src[p];
      if c == '#' {
        p := SkipComment(src, p + 1);
        continue;
      }
      if dot && c == '.' { return Some(Token(Dot, lineno, p, 1, false)); }
      match c {
        case ',' => return Some(Token(Comma, lineno, p, 1, false));
        case '=' => return Some(Token(Equal, lineno, p, 1, false));
        case '{' => return Some(Token(LBrace, lineno, p, 1, false));
        case '}' => return Some(Token(RBrace, lineno, p, 1, false));
        case '[' => return Some(Token(LBracket, lineno, p, 1, false));
        case ']' => return Some(Token(RBracket, lineno, p, 1, false));
        case '\n' => return Some(Token(Newline, lineno, p, 1, false));
        case _ =>
      }
      if c == '\r' || c == ' ' || c == '\t' {
        p := p + 1;
        continue;
      }
      var e := ScanString(src, p, dot);
      return match e case None => None case Some(q) => Some(Token(Str, lineno, p, q - p, false));
    }
    return Some(Token(Newline, lineno, p, 0, true));
  }
}
