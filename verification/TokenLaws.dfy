/** Which bytes make which token (contrib/tomlc99/toml.c:1411-1550), in terms of the bytes themselves. */
module TokenLaws {
  import opened Text
  import opened Lexer

  // ---- gaps ----

  /** Between p and q stand blanks, and after them at most one comment, up to the end of its line; and at q
      neither a blank nor a comment starts. */
  ghost predicate Gap(src: string, p: nat, h: nat, q: nat) {
    && p <= h <= q <= |src|
    && (forall i :: p <= i < h ==> src[i] == ' ' || src[i] == '\t' || src[i] == '\r')
    && (h < q ==> src[h] == '#' && (forall i :: h <= i < q ==> src[i] != '\n') && (q < |src| ==> src[q] == '\n'))
    && (q < |src| ==> src[q] != ' ' && src[q] != '\t' && src[q] != '\r' && src[q] != '#')
  }

  ghost predicate GapTo(src: string, p: nat, q: nat) {
    exists h :: Gap(src, p, h, q)
  }

  lemma {:induction false} LineEndIs(src: string, p: nat, q: nat)
    requires p <= q <= |src| && (forall i :: p <= i < q ==> src[i] != '\n') && (q < |src| ==> src[q] == '\n')
    ensures LineEnd(src, p) == q
    decreases q - p
  {
    if p == q {
    } else {
      LineEndIs(src, p + 1, q);
    }
  }

  /** There is one such place, and the lexer goes there. */
  lemma {:induction false} GapEndIs(src: string, p: nat, h: nat, q: nat)
    requires Gap(src, p, h, q)
    ensures GapEnd(src, p) == q
    decreases h - p
  {
    if p < h {
      GapEndIs(src, p + 1, h, q);
    } else if h < q {
      LineEndIs(src, p + 1, q);
      assert GapEnd(src, q) == q;
    }
  }

  lemma {:induction false} GapExists(src: string, p: nat) returns (h: nat)
    requires p <= |src|
    ensures Gap(src, p, h, GapEnd(src, p))
    decreases |src| - p
  {
    var q := GapEnd(src, p);
    if p < |src| && (src[p] == ' ' || src[p] == '\t' || src[p] == '\r') {
      h := GapExists(src, p + 1);
    } else if p < |src| && src[p] == '#' {
      h := p;
      var e := LineEnd(src, p + 1);
      LineEndIsFirstNewline(src, p + 1);
      assert GapEnd(src, e) == e;
      assert forall i :: p + 1 <= i < e ==> src[p + 1..e][i - p - 1] == src[i];
    } else {
      h := p;
    }
  }

  // ---- kinds ----

  /** Every token, by the byte it starts with: the seven punctuation bytes and, where dots are special, the dot
      make tokens of one byte; anything else starts a word; the end of the text makes a newline without bytes. */
  lemma TokenBytes(src: string, t: Token, dot: bool, u: Token)
    requires ValidTok(src, t) && Next(src, t, dot) == Some(u)
    ensures GapTo(src, t.pos + t.len, u.pos)
    ensures u.eof <==> u.pos == |src|
    ensures u.eof ==> u.kind == Newline && u.len == 0
    ensures !u.eof ==>
              && (u.kind == Comma <==> src[u.pos] == ',') && (u.kind == Equal <==> src[u.pos] == '=')
              && (u.kind == LBrace <==> src[u.pos] == '{') && (u.kind == RBrace <==> src[u.pos] == '}')
              && (u.kind == LBracket <==> src[u.pos] == '[') && (u.kind == RBracket <==> src[u.pos] == ']')
              && (u.kind == Newline <==> src[u.pos] == '\n') && (u.kind == Dot <==> dot && src[u.pos] == '.')
              && (u.kind != Str ==> u.len == 1)
              && (u.kind == Str ==> ScanEnd(src, u.pos, dot) == Some(u.pos + u.len))
  {
    var h := GapExists(src, t.pos + t.len);
  }

  /** The token after a gap that starts with a given byte. */
  lemma TokenAt(src: string, t: Token, dot: bool, h: nat, q: nat)
    requires ValidTok(src, t) && Gap(src, t.pos + t.len, h, q)
    ensures Next(src, t, dot) == NextAt(src, t, dot, q)
  {
    GapEndIs(src, t.pos + t.len, h, q);
  }

  /** What starts at q, after the token t. */
  function NextAt(src: string, t: Token, dot: bool, q: nat): Option<Token>
    requires ValidTok(src, t) && q <= |src|
  {
    var line := LineAfter(src, t);
    if q == |src| then Some(Token(Newline, line, q, 0, true))
    else if src[q] == '.' && dot then Some(Token(Dot, line, q, 1, false))
    else if src[q] == ',' then Some(Token(Comma, line, q, 1, false))
    else if src[q] == '=' then Some(Token(Equal, line, q, 1, false))
    else if src[q] == '{' then Some(Token(LBrace, line, q, 1, false))
    else if src[q] == '}' then Some(Token(RBrace, line, q, 1, false))
    else if src[q] == '[' then Some(Token(LBracket, line, q, 1, false))
    else if src[q] == ']' then Some(Token(RBracket, line, q, 1, false))
    else if src[q] == '\n' then Some(Token(Newline, line, q, 1, false))
    else
      match ScanEnd(src, q, dot)
      case None => None
      case Some(e) => Some(Token(Str, line, q, e - q, false))
  }

  // ---- where words end ----

  /** The bytes of a bare word; a dot only where dots are not special. */
  predicate WordByte(c: char, dot: bool) {
    || '0' <= c <= '9' || 'A' <= c <= 'Z' || 'a' <= c <= 'z'
    || c == '+' || c == '-' || c == '_' || c == ':' || (c == '.' && !dot)
  }

  predicate Unquoted(c: char) {
    c != '\'' && c != '"'
  }

  lemma {:induction false} BareEndIs(src: string, p: nat, dot: bool, e: nat)
    requires p <= e <= |src| && (forall i :: p <= i < e ==> WordByte(src[i], dot))
    requires e < |src| ==> !WordByte(src[e], dot)
    ensures BareEnd(src, p, dot) == e
    decreases e - p
  {
    if p == e {
    } else {
      BareEndIs(src, p + 1, dot, e);
    }
  }

  lemma {:induction false} BareEndBytes(src: string, p: nat, dot: bool)
    requires p <= |src|
    ensures var e := BareEnd(src, p, dot);
            (forall i :: p <= i < e ==> WordByte(src[i], dot)) && (e < |src| ==> !WordByte(src[e], dot))
    decreases |src| - p
  {
    if p == |src| || !IsBare(src[p], dot) {
    } else {
      BareEndBytes(src, p + 1, dot);
    }
  }

  lemma NotTripled(src: string, p: nat, quote: string)
    requires p < |src| && |quote| == 3 && quote[0] == quote[1] == quote[2]
    ensures quote <= src[p..] <==> p + 3 <= |src| && src[p] == src[p + 1] == src[p + 2] == quote[0]
  {
    if p + 3 <= |src| { assert src[p..][0] == src[p] && src[p..][1] == src[p + 1] && src[p..][2] == src[p + 2]; }
  }

  /** A word that does not start with a quote is the longest run of word bytes. */
  lemma BareWordEnds(src: string, p: nat, dot: bool, e: nat)
    requires p < |src| && Unquoted(src[p]) && p <= e <= |src|
    ensures ScanEnd(src, p, dot) == Some(e) <==>
            (forall i :: p <= i < e ==> WordByte(src[i], dot)) && (e < |src| ==> !WordByte(src[e], dot))
  {
    NotTripled(src, p, "'''");
    NotTripled(src, p, "\"\"\"");
    BareEndBytes(src, p, dot);
    if (forall i :: p <= i < e ==> WordByte(src[i], dot)) && (e < |src| ==> !WordByte(src[e], dot)) {
      BareEndIs(src, p, dot, e);
    }
  }

  lemma {:induction false} LiteralEndIs(src: string, p: nat)
    requires p <= |src|
    ensures match LiteralEnd(src, p)
            case None => forall i :: p <= i < |src| && src[i] == '\'' ==> exists j :: p <= j < i && src[j] == '\n'
            case Some(q) => src[q] == '\'' && forall i :: p <= i < q ==> src[i] != '\'' && src[i] != '\n'
    decreases |src| - p
  {
    if p == |src| || src[p] == '\n' || src[p] == '\'' {
    } else {
      LiteralEndIs(src, p + 1);
    }
  }

  /** A word that starts with one apostrophe ends with the next one, which must stand on the same line. */
  lemma LiteralEnds(src: string, p: nat, dot: bool, e: nat)
    requires p < |src| && src[p] == '\'' && !(p + 3 <= |src| && src[p + 1] == '\'' && src[p + 2] == '\'')
    ensures ScanEnd(src, p, dot) == Some(e) <==>
            && p + 1 < e <= |src| && src[e - 1] == '\''
            && forall i :: p + 1 <= i < e - 1 ==> src[i] != '\'' && src[i] != '\n'
  {
    NotTripled(src, p, "'''");
    NotTripled(src, p, "\"\"\"");
    LiteralEndIs(src, p + 1);
  }

  predicate ThreeAt(src: string, p: nat) {
    p + 3 <= |src| && src[p] == '\'' && src[p + 1] == '\'' && src[p + 2] == '\''
  }

  lemma {:induction false} FindIs(src: string, p: nat)
    requires p <= |src|
    ensures match Find(src, p, "'''")
            case None => forall i :: p <= i <= |src| ==> !ThreeAt(src, i)
            case Some(q) => ThreeAt(src, q) && forall i :: p <= i < q ==> !ThreeAt(src, i)
    decreases |src| - p
  {
    if p == |src| {
    } else {
      NotTripled(src, p, "'''");
      FindIs(src, p + 1);
    }
  }

  /** A word that starts with three apostrophes ends with the next three. */
  lemma TripleLiteralEnds(src: string, p: nat, dot: bool, e: nat)
    requires ThreeAt(src, p)
    ensures ScanEnd(src, p, dot) == Some(e) <==>
            p + 6 <= e <= |src| && ThreeAt(src, e - 3) && forall i :: p + 3 <= i < e - 3 ==> !ThreeAt(src, i)
  {
    NotTripled(src, p, "'''");
    FindIs(src, p + 3);
  }
}
