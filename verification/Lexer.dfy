/** The lexer as a pure function from the current token to the next one
    (contrib/tomlc99/toml.c:1391-1550), and what every run of it keeps. */
module Lexer {
  import opened Text

  datatype Kind = Dot | Comma | Equal | LBrace | RBrace | Newline | LBracket | RBracket | Str

  datatype Token = Token(kind: Kind, lineno: nat, pos: nat, len: nat, eof: bool)

  /** The shape every token has: inside the text, one byte wide unless it is a word,
      the end-of-file newline or the artificial first one. */
  predicate ValidTok(src: string, t: Token) {
    && t.pos + t.len <= |src|
    && (t.kind != Str && t.kind != Newline ==> t.len == 1)
    && (t.eof ==> t.kind == Newline && t.len == 0 && t.pos == |src|)
  }

  /** A token that next_token made, as opposed to the artificial newline the parser starts from. */
  predicate Made(src: string, t: Token) {
    ValidTok(src, t) && (t.kind == Newline && !t.eof ==> t.len == 1)
  }

  const START: Token := Token(Newline, 1, 0, 0, false)

  function TokText(src: string, t: Token): string
    requires ValidTok(src, t)
  {
    src[t.pos..t.pos + t.len]
  }

  // ---- gaps: blanks and comments ----

  /** The first newline at or after p, or the end of the text. */
  function LineEnd(src: string, p: nat): (q: nat)
    requires p <= |src|
    ensures p <= q <= |src|
    decreases |src| - p
  {
    if p == |src| || src[p] == '\n' then p else LineEnd(src, p + 1)
  }

  /** Where the token after p starts: blanks and comments are skipped. */
  function GapEnd(src: string, p: nat): (q: nat)
    requires p <= |src|
    ensures p <= q <= |src|
    decreases |src| - p
  {
    if p == |src| then p
    else if src[p] == '#' then GapEnd(src, LineEnd(src, p + 1))
    else if IsBlank(src[p]) then GapEnd(src, p + 1)
    else p
  }

  // ---- strings ----

  /** The first place at or after p where the pattern occurs (strstr). */
  function Find(src: string, p: nat, pat: string): (r: Option<nat>)
    requires p <= |src|
    ensures r.Some? ==> p <= r.value && r.value + |pat| <= |src|
    decreases |src| - p
  {
    if pat <= src[p..] then Some(p)
    else if p == |src| then None
    else Find(src, p + 1, pat)
  }

  /** The closing quote of a single-quoted string whose body starts at p. */
  function LiteralEnd(src: string, p: nat): (r: Option<nat>)
    requires p <= |src|
    ensures r.Some? ==> p <= r.value < |src|
    decreases |src| - p
  {
    if p == |src| || src[p] == '\n' then None
    else if src[p] == '\'' then Some(p)
    else LiteralEnd(src, p + 1)
  }

  predicate IsSimpleEscape(c: char) {
    c == 'b' || c == 't' || c == 'n' || c == 'f' || c == 'r' || c == '"' || c == '\\'
  }

  predicate HexRun(s: string, p: nat, n: nat) {
    p + n <= |s| && forall i :: p <= i < p + n ==> IsHex(s[i])
  }

  /** The width of the escape whose backslash is at p, if it is one both string forms allow. */
  function EscapeLen(s: string, p: nat): (r: Option<nat>)
    requires p < |s|
    ensures r.Some? ==> 2 <= r.value && p + r.value <= |s|
  {
    var c := At(s, p + 1);
    if p + 1 == |s| then None
    else if IsSimpleEscape(c) then Some(2)
    else if c == 'u' && HexRun(s, p + 2, 4) then Some(6)
    else if c == 'U' && HexRun(s, p + 2, 8) then Some(10)
    else None
  }

  /** The closing quote of a basic string whose body goes on at p, read item by item. */
  function BasicEnd(src: string, p: nat): (r: Option<nat>)
    requires p <= |src|
    ensures r.Some? ==> p <= r.value < |src| && src[r.value] == '"'
    decreases |src| - p
  {
    if p == |src| || src[p] == '\n' then None
    else if src[p] == '"' then Some(p)
    else if src[p] == '\\' then
      match EscapeLen(src, p)
      case None => None
      case Some(n) => BasicEnd(src, p + n)
    else BasicEnd(src, p + 1)
  }

  /** The end of a triple-quoted basic string whose body goes on at p with q quotes counted.
      An escape does not reset the count. */
  function TripleEnd(src: string, p: nat, q: nat): (r: Option<nat>)
    requires p <= |src| && q <= 3
    ensures r.Some? ==> p + (3 - q) <= r.value <= |src|
    decreases |src| - p
  {
    if q == 3 then Some(p)
    else if p == |src| then None
    else if src[p] == '\\' then
      if At(src, p + 1) == '\n' then TripleEnd(src, p + 2, q)
      else
        match EscapeLen(src, p)
        case None => None
        case Some(n) => TripleEnd(src, p + n, q)
    else TripleEnd(src, p + 1, if src[p] == '"' then q + 1 else 0)
  }

  predicate IsBare(c: char, dot: bool) {
    IsAlnum(c) || c == '+' || c == '-' || c == '_' || c == ':' || (c == '.' && !dot)
  }

  /** The end of the run of bare-word bytes that starts at p; the run may be empty. */
  function BareEnd(src: string, p: nat, dot: bool): (q: nat)
    requires p <= |src|
    ensures p <= q <= |src|
    decreases |src| - p
  {
    if p < |src| && IsBare(src[p], dot) then BareEnd(src, p + 1, dot) else p
  }

  /** scan_string: the end of the word that starts at p, or None for a lexical error. */
  function ScanEnd(src: string, p: nat, dot: bool): (r: Option<nat>)
    requires p < |src|
    ensures r.Some? ==> p <= r.value <= |src|
  {
    if "'''" <= src[p..] then
      match Find(src, p + 3, "'''") case None => None case Some(i) => Some(i + 3)
    else if "\"\"\"" <= src[p..] then TripleEnd(src, p + 3, 0)
    else if src[p] == '\'' then
      match LiteralEnd(src, p + 1) case None => None case Some(i) => Some(i + 1)
    else if src[p] == '"' then
      match BasicEnd(src, p + 1) case None => None case Some(i) => Some(i + 1)
    else Some(BareEnd(src, p, dot))
  }

  // ---- next_token ----

  function Punct(c: char): Option<Kind> {
    match c
    case ',' => Some(Comma)
    case '=' => Some(Equal)
    case '{' => Some(LBrace)
    case '}' => Some(RBrace)
    case '[' => Some(LBracket)
    case ']' => Some(RBracket)
    case '\n' => Some(Newline)
    case _ => None
  }

  /** The line number next_token gives: newlines are counted in the token it leaves, not in gaps. */
  function LineAfter(src: string, t: Token): nat
    requires ValidTok(src, t)
  {
    NewlinesMonotone(src, t.pos, t.pos + t.len);
    t.lineno + (NewlinesBefore(src, t.pos + t.len) - NewlinesBefore(src, t.pos))
  }

  /** next_token: None is a lexical error. */
  function Next(src: string, t: Token, dot: bool): (r: Option<Token>)
    requires ValidTok(src, t)
    ensures r.Some? ==> Made(src, r.value) && t.pos + t.len <= r.value.pos
  {
    var line := LineAfter(src, t);
    var q := GapEnd(src, t.pos + t.len);
    if q == |src| then Some(Token(Newline, line, q, 0, true))
    else if dot && src[q] == '.' then Some(Token(Dot, line, q, 1, false))
    else match Punct(src[q])
      case Some(k) => Some(Token(k, line, q, 1, false))
      case None =>
        match ScanEnd(src, q, dot)
        case None => None
        case Some(e) => Some(Token(Str, line, q, e - q, false))
  }

  // ---- what is between tokens ----

  /** src[p..q] is what may stand between two tokens: blanks, then at most one comment,
      and a comment reaches to the end of its line. */
  ghost predicate IsGap(src: string, p: nat, q: nat) {
    && p <= q <= |src|
    && exists h :: p <= h <= q && Blanks(src, p, h) && CommentOrNothing(src, h, q)
  }

  ghost predicate Blanks(src: string, p: nat, h: nat)
    requires p <= h <= |src|
  {
    forall i :: p <= i < h ==> IsBlank(src[i])
  }

  ghost predicate CommentOrNothing(src: string, h: nat, q: nat)
    requires h <= q <= |src|
  {
    h < q ==> src[h] == '#' && '\n' !in src[h..q] && (q == |src| || src[q] == '\n')
  }

  lemma {:induction false} LineEndIsFirstNewline(src: string, p: nat)
    requires p <= |src|
    ensures '\n' !in src[p..LineEnd(src, p)]
    ensures LineEnd(src, p) == |src| || src[LineEnd(src, p)] == '\n'
    decreases |src| - p
  {
    if p >= |src| || src[p] == '\n' {
    } else {
      LineEndIsFirstNewline(src, p + 1);
      assert src[p..LineEnd(src, p)] == [src[p]] + src[p + 1..LineEnd(src, p)];
    }
  }

  /** The gap function skips a gap, and stops at something that is not one. */
  lemma {:induction false} GapEndIsGap(src: string, p: nat)
    requires p <= |src|
    ensures IsGap(src, p, GapEnd(src, p))
    ensures GapEnd(src, p) == |src| || (src[GapEnd(src, p)] != '#' && !IsBlank(src[GapEnd(src, p)]))
    decreases |src| - p
  {
    var q := GapEnd(src, p);
    if p == |src| {
      assert Blanks(src, p, p) && CommentOrNothing(src, p, q);
    } else if src[p] == '#' {
      var e := LineEnd(src, p + 1);
      LineEndIsFirstNewline(src, p + 1);
      assert src[p..e] == [src[p]] + src[p + 1..e];
      assert GapEnd(src, e) == e;
      assert Blanks(src, p, p) && CommentOrNothing(src, p, q);
    } else if IsBlank(src[p]) {
      GapEndIsGap(src, p + 1);
      var h :| p + 1 <= h <= q && Blanks(src, p + 1, h) && CommentOrNothing(src, h, q);
      assert Blanks(src, p, h);
    } else {
      assert Blanks(src, p, p) && CommentOrNothing(src, p, q);
    }
  }

  lemma GapHasNoNewline(src: string, p: nat, q: nat)
    requires IsGap(src, p, q)
    ensures '\n' !in src[p..q]
  {
    var h :| p <= h <= q && Blanks(src, p, h) && CommentOrNothing(src, h, q);
    assert src[p..q] == src[p..h] + src[h..q];
  }

  /** Tokens t and u are consecutive: u is what next_token makes from t under some flag. */
  predicate Follows(src: string, t: Token, u: Token)
  {
    ValidTok(src, t) && (Next(src, t, false) == Some(u) || Next(src, t, true) == Some(u))
  }

  /** A run of the lexer from the start of the text, under any mix of flags. */
  ghost predicate IsRun(src: string, ts: seq<Token>) {
    |ts| > 0 && ts[0] == START && forall i :: 0 < i < |ts| ==> Follows(src, ts[i - 1], ts[i])
  }

  lemma OneStep(src: string, t: Token, u: Token)
    requires ValidTok(src, t) && Follows(src, t, u) && t.lineno == 1 + NewlinesBefore(src, t.pos)
    ensures ValidTok(src, u) && u.lineno == 1 + NewlinesBefore(src, u.pos) && IsGap(src, t.pos + t.len, u.pos)
  {
    GapEndIsGap(src, t.pos + t.len);
    GapHasNoNewline(src, t.pos + t.len, u.pos);
    NewlinesMonotone(src, t.pos + t.len, u.pos);
  }

  /** Lexing is lossless, and lines are exact: in any run the spans are disjoint and increasing,
      only a gap separates a token from the next, and a token's line is one more than the number of
      newlines before its first byte. */
  lemma {:induction false} LexingIsLossless(src: string, ts: seq<Token>)
    requires IsRun(src, ts)
    ensures forall i :: 0 <= i < |ts| ==>
              ValidTok(src, ts[i]) && ts[i].lineno == 1 + NewlinesBefore(src, ts[i].pos)
    ensures forall i :: 0 < i < |ts| ==> IsGap(src, ts[i - 1].pos + ts[i - 1].len, ts[i].pos)
  {
    if |ts| <= 1 {
    } else {
      hide NewlinesBefore, IsGap, ValidTok, Follows;
      var n := |ts| - 1;
      LexingIsLossless(src, ts[..n]);
      assert ts[n - 1] == ts[..n][n - 1];
      OneStep(src, ts[n - 1], ts[n]);
      forall i | 0 <= i < |ts|
        ensures ValidTok(src, ts[i]) && ts[i].lineno == 1 + NewlinesBefore(src, ts[i].pos)
        ensures i > 0 ==> IsGap(src, ts[i - 1].pos + ts[i - 1].len, ts[i].pos)
      {
        if i < n {
          assert ts[i] == ts[..n][i];
          if i > 0 { assert ts[i - 1] == ts[..n][i - 1]; }
        }
      }
    }
  }

  // ---- progress, and the two fixed points ----

  predicate NoWidth(t: Token) {
    t.eof || (t.kind == Str && t.len == 0)
  }

  /** Lexing ends: after the artificial first newline, only the end of file and an empty bare word have no
      width, so a run that goes past neither has at most one token for each byte of the text, and two more. */
  lemma {:induction false} RunLength(src: string, ts: seq<Token>)
    requires IsRun(src, ts) && forall i :: 0 < i < |ts| - 1 ==> !NoWidth(ts[i])
    ensures |ts| > 1 ==> Made(src, ts[|ts| - 1]) && |ts| - 2 <= ts[|ts| - 1].pos
    ensures |ts| <= |src| + 2
    decreases |ts|
  {
    if |ts| <= 1 {
    } else {
      var n := |ts| - 1;
      forall i | 0 < i < n ensures Follows(src, ts[..n][i - 1], ts[..n][i]) && !NoWidth(ts[i]) {
        assert Follows(src, ts[i - 1], ts[i]);
      }
      RunLength(src, ts[..n]);
      assert Follows(src, ts[n - 1], ts[n]) && ts[..n][n - 1] == ts[n - 1];
    }
  }

  /** Asking for more at the end of file gives the end of file again, under either flag: a loop
      that skips newlines without looking at eof never leaves. */
  lemma EofIsFixed(src: string, t: Token, dot: bool)
    requires ValidTok(src, t) && t.eof
    ensures Next(src, t, dot) == Some(t)
  {
  }

  /** An empty bare word is returned again, under either flag. */
  lemma EmptyWordIsFixed(src: string, t: Token, dot: bool, u: Token, dot': bool)
    requires ValidTok(src, t) && Next(src, t, dot) == Some(u) && u.kind == Str && u.len == 0
    ensures Next(src, u, dot') == Some(u)
  {
    var q := u.pos;
    GapEndIsGap(src, t.pos + t.len);
    assert GapEnd(src, q) == q;
    assert BareEnd(src, q, dot) == q;
    assert src[q] != '.';
    assert BareEnd(src, q, dot') == q;
  }
}
