/** Writing terminals down (contrib/tomlc99/toml.c:1411-1550): spelled with their bytes and with blanks between
    them, they are a text from which the scanner reads them off again. */
module Written {
  import opened Text
  import opened Lexer
  import opened TokenLaws
  import opened Tree
  import opened Headers
  import opened Syntax
  import opened Parser
  import opened Grammar
  import opened Documents
  import opened EscapePrinter
  import opened Strings

  // ---- spelling ----

  function Spell(y: Term): string {
    match y.kind
    case Dot => "."
    case Comma => ","
    case Equal => "="
    case LBrace => "{"
    case RBrace => "}"
    case Newline => "\n"
    case LBracket => "["
    case RBracket => "]"
    case Str => y.text
  }

  /** Every terminal, and a blank after it. */
  function Write(ys: seq<Term>): string {
    if ys == [] then "" else Spell(ys[0]) + (" " + Write(ys[1..]))
  }

  /** Wherever w stands before a blank, the scanner takes it, and nothing more, for a word. */
  ghost predicate OneWord(w: string, dot: bool) {
    && w != "" && w[0] != ' ' && w[0] != '\t' && w[0] != '\r' && w[0] != '\n' && w[0] != '#'
    && w[0] != ',' && w[0] != '=' && w[0] != '{' && w[0] != '}' && w[0] != '[' && w[0] != ']' && !(dot && w[0] == '.')
    && forall src: string, p: nat :: Has(src, p, w) && At(src, p + |w|) == ' ' ==> TakesWord(src, p, w, dot)
  }

  predicate TakesWord(src: string, p: nat, w: string, dot: bool) {
    p < |src| && ScanEnd(src, p, dot) == Some(p + |w|)
  }

  /** The words of ys are words under the flags they are read with; the first flag is dot. */
  ghost predicate WordsFit(ys: seq<Term>, dot: bool) {
    ys == [] || ((ys[0].kind == Str ==> OneWord(ys[0].text, dot)) && WordsFit(ys[1..], ys[0].dot))
  }

  /** A dot is read where dots are special. */
  predicate DotsFit(ys: seq<Term>, dot: bool) {
    ys == [] || ((ys[0].kind == Dot ==> dot) && DotsFit(ys[1..], ys[0].dot))
  }

  // ---- reading what was written ----

  /** From p on stands what was written for ys, after a token that ends just before a blank (or before p). */
  predicate Stands(src: string, t: Token, p: nat, ys: seq<Term>) {
    JustBefore(src, t, p) && src[p..] == Write(ys)
  }

  /** The token t ends just before p, or one blank before it. */
  predicate JustBefore(src: string, t: Token, p: nat) {
    ValidTok(src, t) && p <= |src| && (t.pos + t.len == p || (t.pos + t.len + 1 == p && src[p - 1] == ' '))
  }

  lemma StartsThere(src: string, t: Token, dot: bool, p: nat)
    requires JustBefore(src, t, p)
    requires p < |src| ==> src[p] != ' ' && src[p] != '\t' && src[p] != '\r' && src[p] != '#'
    ensures Next(src, t, dot) == NextAt(src, t, dot, p)
  {
    hide Next, NextAt;
    assert Gap(src, t.pos + t.len, p, p);
    TokenAt(src, t, dot, p, p);
  }

  lemma WordWritten(src: string, t: Token, dot: bool, p: nat, w: string)
    requires JustBefore(src, t, p) && OneWord(w, dot) && Has(src, p, w) && At(src, p + |w|) == ' '
    ensures Next(src, t, dot) == Some(Token(Str, LineAfter(src, t), p, |w|, false))
  {
    hide Next, LineAfter, ScanEnd;
    HasByte(src, p, w, 0);
    assert TakesWord(src, p, w, dot);
    StartsThere(src, t, dot, p);
  }

  lemma MarkWritten(src: string, t: Token, dot: bool, p: nat, y: Term)
    requires JustBefore(src, t, p) && y.kind != Str && (y.kind == Dot ==> dot) && Has(src, p, Spell(y))
    ensures Next(src, t, dot) == Some(Token(y.kind, LineAfter(src, t), p, 1, false)) && |Spell(y)| == 1
  {
    hide Next, LineAfter, ScanEnd;
    HasByte(src, p, Spell(y), 0);
    StartsThere(src, t, dot, p);
  }

  lemma NextWritten(src: string, t: Token, dot: bool, p: nat, ys: seq<Term>)
    requires Stands(src, t, p, ys) && WordsFit(ys, dot) && DotsFit(ys, dot)
    ensures ys == [] ==> Next(src, t, dot) == Some(Token(Newline, LineAfter(src, t), |src|, 0, true))
    ensures ys != [] ==>
              && Has(src, p, Spell(ys[0]) + " ")
              && Next(src, t, dot) == Some(Token(ys[0].kind, LineAfter(src, t), p, |Spell(ys[0])|, false))
  {
    hide Next, LineAfter, OneWord, Spell;
    if ys == [] {
      assert p == |src|;
      StartsThere(src, t, dot, p);
    } else {
      var w := Spell(ys[0]);
      SpelledAt(src, p, w, Write(ys[1..]));
      if ys[0].kind == Str {
        SpellWord(ys[0]);
        WordWritten(src, t, dot, p, w);
      } else {
        MarkWritten(src, t, dot, p, ys[0]);
      }
    }
  }

  lemma SpellWord(y: Term)
    requires y.kind == Str
    ensures Spell(y) == y.text
  {
  }

  lemma SpelledAt(src: string, p: nat, w: string, rest: string)
    requires p <= |src| && src[p..] == w + (" " + rest)
    ensures Has(src, p, w + " ") && Has(src, p, w) && At(src, p + |w|) == ' '
  {
    assert src[p..][..|w| + 1] == w + " ";
    assert src[p..p + |w| + 1] == src[p..][..|w| + 1];
    HasSplit(src, p, w, " ");
    HasByte(src, p + |w|, " ", 0);
  }

  /** The terminals are read off, up to the end of the text. */
  lemma {:induction false} ReadsBack(src: string, t: Token, dot: bool, p: nat, ys: seq<Term>)
    requires Stands(src, t, p, ys) && WordsFit(ys, dot) && DotsFit(ys, dot)
    ensures Next(src, t, dot).Some?
    ensures var u := ReadTo(src, Next(src, t, dot).value, ys); u.Some? && u.value.eof
    decreases |ys|
  {
    hide Next, OneWord;
    NextWritten(src, t, dot, p, ys);
    if ys == [] {
    } else {
      var u := Next(src, t, dot).value;
      var w := Spell(ys[0]);
      StandsNext(src, t, p, ys, u);
      ReadsBack(src, u, ys[0].dot, p + |w| + 1, ys[1..]);
    }
  }

  lemma StandsNext(src: string, t: Token, p: nat, ys: seq<Term>, u: Token)
    requires Stands(src, t, p, ys) && ys != [] && Made(src, u) && Has(src, p, Spell(ys[0]) + " ")
    requires u.kind == ys[0].kind && u.pos == p && u.len == |Spell(ys[0])|
    ensures Fits(src, u, ys[0]) && Stands(src, u, p + |Spell(ys[0])| + 1, ys[1..])
  {
    var w := Spell(ys[0]);
    HasSplit(src, p, w, " ");
    HasByte(src, p + |w|, " ", 0);
    var rest := src[p..][|w| + 1..];
    assert Write(ys)[|w| + 1..] == Write(ys[1..]);
    assert src[p + |w| + 1..] == rest;
  }

  // ---- words keep being words ----

  /** The bytes of a from p to e stand in b, d places further on. */
  predicate Copied(a: string, b: string, p: nat, e: nat, d: int) {
    p <= e <= |a| && 0 <= p + d && e + d <= |b| && forall i :: p <= i < e ==> a[i] == b[i + d]
  }

  lemma EscapeMoves(a: string, b: string, p: nat, e: nat, d: int)
    requires Copied(a, b, p, e, d) && p < e && EscapeLen(a, p).Some? && p + EscapeLen(a, p).value <= e
    ensures EscapeLen(b, p + d) == EscapeLen(a, p)
  {
    var n := EscapeLen(a, p).value;
    assert a[p + 1] == b[p + 1 + d];
    forall i | p + d <= i < p + n + d ensures b[i] == a[i - d] { assert a[i - d] == b[i - d + d]; }
  }

  lemma {:induction false} BasicMoves(a: string, b: string, p: nat, e: nat, d: int)
    requires Copied(a, b, p, e, d) && p < e && BasicEnd(a, p) == Some(e - 1)
    ensures BasicEnd(b, p + d) == Some(e - 1 + d)
    decreases e - p
  {
    assert a[p] == b[p + d];
    if a[p] == '"' {
    } else if a[p] == '\\' {
      EscapeMoves(a, b, p, e, d);
      BasicMoves(a, b, p + EscapeLen(a, p).value, e, d);
    } else {
      BasicMoves(a, b, p + 1, e, d);
    }
  }

  lemma {:induction false} TripleMoves(a: string, b: string, p: nat, q: nat, e: nat, d: int)
    requires Copied(a, b, p, e, d) && q <= 3 && TripleEnd(a, p, q) == Some(e)
    ensures TripleEnd(b, p + d, q) == Some(e + d)
    decreases e - p
  {
    if q == 3 {
    } else {
      assert a[p] == b[p + d];
      if a[p] != '\\' {
        TripleMoves(a, b, p + 1, if a[p] == '"' then q + 1 else 0, e, d);
      } else if At(a, p + 1) == '\n' {
        assert a[p + 1] == b[p + 1 + d];
        TripleMoves(a, b, p + 2, q, e, d);
      } else {
        EscapeMoves(a, b, p, e, d);
        assert a[p + 1] == b[p + 1 + d];
        TripleMoves(a, b, p + EscapeLen(a, p).value, q, e, d);
      }
    }
  }

  /** A word that the scanner takes from a text it also takes wherever its bytes stand before a blank. */
  lemma WordMoves(a: string, b: string, p: nat, e: nat, d: int, dot: bool)
    requires Copied(a, b, p, e, d) && p < e && ScanEnd(a, p, dot) == Some(e) && At(b, e + d) == ' '
    ensures ScanEnd(b, p + d, dot) == Some(e + d)
  {
    hide ScanEnd;
    assert a[p] == b[p + d] && forall i :: p + d <= i < e + d ==> b[i] == a[i - d];
    if a[p] == '\'' {
      LiteralMoves(a, b, p, e, d, dot);
    } else if a[p] == '"' {
      QuotedMoves(a, b, p, e, d, dot);
    } else {
      BareWordEnds(a, p, dot, e);
      BareWordEnds(b, p + d, dot, e + d);
    }
  }

  lemma LiteralMoves(a: string, b: string, p: nat, e: nat, d: int, dot: bool)
    requires Copied(a, b, p, e, d) && p < e && ScanEnd(a, p, dot) == Some(e) && At(b, e + d) == ' ' && a[p] == '\''
    ensures ScanEnd(b, p + d, dot) == Some(e + d)
  {
    hide ScanEnd;
    assert forall i :: p + d <= i < e + d ==> b[i] == a[i - d];
    assert forall i :: p <= i < e ==> a[i] == b[i + d];
    if ThreeAt(a, p) {
      TripleLiteralEnds(a, p, dot, e);
      TripleLiteralEnds(b, p + d, dot, e + d);
      forall i | p + d + 3 <= i < e + d - 3 ensures !ThreeAt(b, i) { assert !ThreeAt(a, i - d); }
    } else {
      LiteralEnds(a, p, dot, e);
      LiteralEnds(b, p + d, dot, e + d);
    }
  }

  lemma QuotedMoves(a: string, b: string, p: nat, e: nat, d: int, dot: bool)
    requires Copied(a, b, p, e, d) && p < e && ScanEnd(a, p, dot) == Some(e) && At(b, e + d) == ' ' && a[p] == '"'
    ensures ScanEnd(b, p + d, dot) == Some(e + d)
  {
    hide BasicEnd, TripleEnd, Find, LiteralEnd, BareEnd;
    NotTripled(a, p, "\"\"\"");
    NotTripled(b, p + d, "\"\"\"");
    NotTripled(a, p, "'''");
    NotTripled(b, p + d, "'''");
    assert forall i :: p + d <= i < e + d ==> b[i] == a[i - d];
    if "\"\"\"" <= a[p..] {
      TripleMoves(a, b, p + 3, 0, e, d);
    } else {
      BasicMoves(a, b, p + 1, e, d);
      OneQuoteMoves(a, b, p, e, d);
    }
  }

  lemma OneQuoteMoves(a: string, b: string, p: nat, e: nat, d: int)
    requires Copied(a, b, p, e, d) && p + 1 < e && BasicEnd(a, p + 1) == Some(e - 1) && At(b, e + d) == ' '
    requires a[p] == '"' && !("\"\"\"" <= a[p..])
    ensures !("\"\"\"" <= b[p + d..])
  {
    NotTripled(a, p, "\"\"\"");
    NotTripled(b, p + d, "\"\"\"");
    assert a[p + 1] == b[p + 1 + d];
  }

  /** So every word of a text is a word. */
  lemma ScannedIsOneWord(src: string, p: nat, e: nat, dot: bool)
    requires p < |src| && ScanEnd(src, p, dot) == Some(e) && p < e
    requires src[p] != ' ' && src[p] != '\t' && src[p] != '\r' && src[p] != '\n' && src[p] != '#' && src[p] != ','
    requires src[p] != '=' && src[p] != '{' && src[p] != '}' && src[p] != '[' && src[p] != ']'
    requires !(dot && src[p] == '.')
    ensures OneWord(src[p..e], dot)
  {
    hide ScanEnd;
    var w := src[p..e];
    forall b: string, q: nat | Has(b, q, w) && At(b, q + |w|) == ' ' ensures TakesWord(b, q, w, dot) {
      forall i | p <= i < e ensures src[i] == b[i + (q - p)] {
        HasByte(b, q, w, i - p);
        assert w[i - p] == src[i];
      }
      WordMoves(src, b, p, e, q - p, dot);
    }
  }

  /** The words that were read off a text are words. */
  lemma {:induction false} WordsReadFit(src: string, t: Token, dot: bool, u: Token, ys: seq<Term>)
    requires ValidTok(src, t) && Next(src, t, dot) == Some(u) && Made(src, u) && ReadTo(src, u, ys).Some?
    requires forall i :: 0 <= i < |ys| && ys[i].kind == Str ==> ys[i].text != []
    ensures WordsFit(ys, dot)
    decreases |ys|
  {
    hide Next, OneWord;
    if ys == [] {
    } else {
      assert forall i :: 0 <= i < |ys[1..]| ==> ys[1..][i] == ys[i + 1];
      WordsReadFit(src, u, ys[0].dot, Next(src, u, ys[0].dot).value, ys[1..]);
      if ys[0].kind == Str {
        WordReadFits(src, t, dot, u);
        assert ys[0].text == TokText(src, u);
      }
    }
  }

  lemma WordReadFits(src: string, t: Token, dot: bool, u: Token)
    requires ValidTok(src, t) && Next(src, t, dot) == Some(u) && Made(src, u) && u.kind == Str && u.len > 0
    ensures OneWord(TokText(src, u), dot)
  {
    hide Next, OneWord, ScanEnd;
    TokenBytes(src, t, dot, u);
    assert GapTo(src, t.pos + t.len, u.pos);
    ScannedIsOneWord(src, u.pos, u.pos + u.len, dot);
  }

  // ---- no dot outside paths ----

  predicate NoDots(ys: seq<Term>) {
    forall i :: 0 <= i < |ys| ==> ys[i].kind != Dot
  }

  lemma {:induction false} NoDotsFit(ys: seq<Term>, dot: bool)
    requires NoDots(ys)
    ensures DotsFit(ys, dot)
    decreases |ys|
  {
    if ys == [] {
    } else {
      NoDotsFit(ys[1..], ys[0].dot);
    }
  }

  lemma {:induction false} DotsAppend(xs: seq<Term>, ys: seq<Term>, dot: bool)
    requires DotsFit(xs, dot) && DotsFit(ys, if xs == [] then dot else xs[|xs| - 1].dot)
    ensures DotsFit(xs + ys, dot)
    decreases |xs|
  {
    if xs == [] {
      assert xs + ys == ys;
    } else {
      assert (xs + ys)[1..] == xs[1..] + ys;
      DotsAppend(xs[1..], ys, xs[0].dot);
    }
  }

  lemma {:induction false} NewlinesNoDots(n: nat)
    ensures NoDots(Newlines(n))
  {
    if n == 0 {
    } else {
      NewlinesNoDots(n - 1);
    }
  }

  lemma {:induction false} ValNoDots(v: CVal)
    ensures NoDots(YVal(v))
    decreases v, 0
  {
    match v
    case CScalar(_) =>
    case CList(items) => ItemsNoDots(items);
    case CInline(entries) => EntriesNoDots(entries);
  }

  lemma {:induction false} ItemsNoDots(c: CItems)
    ensures NoDots(YItems(c))
    decreases c, 0
  {
    NewlinesNoDots(c.nl);
    if !c.NoItem? {
      ValNoDots(c.val);
      NewlinesNoDots(c.nl2);
    }
    if c.MoreItems? { ItemsNoDots(c.rest); }
  }

  lemma {:induction false} EntriesNoDots(c: CEntries)
    ensures NoDots(YEntries(c))
    decreases c, 0
  {
    NewlinesNoDots(c.nl);
    if !c.NoEntry? {
      ValNoDots(c.entry.val);
      NewlinesNoDots(c.nl2);
    }
    if c.MoreEntries? { EntriesNoDots(c.rest); }
  }

  lemma {:induction false} PathDots(path: seq<string>, dot: bool)
    requires path != []
    ensures DotsFit(YPath(path), dot) && YPath(path) != []
    decreases |path|
  {
    if |path| == 1 {
    } else {
      PathDots(path[1..], true);
      var ys := YPath(path);
      assert ys[1..][1..] == YPath(path[1..]);
    }
  }

  lemma {:induction false} StmtDots(s: CStmt, dot: bool)
    requires WellFormed(s)
    ensures DotsFit(YStmt(s), dot)
  {
    match s
    case CBlank =>
    case CLine(e) =>
      ValNoDots(e.val);
      NoDotsFit(YStmt(s), dot);
    case CHeader(double, path) =>
      var tail := Closing(double) + [LINE_END];
      NoDotsFit(tail, true);
      NoDotsFit(tail, YPath(path)[|YPath(path)| - 1].dot);
      PathDots(path, true);
      DotsAppend(YPath(path), tail, true);
      NoDotsFit(Opening(double), dot);
      DotsAppend(Opening(double), YPath(path) + tail, dot);
  }

  lemma {:induction false} DocDots(cs: seq<CStmt>, dot: bool)
    requires forall s :: s in cs ==> WellFormed(s)
    ensures DotsFit(YDoc(cs), dot)
    decreases |cs|
  {
    if cs == [] {
    } else {
      StmtDots(cs[0], dot);
      var ys := YStmt(cs[0]);
      DocDots(cs[1..], if ys == [] then dot else ys[|ys| - 1].dot);
      DotsAppend(ys, YDoc(cs[1..]), dot);
    }
  }

  // ---- words to write with ----

  /** A run of word bytes, but none that starts with a dot where dots are special, is a word. */
  lemma BareIsOneWord(w: string, dot: bool)
    requires w != "" && forall c :: c in w ==> WordByte(c, dot)
    ensures OneWord(w, dot)
  {
    assert w[0] in w;
    forall src: string, p: nat | Has(src, p, w) && At(src, p + |w|) == ' ' ensures TakesWord(src, p, w, dot) {
      forall i | p <= i < p + |w| ensures WordByte(src[i], dot) {
        HasByte(src, p, w, i - p);
        assert w[i - p] in w;
      }
      BareWordEnds(src, p, dot, p + |w|);
    }
  }

  /** Anything in apostrophes that has neither an apostrophe nor a newline is a word. */
  lemma LiteralIsOneWord(s: string, dot: bool)
    requires '\'' !in s && '\n' !in s
    ensures OneWord("'" + (s + "'"), dot)
  {
    hide ScanEnd;
    var w := "'" + (s + "'");
    forall src: string, p: nat | Has(src, p, w) && At(src, p + |w|) == ' ' ensures TakesWord(src, p, w, dot) {
      HasByte(src, p, w, 0);
      HasByte(src, p, w, 1);
      HasByte(src, p, w, |w| - 1);
      forall i | p + 1 <= i < p + |w| - 1 ensures src[i] != '\'' && src[i] != '\n' {
        HasByte(src, p, w, i - p);
        assert w[i - p] == s[i - p - 1] && s[i - p - 1] in s;
      }
      LiteralEnds(src, p, dot, p + |w|);
    }
  }

  /** So is every quoted print. */
  lemma QuotedIsOneWord(s: string, dot: bool)
    ensures OneWord(Quoted(s), dot)
  {
    hide ScanEnd, Escape;
    var w := Quoted(s);
    assert w[0] == '"';
    forall src: string, p: nat | Has(src, p, w) && At(src, p + |w|) == ' ' ensures TakesWord(src, p, w, dot) {
      QuotedParts(src, p, s);
      if s == [] { assert Escape([]) == [] by { NoEscapes(); } }
      PrintedIsOneToken(src, p, s, dot);
    }
  }

  lemma NoEscapes()
    ensures Escape([]) == []
  {
  }
}
