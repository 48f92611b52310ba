/** toml_parse accepts exactly the documents of the grammar whose statements can be run, and builds
    what running them builds. */
module Documents {
  import opened Text
  import opened Lexer
  import opened Tree
  import opened Headers
  import opened Syntax
  import opened Strings
  import opened Parser
  import opened Grammar
  import Sections

  // ---- headers ----

  lemma OneKey(text: string)
    ensures NormalizePath([text]) == match NormalizeKey(text) case None => None case Some(k) => Some([k])
  {
    assert [text][1..] == [] && NormalizePath([]) == Some([]);
    if NormalizeKey(text).Some? { assert [NormalizeKey(text).value] + [] == [NormalizeKey(text).value]; }
  }

  lemma MoreKeys(text: string, rest: seq<string>)
    ensures NormalizePath([text] + rest) ==
            if NormalizeKey(text).None? || NormalizePath(rest).None? then None
            else Some([NormalizeKey(text).value] + NormalizePath(rest).value)
  {
    assert ([text] + rest)[1..] == rest;
  }

  /** A word and a dot, then the rest of the path. */
  lemma ReadKeyDot(src: string, tok: Token, text: string, rest: seq<string>)
    requires Made(src, tok) && rest != []
    ensures var word, dot := Term(Str, text, true), Term(Dot, [], true);
            ReadTo(src, tok, YPath([text] + rest)) ==
            if !Fits(src, tok, word) || Next(src, tok, true).None? then None
            else
              var t := Next(src, tok, true).value;
              if t.kind != Dot || Next(src, t, true).None? then None
              else ReadTo(src, Next(src, t, true).value, YPath(rest))
  {
    var word, dot := Term(Str, text, true), Term(Dot, [], true);
    assert ([text] + rest)[1..] == rest;
    assert YPath([text] + rest) == [word] + ([dot] + YPath(rest));
    ReadCons(src, tok, word, [dot] + YPath(rest));
    if Fits(src, tok, word) && Next(src, tok, true).Some? {
      ReadCons(src, Next(src, tok, true).value, dot, YPath(rest));
    }
  }

  lemma {:induction false} PathSound(src: string, tok: Token, n: nat) returns (path: seq<string>)
    requires Made(src, tok) && FillPath(src, tok, n).Path?
    ensures path != [] && n + |path| <= MAX_DEPTH
    ensures ReadTo(src, tok, YPath(path)) == Some(FillPath(src, tok, n).tok)
    ensures NormalizePath(path) == Some(FillPath(src, tok, n).keys)
    decreases MAX_DEPTH - n
  {
    hide Next, NormalizeKey, ReadTo;
    var text := TokText(src, tok);
    var t := Next(src, tok, true).value;
    if t.kind == RBracket {
      path := [text];
      OneKey(text);
      ReadOne(src, tok, Term(Str, text, true));
    } else {
      var rest := PathSound(src, Next(src, t, true).value, n + 1);
      path := [text] + rest;
      MoreKeys(text, rest);
      ReadKeyDot(src, tok, text, rest);
    }
  }

  lemma {:induction false} PathComplete(src: string, tok: Token, n: nat, path: seq<string>, end: Token)
    requires Made(src, tok) && path != [] && n + |path| <= MAX_DEPTH && NormalizePath(path).Some?
    requires ReadTo(src, tok, YPath(path)) == Some(end) && end.kind == RBracket
    ensures FillPath(src, tok, n) == Path(NormalizePath(path).value, end)
    decreases |path|
  {
    hide Next, NormalizeKey, ReadTo;
    var text, rest := path[0], path[1..];
    if rest == [] {
      assert path == [text];
      OneKey(text);
      ReadOne(src, tok, Term(Str, text, true));
    } else {
      assert path == [text] + rest;
      MoreKeys(text, rest);
      ReadKeyDot(src, tok, text, rest);
      PathComplete(src, Next(src, Next(src, tok, true).value, true).value, n + 1, rest, end);
    }
  }

  lemma ReadOpening(src: string, tok: Token, double: bool)
    requires Made(src, tok)
    ensures var l := Term(LBracket, [], true);
            ReadTo(src, tok, Opening(double)) ==
            if tok.kind != LBracket || Next(src, tok, true).None? then None
            else if !double then Next(src, tok, true)
            else if Next(src, tok, true).value.kind != LBracket then None
            else Next(src, Next(src, tok, true).value, true)
  {
    var l := Term(LBracket, [], true);
    if double {
      assert Opening(true) == [l] + [l];
      ReadCons(src, tok, l, [l]);
      if Fits(src, tok, l) && Next(src, tok, true).Some? { ReadOne(src, Next(src, tok, true).value, l); }
    } else {
      ReadOne(src, tok, l);
    }
  }

  lemma ReadClosing(src: string, tok: Token, double: bool)
    requires Made(src, tok)
    ensures CloseHeader(src, tok, double).Some? <==>
            ReadTo(src, tok, Closing(double)).Some? && ReadTo(src, tok, Closing(double)).value.kind == Newline
    ensures CloseHeader(src, tok, double).Some? ==> ReadTo(src, tok, Closing(double)) == CloseHeader(src, tok, double)
  {
    var r := Mark(RBracket);
    if double {
      assert Closing(true) == [r] + [r];
      ReadCons(src, tok, r, [r]);
      if Fits(src, tok, r) && Next(src, tok, false).Some? { ReadOne(src, Next(src, tok, false).value, r); }
    } else {
      ReadOne(src, tok, r);
    }
  }

  /** The tokens at which the parts of a header start: the path, the closing brackets, the newline. */
  function HeaderToks(src: string, tok: Token, double: bool, path: seq<string>): Option<(Token, Token, Token)>
    requires Made(src, tok) && path != []
  {
    match ReadTo(src, tok, Opening(double))
    case None => None
    case Some(u) =>
      match ReadTo(src, u, YPath(path))
      case None => None
      case Some(v) =>
        match ReadTo(src, v, Closing(double))
        case None => None
        case Some(w) => Some((u, v, w))
  }

  lemma ReadHeader(src: string, tok: Token, double: bool, path: seq<string>)
    requires Made(src, tok) && path != []
    ensures ReadTo(src, tok, YHeader(double, path)) ==
            match HeaderToks(src, tok, double, path)
            case None => None
            case Some((u, v, w)) => if w.kind == Newline then Next(src, w, true) else None
  {
    var tail := Closing(double) + [LINE_END];
    assert YHeader(double, path) == Opening(double) + (YPath(path) + tail);
    ReadAppend(src, tok, Opening(double), YPath(path) + tail);
    match ReadTo(src, tok, Opening(double))
    case None =>
    case Some(u) =>
      ReadAppend(src, u, YPath(path), tail);
      match ReadTo(src, u, YPath(path))
      case None =>
      case Some(v) =>
        ReadAppend(src, v, Closing(double), [LINE_END]);
        match ReadTo(src, v, Closing(double))
        case None =>
        case Some(w) => ReadOne(src, w, LINE_END);
  }

  /** What parse_select accepts is a header of the grammar, and it does what running the header does. */
  lemma HeaderSound(src: string, vt: ValType, tok: Token, d: Sel) returns (double: bool, path: seq<string>)
    requires Made(src, tok) && d.Valid() && d.root.TabN? && ParseSelect(src, tok, d.root).Selected?
    ensures path != [] && RunStmt(vt, d, Header(double, path)) == Some(ParseSelect(src, tok, d.root).sel)
    ensures ReadTo(src, tok, YHeader(double, path)) == Next(src, ParseSelect(src, tok, d.root).tok, true)
  {
    hide Next, NormalizeKey;
    var t := Next(src, tok, true).value;
    double := t.kind == LBracket;
    var u := if double then Next(src, t, true).value else t;
    path := PathSound(src, u, 0);
    var v := FillPath(src, u, 0).tok;
    ReadOpening(src, tok, double);
    ReadClosing(src, v, double);
    ReadHeader(src, tok, double, path);
  }

  lemma {:induction false} PathStarts(src: string, tok: Token, path: seq<string>)
    requires Made(src, tok) && path != [] && ReadTo(src, tok, YPath(path)).Some?
    ensures tok.kind == Str
  {
  }

  lemma HeaderComplete(src: string, vt: ValType, tok: Token, d: Sel, double: bool, path: seq<string>, end: Token)
    requires Made(src, tok) && d.Valid() && d.root.TabN? && path != []
    requires ReadTo(src, tok, YHeader(double, path)) == Some(end) && RunStmt(vt, d, Header(double, path)).Some?
    ensures tok.kind == LBracket && ParseSelect(src, tok, d.root).Selected?
    ensures ParseSelect(src, tok, d.root).sel == RunStmt(vt, d, Header(double, path)).value
    ensures Next(src, ParseSelect(src, tok, d.root).tok, true) == Some(end)
  {
    hide Next, NormalizeKey;
    ReadHeader(src, tok, double, path);
    var (u, v, w) := HeaderToks(src, tok, double, path).value;
    ReadOpening(src, tok, double);
    ReadClosing(src, v, double);
    PathStarts(src, u, path);
    ClosingStarts(src, v, double);
    PathComplete(src, u, 0, path, v);
  }

  lemma ClosingStarts(src: string, tok: Token, double: bool)
    requires Made(src, tok) && ReadTo(src, tok, Closing(double)).Some?
    ensures tok.kind == RBracket
  {
  }

  // ---- documents ----

  /** The text is a document of the grammar with the statements cs: reading their terminals from the
      first token leads to the end of the text. */
  ghost predicate Derives(src: string, cs: seq<CStmt>) {
    && (forall s :: s in cs ==> WellFormed(s))
    && Next(src, START, true).Some?
    && ReadTo(src, Next(src, START, true).value, YDoc(cs)).Some?
    && ReadTo(src, Next(src, START, true).value, YDoc(cs)).value.eof
  }

  /** The statements cs are read from tok to the end of the text. */
  ghost predicate ReadsOut(src: string, tok: Token, cs: seq<CStmt>)
    requires Made(src, tok)
  {
    && (forall s :: s in cs ==> WellFormed(s))
    && ReadTo(src, tok, YDoc(cs)).Some?
    && ReadTo(src, tok, YDoc(cs)).value.eof
  }

  lemma ReadsOutCons(src: string, tok: Token, c: CStmt, cs: seq<CStmt>)
    requires Made(src, tok) && WellFormed(c)
    ensures ReadsOut(src, tok, [c] + cs) <==>
            ReadTo(src, tok, YStmt(c)).Some? && ReadsOut(src, ReadTo(src, tok, YStmt(c)).value, cs)
  {
    assert ([c] + cs)[1..] == cs;
    assert forall s :: s in [c] + cs <==> s == c || s in cs;
    if forall s :: s in cs ==> WellFormed(s) {
      ReadAppend(src, tok, YStmt(c), YDoc(cs));
    }
  }

  lemma RunCons(vt: ValType, d: Sel, c: CStmt, cs: seq<CStmt>)
    requires d.Valid() && d.root.TabN?
    ensures Run(vt, d, ADoc([c] + cs)) == match Run(vt, d, AStmt(c)) case None => None
            case Some(e) => Run(vt, e, ADoc(cs))
  {
    assert ([c] + cs)[1..] == cs;
    RunAppend(vt, d, AStmt(c), ADoc(cs));
  }

  lemma RunOne(vt: ValType, d: Sel, s: Stmt)
    requires d.Valid() && d.root.TabN?
    ensures Run(vt, d, [s]) == RunStmt(vt, d, s)
  {
    assert [s][1..] == [];
  }

  /** One step of the loop of toml_parse, as a statement of the grammar. */
  lemma LineSound(src: string, vt: ValType, tok: Token, d: Sel) returns (c: CStmt)
    requires Made(src, tok) && d.Valid() && d.root.TabN? && !tok.eof && ParseLine(src, vt, tok, d).Line?
    ensures var r := ParseLine(src, vt, tok, d);
            && WellFormed(c) && Run(vt, d, AStmt(c)) == Some(r.sel)
            && (c.CHeader? ==> r.tok.kind == Newline)
            && ReadTo(src, tok, YStmt(c)) == if c.CHeader? then Next(src, r.tok, true) else Some(r.tok)
  {
    match tok.kind {
      case Newline =>
        c := CBlank;
        ReadOne(src, tok, LINE_END);
      case Str =>
        var e := KeyvalSound(src, vt, tok, d.Table());
        c := CLine(e);
        ReadAppend(src, tok, YEntry(e), [Mark(Newline)]);
        ReadOne(src, ParseKeyval(src, vt, tok, d.Table()).tok, Mark(Newline));
        RunOne(vt, d, KeyVal(AEntry(e)));
      case LBracket =>
        var double, path := HeaderSound(src, vt, tok, d);
        c := CHeader(double, path);
        RunOne(vt, d, Header(double, path));
      case _ =>
    }
  }

  lemma {:induction false} LinesSound(src: string, vt: ValType, tok: Token, d: Sel) returns (cs: seq<CStmt>)
    requires Made(src, tok) && d.Valid() && d.root.TabN? && ParseLines(src, vt, tok, d).Done?
    ensures ReadsOut(src, tok, cs)
    ensures Sections.RootOf(Run(vt, d, ADoc(cs))) == Some(ParseLines(src, vt, tok, d).root)
    decreases |src| - tok.pos
  {
    if tok.eof {
      cs := [];
    } else {
      var c := LineSound(src, vt, tok, d);
      var r := ParseLine(src, vt, tok, d);
      if c.CHeader? && r.tok.eof {
        cs := [c] + [];
        EofIsFixed(src, r.tok, true);
        assert ReadsOut(src, r.tok, []);
        ReadsOutCons(src, tok, c, []);
        RunCons(vt, d, c, []);
      } else if c.CHeader? {
        var rest := LinesSound(src, vt, Next(src, r.tok, true).value, r.sel);
        cs := [c] + rest;
        ReadsOutCons(src, tok, c, rest);
        RunCons(vt, d, c, rest);
      } else {
        var rest := LinesSound(src, vt, r.tok, r.sel);
        cs := [c] + rest;
        ReadsOutCons(src, tok, c, rest);
        RunCons(vt, d, c, rest);
      }
    }
  }

  lemma EntryLineComplete(src: string, vt: ValType, tok: Token, d: Sel, e: CEntry, end: Token)
    requires Made(src, tok) && d.Valid() && d.root.TabN? && !tok.eof
    requires ReadTo(src, tok, YEntry(e) + [Mark(Newline)]) == Some(end) && RunStmt(vt, d, KeyVal(AEntry(e))).Some?
    ensures ParseLine(src, vt, tok, d) == Line(RunStmt(vt, d, KeyVal(AEntry(e))).value, end)
  {
    hide Next, NormalizeKey, ParseKeyval;
    ReadAppend(src, tok, YEntry(e), [Mark(Newline)]);
    var u := ReadTo(src, tok, YEntry(e)).value;
    ReadOne(src, u, Mark(Newline));
    KeyvalComplete(src, vt, tok, d.Table(), e, u);
    ReadKey(src, tok, e.key, YVal(e.val));
  }

  /** A statement of the grammar that can be run is one step of the loop. */
  lemma LineComplete(src: string, vt: ValType, tok: Token, d: Sel, c: CStmt, end: Token)
    requires Made(src, tok) && d.Valid() && d.root.TabN? && WellFormed(c) && !tok.eof
    requires ReadTo(src, tok, YStmt(c)) == Some(end) && Run(vt, d, AStmt(c)).Some?
    ensures var r := ParseLine(src, vt, tok, d);
            && r.Line? && r.sel == Run(vt, d, AStmt(c)).value
            && (c.CHeader? ==> r.tok.kind == Newline)
            && Some(end) == if c.CHeader? then Next(src, r.tok, true) else Some(r.tok)
  {
    hide Next, NormalizeKey, ParseKeyval, ParseSelect, ReadTo, RunStmt;
    match c
    case CBlank =>
      ReadOne(src, tok, LINE_END);
    case CLine(e) =>
      RunOne(vt, d, KeyVal(AEntry(e)));
      EntryLineComplete(src, vt, tok, d, e, end);
    case CHeader(double, path) =>
      RunOne(vt, d, Header(double, path));
      HeaderComplete(src, vt, tok, d, double, path, end);
  }

  lemma {:induction false} LinesComplete(src: string, vt: ValType, tok: Token, d: Sel, cs: seq<CStmt>)
    requires Made(src, tok) && d.Valid() && d.root.TabN? && ReadsOut(src, tok, cs)
    requires Run(vt, d, ADoc(cs)).Some?
    ensures ParseLines(src, vt, tok, d) == Done(Run(vt, d, ADoc(cs)).value.root)
    decreases |cs|
  {
    if cs == [] {
    } else {
      var c, rest := cs[0], cs[1..];
      assert cs == [c] + rest;
      ReadsOutCons(src, tok, c, rest);
      RunCons(vt, d, c, rest);
      var end := ReadTo(src, tok, YStmt(c)).value;
      if tok.eof {
        OnlyBlankAtEof(src, tok, c);
        EofIsFixed(src, tok, true);
        LinesComplete(src, vt, tok, d, rest);
      } else {
        LineComplete(src, vt, tok, d, c, end);
        var r := ParseLine(src, vt, tok, d);
        LinesComplete(src, vt, end, r.sel, rest);
        if c.CHeader? { NewlineStep(src, vt, r.tok, r.sel); }
      }
    }
  }

  lemma OnlyBlankAtEof(src: string, tok: Token, c: CStmt)
    requires Made(src, tok) && tok.eof && WellFormed(c) && ReadTo(src, tok, YStmt(c)).Some?
    ensures c == CBlank && ReadTo(src, tok, YStmt(c)) == Next(src, tok, true)
  {
    match c
    case CBlank => ReadOne(src, tok, LINE_END);
    case CLine(e) => ReadKey(src, tok, e.key, YVal(e.val)); ReadAppend(src, tok, YEntry(e), [Mark(Newline)]);
    case CHeader(double, path) =>
      ReadHeader(src, tok, double, path);
      ReadOpening(src, tok, double);
  }

  lemma NewlineStep(src: string, vt: ValType, tok: Token, d: Sel)
    requires Made(src, tok) && d.Valid() && d.root.TabN? && tok.kind == Newline && Next(src, tok, true).Some?
    ensures ParseLines(src, vt, tok, d) == ParseLines(src, vt, Next(src, tok, true).value, d)
  {
    if tok.eof { EofIsFixed(src, tok, true); }
  }

  /** toml_parse returns the tree root exactly when the text is a document of the grammar and running
      its statements, one after the other from the empty tree, builds root. */
  lemma DocumentGrammar(src: string, vt: ValType, root: Node)
    ensures ParseDoc(src, vt) == Done(root) <==>
            exists cs :: Derives(src, cs) && Sections.RootOf(Run(vt, START_SEL, ADoc(cs))) == Some(root)
  {
    if Next(src, START, true).Some? {
      var t := Next(src, START, true).value;
      if ParseDoc(src, vt) == Done(root) {
        var cs := LinesSound(src, vt, t, START_SEL);
        assert Derives(src, cs);
      }
      if cs :| Derives(src, cs) && Sections.RootOf(Run(vt, START_SEL, ADoc(cs))) == Some(root) {
        LinesComplete(src, vt, t, START_SEL, cs);
      }
    }
  }

  // ---- no accepted document contains an empty bare word ----

  predicate EndsInWord(ys: seq<Term>) { ys != [] && ys[|ys| - 1].kind == Str }

  predicate StartsWithWord(ys: seq<Term>) { ys != [] && ys[0].kind == Str }

  /** No word stands directly after a word. */
  predicate Separated(ys: seq<Term>) {
    forall i :: 0 <= i < |ys| - 1 && ys[i].kind == Str ==> ys[i + 1].kind != Str
  }

  lemma SeparatedAppend(xs: seq<Term>, ys: seq<Term>)
    requires Separated(xs) && Separated(ys) && !(EndsInWord(xs) && StartsWithWord(ys))
    ensures Separated(xs + ys)
    ensures ys != [] ==> EndsInWord(xs + ys) == EndsInWord(ys)
    ensures xs != [] ==> StartsWithWord(xs + ys) == StartsWithWord(xs)
    ensures xs == [] ==> xs + ys == ys
  {
    var zs := xs + ys;
    forall i | 0 <= i < |zs| - 1 && zs[i].kind == Str ensures zs[i + 1].kind != Str {
      if i + 1 < |xs| { assert xs[i].kind == Str; }
      else if i >= |xs| { assert ys[i - |xs|].kind == Str; }
    }
  }

  lemma {:induction false} SeparatedNewlines(n: nat)
    ensures forall y :: y in Newlines(n) ==> y.kind == Newline
    ensures Separated(Newlines(n)) && !EndsInWord(Newlines(n)) && !StartsWithWord(Newlines(n))
  {
    if n == 0 {
    } else {
      SeparatedNewlines(n - 1);
    }
  }

  /** Newlines and a closing part. */
  lemma SeparatedTail(n: nat, ys: seq<Term>)
    requires Separated(ys) && ys != []
    ensures Separated(Newlines(n) + ys) && EndsInWord(Newlines(n) + ys) == EndsInWord(ys)
    ensures StartsWithWord(Newlines(n) + ys) ==> StartsWithWord(ys)
  {
    SeparatedNewlines(n);
    SeparatedAppend(Newlines(n), ys);
  }

  lemma {:induction false} SeparatedVal(v: CVal)
    ensures Separated(YVal(v))
  {
    match v
    case CScalar(_) =>
    case CList(items) =>
      SeparatedItems(items);
      SeparatedAppend([Mark(LBracket)], YItems(items));
    case CInline(entries) =>
      SeparatedEntries(entries);
      SeparatedAppend([Mark(LBrace)], YEntries(entries));
  }

  lemma {:induction false} SeparatedItems(c: CItems)
    ensures Separated(YItems(c)) && YItems(c) != [] && !EndsInWord(YItems(c))
  {
    match c
    case NoItem(nl) => SeparatedTail(nl, [Mark(RBracket)]);
    case LastItem(nl, v, nl2) =>
      SeparatedVal(v);
      SeparatedTail(nl2, [Mark(RBracket)]);
      SeparatedAppend(YVal(v), Newlines(nl2) + [Mark(RBracket)]);
      SeparatedTail(nl, YVal(v) + (Newlines(nl2) + [Mark(RBracket)]));
    case MoreItems(nl, v, nl2, rest) =>
      SeparatedVal(v);
      SeparatedItems(rest);
      SeparatedAppend([Mark(Comma)], YItems(rest));
      SeparatedTail(nl2, [Mark(Comma)] + YItems(rest));
      SeparatedAppend(YVal(v), Newlines(nl2) + ([Mark(Comma)] + YItems(rest)));
      SeparatedTail(nl, YVal(v) + (Newlines(nl2) + ([Mark(Comma)] + YItems(rest))));
  }

  lemma {:induction false} SeparatedEntry(e: CEntry)
    ensures Separated(YEntry(e)) && YEntry(e) != []
  {
    SeparatedVal(e.val);
    SeparatedAppend([Term(Str, e.key, false), Mark(Equal)], YVal(e.val));
  }

  lemma {:induction false} SeparatedEntries(c: CEntries)
    ensures Separated(YEntries(c)) && YEntries(c) != [] && !EndsInWord(YEntries(c))
  {
    match c
    case NoEntry(nl) => SeparatedTail(nl, [Mark(RBrace)]);
    case LastEntry(nl, e, nl2) =>
      SeparatedEntry(e);
      SeparatedTail(nl2, [Mark(RBrace)]);
      SeparatedAppend(YEntry(e), Newlines(nl2) + [Mark(RBrace)]);
      SeparatedTail(nl, YEntry(e) + (Newlines(nl2) + [Mark(RBrace)]));
    case MoreEntries(nl, e, nl2, rest) =>
      SeparatedEntry(e);
      SeparatedEntries(rest);
      SeparatedAppend([Mark(Comma)], YEntries(rest));
      SeparatedTail(nl2, [Mark(Comma)] + YEntries(rest));
      SeparatedAppend(YEntry(e), Newlines(nl2) + ([Mark(Comma)] + YEntries(rest)));
      SeparatedTail(nl, YEntry(e) + (Newlines(nl2) + ([Mark(Comma)] + YEntries(rest))));
  }

  lemma {:induction false} SeparatedPath(path: seq<string>)
    requires path != []
    ensures Separated(YPath(path)) && YPath(path) != []
  {
    if |path| <= 1 {
    } else {
      SeparatedPath(path[1..]);
      SeparatedAppend([Term(Str, path[0], true), Term(Dot, [], true)], YPath(path[1..]));
    }
  }

  lemma SeparatedStmt(c: CStmt)
    requires WellFormed(c)
    ensures Separated(YStmt(c)) && YStmt(c) != [] && !EndsInWord(YStmt(c))
  {
    match c
    case CBlank =>
    case CLine(e) =>
      SeparatedEntry(e);
      SeparatedAppend(YEntry(e), [Mark(Newline)]);
    case CHeader(double, path) =>
      var tail := Closing(double) + [LINE_END];
      SeparatedPath(path);
      SeparatedAppend(YPath(path), tail);
      SeparatedAppend(Opening(double), YPath(path) + tail);
  }

  lemma {:induction false} SeparatedDoc(cs: seq<CStmt>)
    requires forall s :: s in cs ==> WellFormed(s)
    ensures Separated(YDoc(cs)) && !EndsInWord(YDoc(cs))
  {
    if cs == [] {
    } else {
      SeparatedStmt(cs[0]);
      SeparatedDoc(cs[1..]);
      SeparatedAppend(YStmt(cs[0]), YDoc(cs[1..]));
    }
  }

  /** Reading goes past no empty word: one would be read again at once. */
  lemma {:induction false} WordsReadAreNotEmpty(src: string, prev: Token, dot: bool, tok: Token, ys: seq<Term>)
    requires Made(src, tok) && ValidTok(src, prev) && Next(src, prev, dot) == Some(tok)
    requires Separated(ys) && !EndsInWord(ys) && ReadTo(src, tok, ys).Some?
    ensures forall i :: 0 <= i < |ys| && ys[i].kind == Str ==> ys[i].text != []
    decreases |ys|
  {
    if ys == [] {
    } else {
      var t := Next(src, tok, ys[0].dot).value;
      if |ys| > 1 {
        assert forall i :: 0 <= i < |ys[1..]| ==> ys[1..][i] == ys[i + 1];
        if ys[0].kind == Str && tok.len == 0 {
          EmptyWordIsFixed(src, prev, dot, tok, ys[0].dot);
        }
        WordsReadAreNotEmpty(src, tok, ys[0].dot, t, ys[1..]);
        forall i | 0 <= i < |ys| && ys[i].kind == Str ensures ys[i].text != [] {
          if i > 0 { assert ys[1..][i - 1] == ys[i]; }
        }
      }
    }
  }

  /** No document of the grammar, so none that is accepted, contains an empty bare word, although the
      scanner can return one. */
  lemma NoEmptyWord(src: string, cs: seq<CStmt>)
    requires Derives(src, cs)
    ensures forall i :: 0 <= i < |YDoc(cs)| && YDoc(cs)[i].kind == Str ==> YDoc(cs)[i].text != []
  {
    SeparatedDoc(cs);
    WordsReadAreNotEmpty(src, START, true, Next(src, START, true).value, YDoc(cs));
  }
}
