/** A text has at most one reading: two derivations of it have the same statements, so what a text parses to
    is what running the statements of any derivation builds. */
module Unambiguous {
  import opened Text
  import opened Lexer
  import opened Tree
  import opened Syntax
  import opened Parser
  import opened Grammar
  import opened Documents
  import Sections

  lemma ReadVal(src: string, tok: Token, v: CVal)
    requires Made(src, tok)
    ensures ReadTo(src, tok, YVal(v)) ==
            match v
            case CScalar(raw) =>
              if tok.kind == Str && TokText(src, tok) == raw then Next(src, tok, false) else None
            case CList(items) =>
              if tok.kind != LBracket || Next(src, tok, false).None? then None
              else ReadTo(src, Next(src, tok, false).value, YItems(items))
            case CInline(entries) =>
              if tok.kind != LBrace || Next(src, tok, false).None? then None
              else ReadTo(src, Next(src, tok, false).value, YEntries(entries))
  {
    match v
    case CScalar(raw) => ReadOne(src, tok, Term(Str, raw, false));
    case CList(items) => ReadCons(src, tok, Mark(LBracket), YItems(items));
    case CInline(entries) => ReadCons(src, tok, Mark(LBrace), YEntries(entries));
  }

  lemma {:induction false} UniqueVal(src: string, tok: Token, v: CVal, w: CVal)
    requires Made(src, tok) && ReadTo(src, tok, YVal(v)).Some? && ReadTo(src, tok, YVal(w)).Some?
    ensures AVal(v) == AVal(w) && ReadTo(src, tok, YVal(v)) == ReadTo(src, tok, YVal(w))
    decreases v, 0
  {
    ReadVal(src, tok, v);
    ReadVal(src, tok, w);
    match v
    case CScalar(_) =>
    case CList(items) => UniqueItems(src, Next(src, tok, false).value, items, w.items);
    case CInline(entries) => UniqueEntries(src, Next(src, tok, false).value, entries, w.entries);
  }

  /** Where the parts of what follows '[' start: the first element or the closing bracket (t), the end
      of the element (u), and the comma or bracket after it (x). */
  lemma SplitItems(src: string, tok: Token, c: CItems) returns (t: Token, u: Token, x: Token)
    requires Made(src, tok) && ReadTo(src, tok, YItems(c)).Some?
    ensures SkipNewlines(src, tok) == Skipped(t) && Made(src, t) && (c.NoItem? <==> t.kind == RBracket)
    ensures c.NoItem? ==> ReadTo(src, tok, YItems(c)) == Next(src, t, false)
    ensures !c.NoItem? ==> ReadTo(src, t, YVal(c.val)) == Some(u) && Made(src, u)
    ensures !c.NoItem? ==> SkipNewlines(src, u) == Skipped(x) && Made(src, x) && Next(src, x, false).Some?
    ensures c.LastItem? ==> x.kind == RBracket && ReadTo(src, tok, YItems(c)) == Next(src, x, false)
    ensures c.MoreItems? ==> x.kind == Comma
    ensures c.MoreItems? ==> ReadTo(src, tok, YItems(c)) == ReadTo(src, Next(src, x, false).value, YItems(c.rest))
  {
    if c.NoItem? {
      assert [Mark(RBracket)] + [] == [Mark(RBracket)];
      t, u := SplitRead(src, tok, c.nl, [Mark(RBracket)], []);
      ReadOne(src, t, Mark(RBracket));
      x := t;
    } else {
      var y := if c.LastItem? then Mark(RBracket) else Mark(Comma);
      var rest := if c.LastItem? then [] else YItems(c.rest);
      assert [Mark(RBracket)] + [] == [Mark(RBracket)];
      ValStarts(c.val);
      t, u := SplitRead(src, tok, c.nl, YVal(c.val), Newlines(c.nl2) + ([y] + rest));
      assert YVal(c.val)[0].kind != RBracket;
      var z;
      x, z := SplitRead(src, u, c.nl2, [y], rest);
      ReadOne(src, x, y);
    }
  }

  lemma {:induction false} UniqueItems(src: string, tok: Token, c: CItems, d: CItems)
    requires Made(src, tok) && ReadTo(src, tok, YItems(c)).Some? && ReadTo(src, tok, YItems(d)).Some?
    ensures AItems(c) == AItems(d) && ReadTo(src, tok, YItems(c)) == ReadTo(src, tok, YItems(d))
    decreases c, 1
  {
    var t, u, x := SplitItems(src, tok, c);
    var t', u', x' := SplitItems(src, tok, d);
    if c.NoItem? {
    } else {
      UniqueVal(src, t, c.val, d.val);
      if c.MoreItems? { UniqueItems(src, Next(src, x, false).value, c.rest, d.rest); }
    }
  }

  lemma {:induction false} UniqueEntry(src: string, tok: Token, c: CEntry, d: CEntry)
    requires Made(src, tok) && ReadTo(src, tok, YEntry(c)).Some? && ReadTo(src, tok, YEntry(d)).Some?
    ensures AEntry(c) == AEntry(d) && ReadTo(src, tok, YEntry(c)) == ReadTo(src, tok, YEntry(d))
    decreases c, 2
  {
    ReadKey(src, tok, c.key, YVal(c.val));
    ReadKey(src, tok, d.key, YVal(d.val));
    UniqueVal(src, ValueTok(src, tok).value, c.val, d.val);
  }

  lemma SplitEntries(src: string, tok: Token, c: CEntries) returns (t: Token, u: Token, x: Token)
    requires Made(src, tok) && ReadTo(src, tok, YEntries(c)).Some?
    ensures SkipNewlines(src, tok) == Skipped(t) && Made(src, t) && (c.NoEntry? <==> t.kind == RBrace)
    ensures c.NoEntry? ==> ReadTo(src, tok, YEntries(c)) == Next(src, t, false)
    ensures !c.NoEntry? ==> ReadTo(src, t, YEntry(c.entry)) == Some(u) && Made(src, u)
    ensures !c.NoEntry? ==> SkipNewlines(src, u) == Skipped(x) && Made(src, x) && Next(src, x, false).Some?
    ensures c.LastEntry? ==> x.kind == RBrace && ReadTo(src, tok, YEntries(c)) == Next(src, x, false)
    ensures c.MoreEntries? ==> x.kind == Comma
    ensures c.MoreEntries? ==> ReadTo(src, tok, YEntries(c)) == ReadTo(src, Next(src, x, false).value, YEntries(c.rest))
  {
    if c.NoEntry? {
      assert [Mark(RBrace)] + [] == [Mark(RBrace)];
      t, u := SplitRead(src, tok, c.nl, [Mark(RBrace)], []);
      ReadOne(src, t, Mark(RBrace));
      x := t;
    } else {
      var y := if c.LastEntry? then Mark(RBrace) else Mark(Comma);
      var rest := if c.LastEntry? then [] else YEntries(c.rest);
      assert [Mark(RBrace)] + [] == [Mark(RBrace)];
      t, u := SplitRead(src, tok, c.nl, YEntry(c.entry), Newlines(c.nl2) + ([y] + rest));
      var z;
      x, z := SplitRead(src, u, c.nl2, [y], rest);
      ReadOne(src, x, y);
    }
  }

  lemma {:induction false} UniqueEntries(src: string, tok: Token, c: CEntries, d: CEntries)
    requires Made(src, tok) && ReadTo(src, tok, YEntries(c)).Some? && ReadTo(src, tok, YEntries(d)).Some?
    ensures AEntries(c) == AEntries(d) && ReadTo(src, tok, YEntries(c)) == ReadTo(src, tok, YEntries(d))
    decreases c, 1
  {
    var t, u, x := SplitEntries(src, tok, c);
    var t', u', x' := SplitEntries(src, tok, d);
    if c.NoEntry? {
    } else {
      UniqueEntry(src, t, c.entry, d.entry);
      if c.MoreEntries? { UniqueEntries(src, Next(src, x, false).value, c.rest, d.rest); }
    }
  }

  // ---- headers and documents ----

  lemma PathEnds(src: string, tok: Token, text: string, rest: seq<string>, end: Token)
    requires Made(src, tok) && ReadTo(src, tok, YPath([text] + rest)) == Some(end) && end.kind == RBracket
    ensures TokText(src, tok) == text && Next(src, tok, true).Some?
    ensures rest == [] ==> Next(src, tok, true) == Some(end)
    ensures rest != [] ==> Next(src, tok, true).value.kind == Dot
    ensures rest != [] ==> Next(src, Next(src, tok, true).value, true).Some?
    ensures rest != [] ==> ReadTo(src, Next(src, Next(src, tok, true).value, true).value, YPath(rest)) == Some(end)
  {
    if rest == [] {
      assert [text] + rest == [text];
      ReadOne(src, tok, Term(Str, text, true));
    } else {
      ReadKeyDot(src, tok, text, rest);
    }
  }

  lemma {:induction false} UniquePath(src: string, tok: Token, p: seq<string>, q: seq<string>, e: Token, f: Token)
    requires Made(src, tok) && p != [] && q != [] && e.kind == RBracket && f.kind == RBracket
    requires ReadTo(src, tok, YPath(p)) == Some(e) && ReadTo(src, tok, YPath(q)) == Some(f)
    ensures p == q
    decreases |p|
  {
    assert p == [p[0]] + p[1..] && q == [q[0]] + q[1..];
    PathEnds(src, tok, p[0], p[1..], e);
    PathEnds(src, tok, q[0], q[1..], f);
    if p[1..] == [] {
    } else {
      UniquePath(src, Next(src, Next(src, tok, true).value, true).value, p[1..], q[1..], e, f);
    }
  }

  lemma UniqueHeader(src: string, tok: Token, b: bool, p: seq<string>, c: bool, q: seq<string>)
    requires Made(src, tok) && p != [] && q != []
    requires ReadTo(src, tok, YHeader(b, p)).Some? && ReadTo(src, tok, YHeader(c, q)).Some?
    ensures b == c && p == q
  {
    ReadHeader(src, tok, b, p);
    ReadHeader(src, tok, c, q);
    var (u, v, w) := HeaderToks(src, tok, b, p).value;
    var (u', v', w') := HeaderToks(src, tok, c, q).value;
    ReadOpening(src, tok, b);
    ReadOpening(src, tok, c);
    PathStarts(src, u, p);
    PathStarts(src, u', q);
    ClosingStarts(src, v, b);
    ClosingStarts(src, v', c);
    UniquePath(src, u, p, q, v, v');
  }

  lemma StmtStarts(src: string, tok: Token, c: CStmt)
    requires Made(src, tok) && WellFormed(c) && ReadTo(src, tok, YStmt(c)).Some?
    ensures tok.kind == match c case CBlank => Newline case CLine(_) => Str case CHeader(_, _) => LBracket
    ensures c.CLine? ==> ReadTo(src, tok, YEntry(c.entry)).Some?
    ensures c.CLine? ==>
              ReadTo(src, tok, YStmt(c)) == ReadTo(src, ReadTo(src, tok, YEntry(c.entry)).value, [Mark(Newline)])
  {
    match c
    case CBlank => ReadOne(src, tok, LINE_END);
    case CLine(e) =>
      ReadAppend(src, tok, YEntry(e), [Mark(Newline)]);
      ReadKey(src, tok, e.key, YVal(e.val));
    case CHeader(double, path) =>
      ReadHeader(src, tok, double, path);
      ReadOpening(src, tok, double);
  }

  lemma UniqueStmt(src: string, tok: Token, c: CStmt, d: CStmt)
    requires Made(src, tok) && WellFormed(c) && WellFormed(d)
    requires ReadTo(src, tok, YStmt(c)).Some? && ReadTo(src, tok, YStmt(d)).Some?
    ensures AStmt(c) == AStmt(d) && ReadTo(src, tok, YStmt(c)) == ReadTo(src, tok, YStmt(d))
  {
    StmtStarts(src, tok, c);
    StmtStarts(src, tok, d);
    match c
    case CBlank =>
    case CLine(e) => UniqueEntry(src, tok, e, d.entry);
    case CHeader(double, path) => UniqueHeader(src, tok, double, path, d.double, d.path);
  }

  /** At the end of the text there is nothing but blank lines to read. */
  lemma {:induction false} NothingAtEof(src: string, tok: Token, cs: seq<CStmt>)
    requires Made(src, tok) && tok.eof && ReadsOut(src, tok, cs)
    ensures ADoc(cs) == []
    decreases |cs|
  {
    if cs == [] {
    } else {
      assert cs == [cs[0]] + cs[1..];
      ReadsOutCons(src, tok, cs[0], cs[1..]);
      OnlyBlankAtEof(src, tok, cs[0]);
      EofIsFixed(src, tok, true);
      NothingAtEof(src, tok, cs[1..]);
    }
  }

  lemma {:induction false} UniqueDoc(src: string, tok: Token, cs: seq<CStmt>, ds: seq<CStmt>)
    requires Made(src, tok) && ReadsOut(src, tok, cs) && ReadsOut(src, tok, ds)
    ensures ADoc(cs) == ADoc(ds)
    decreases |cs|
  {
    if tok.eof {
      NothingAtEof(src, tok, cs);
      NothingAtEof(src, tok, ds);
    } else {
      assert cs == [cs[0]] + cs[1..] && ds == [ds[0]] + ds[1..];
      ReadsOutCons(src, tok, cs[0], cs[1..]);
      ReadsOutCons(src, tok, ds[0], ds[1..]);
      UniqueStmt(src, tok, cs[0], ds[0]);
      UniqueDoc(src, ReadTo(src, tok, YStmt(cs[0])).value, cs[1..], ds[1..]);
    }
  }

  /** What a text with the statements cs parses to is what running them builds, and nothing if they
      cannot be run. */
  lemma ParseOfDerived(src: string, vt: ValType, cs: seq<CStmt>, root: Node)
    requires Derives(src, cs)
    ensures ParseDoc(src, vt) == Done(root) <==> Sections.RootOf(Run(vt, START_SEL, ADoc(cs))) == Some(root)
  {
    DocumentGrammar(src, vt, root);
    if ParseDoc(src, vt) == Done(root) {
      var ds :| Derives(src, ds) && Sections.RootOf(Run(vt, START_SEL, ADoc(ds))) == Some(root);
      UniqueDoc(src, Next(src, START, true).value, cs, ds);
    }
  }
}
