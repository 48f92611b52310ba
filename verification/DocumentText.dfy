/** Documents as text (contrib/tomlc99/toml.c:1204-1276, 1509-1550): a printer for concrete syntax, and the proof that
    the scanner and the grammar read back what it prints. */
module DocumentText {
  import opened Text
  import opened Lexer
  import opened TokenLaws
  import opened Tree
  import opened Headers
  import opened Syntax
  import opened Strings
  import opened StringLaws
  import opened Parser
  import opened Grammar
  import opened Documents
  import opened Unambiguous
  import opened Written
  import Sections

  // ---- the text itself ----

  function ShowLines(n: nat): string {
    if n == 0 then "" else "\n " + ShowLines(n - 1)
  }

  /** A document as text, with a blank after every token. */
  function ShowVal(v: CVal): string {
    match v
    case CScalar(raw) => raw + " "
    case CList(items) => "[ " + ShowItems(items)
    case CInline(entries) => "{ " + ShowEntries(entries)
  }

  function ShowItems(c: CItems): string {
    match c
    case NoItem(nl) => ShowLines(nl) + "] "
    case LastItem(nl, v, nl2) => ShowLines(nl) + (ShowVal(v) + (ShowLines(nl2) + "] "))
    case MoreItems(nl, v, nl2, rest) => ShowLines(nl) + (ShowVal(v) + (ShowLines(nl2) + (", " + ShowItems(rest))))
  }

  function ShowEntry(e: CEntry): string {
    e.key + (" = " + ShowVal(e.val))
  }

  function ShowEntries(c: CEntries): string {
    match c
    case NoEntry(nl) => ShowLines(nl) + "} "
    case LastEntry(nl, e, nl2) => ShowLines(nl) + (ShowEntry(e) + (ShowLines(nl2) + "} "))
    case MoreEntries(nl, e, nl2, rest) =>
      ShowLines(nl) + (ShowEntry(e) + (ShowLines(nl2) + (", " + ShowEntries(rest))))
  }

  function ShowPath(path: seq<string>): string
    requires path != []
  {
    if |path| == 1 then path[0] + " " else path[0] + (" . " + ShowPath(path[1..]))
  }

  function ShowStmt(s: CStmt): string
    requires WellFormed(s)
  {
    match s
    case CBlank => "\n "
    case CLine(e) => ShowEntry(e) + "\n "
    case CHeader(double, path) =>
      if double then "[ [ " + (ShowPath(path) + "] ] \n ") else "[ " + (ShowPath(path) + "] \n ")
  }

  function Show(cs: seq<CStmt>): string
    requires forall s :: s in cs ==> WellFormed(s)
  {
    if cs == [] then "" else ShowStmt(cs[0]) + Show(cs[1..])
  }

  lemma {:induction false} WriteAppend(xs: seq<Term>, ys: seq<Term>)
    ensures Write(xs + ys) == Write(xs) + Write(ys)
    decreases |xs|
  {
    if xs == [] {
      assert xs + ys == ys;
    } else {
      assert (xs + ys)[1..] == xs[1..] + ys;
      WriteAppend(xs[1..], ys);
    }
  }

  lemma WriteOne(y: Term)
    ensures Write([y]) == Spell(y) + " "
  {
    assert [y][1..] == [] && " " + "" == " ";
  }

  lemma {:induction false} LinesWritten(n: nat)
    ensures Write(Newlines(n)) == ShowLines(n)
    decreases n
  {
    if n == 0 {
    } else {
      LinesWritten(n - 1);
      WriteOne(Mark(Newline));
      WriteAppend([Mark(Newline)], Newlines(n - 1));
    }
  }

  /** Newlines, something, newlines and something more. */
  lemma PartsWritten(n: nat, ys: seq<Term>, m: nat, zs: seq<Term>)
    ensures Write(Newlines(n) + (ys + (Newlines(m) + zs))) ==
            ShowLines(n) + (Write(ys) + (ShowLines(m) + Write(zs)))
  {
    LinesWritten(n);
    LinesWritten(m);
    WriteAppend(Newlines(n), ys + (Newlines(m) + zs));
    WriteAppend(ys, Newlines(m) + zs);
    WriteAppend(Newlines(m), zs);
  }

  lemma {:induction false} ValWritten(v: CVal)
    ensures Write(YVal(v)) == ShowVal(v)
    decreases v, 0
  {
    hide Write;
    match v
    case CScalar(raw) => WriteOne(Term(Str, raw, false));
    case CList(items) =>
      ItemsWritten(items);
      WriteOne(Mark(LBracket));
      WriteAppend([Mark(LBracket)], YItems(items));
    case CInline(entries) =>
      EntriesWritten(entries);
      WriteOne(Mark(LBrace));
      WriteAppend([Mark(LBrace)], YEntries(entries));
  }

  lemma {:induction false} ItemsWritten(c: CItems)
    ensures Write(YItems(c)) == ShowItems(c)
    decreases c, 0
  {
    hide Write, Newlines, ShowLines, YVal, ShowVal;
    MarksWritten();
    if c.NoItem? {
      LinesWritten(c.nl);
      WriteAppend(Newlines(c.nl), [Mark(RBracket)]);
    } else {
      ValWritten(c.val);
      if c.LastItem? {
        PartsWritten(c.nl, YVal(c.val), c.nl2, [Mark(RBracket)]);
      } else {
        ItemsWritten(c.rest);
        WriteAppend([Mark(Comma)], YItems(c.rest));
        PartsWritten(c.nl, YVal(c.val), c.nl2, [Mark(Comma)] + YItems(c.rest));
      }
    }
  }

  lemma MarksWritten()
    ensures Write([Mark(RBracket)]) == "] " && Write([Mark(RBrace)]) == "} " && Write([Mark(Comma)]) == ", "
  {
    WriteOne(Mark(RBracket));
    WriteOne(Mark(RBrace));
    WriteOne(Mark(Comma));
  }

  lemma {:induction false} EntryWritten(e: CEntry)
    ensures Write(YEntry(e)) == ShowEntry(e)
    decreases e, 1
  {
    hide Write;
    var k, q := Term(Str, e.key, false), Mark(Equal);
    ValWritten(e.val);
    WriteOne(k);
    WriteOne(q);
    assert YEntry(e) == [k] + ([q] + YVal(e.val));
    WriteAppend([q], YVal(e.val));
    WriteAppend([k], [q] + YVal(e.val));
    assert (e.key + " ") + (("=" + " ") + ShowVal(e.val)) == e.key + (" = " + ShowVal(e.val));
  }

  lemma {:induction false} EntriesWritten(c: CEntries)
    ensures Write(YEntries(c)) == ShowEntries(c)
    decreases c, 0
  {
    hide Write, Newlines, ShowLines, YEntry, ShowEntry;
    MarksWritten();
    if c.NoEntry? {
      LinesWritten(c.nl);
      WriteAppend(Newlines(c.nl), [Mark(RBrace)]);
    } else {
      EntryWritten(c.entry);
      if c.LastEntry? {
        PartsWritten(c.nl, YEntry(c.entry), c.nl2, [Mark(RBrace)]);
      } else {
        EntriesWritten(c.rest);
        WriteAppend([Mark(Comma)], YEntries(c.rest));
        PartsWritten(c.nl, YEntry(c.entry), c.nl2, [Mark(Comma)] + YEntries(c.rest));
      }
    }
  }

  lemma {:induction false} PathWritten(path: seq<string>)
    requires path != []
    ensures Write(YPath(path)) == ShowPath(path)
    decreases |path|
  {
    hide Write;
    var w, d := Term(Str, path[0], true), Term(Dot, [], true);
    WriteOne(w);
    if |path| > 1 {
      PathWritten(path[1..]);
      WriteOne(d);
      assert YPath(path) == [w] + ([d] + YPath(path[1..]));
      WriteAppend([d], YPath(path[1..]));
      WriteAppend([w], [d] + YPath(path[1..]));
      assert (path[0] + " ") + (("." + " ") + ShowPath(path[1..])) == path[0] + (" . " + ShowPath(path[1..]));
    }
  }

  lemma OpeningWritten(double: bool)
    ensures Write(Opening(double)) == if double then "[ [ " else "[ "
  {
    var l := Term(LBracket, [], true);
    WriteOne(l);
    if double {
      assert Opening(true) == [l] + [l];
      WriteAppend([l], [l]);
    }
  }

  lemma ClosingWritten(double: bool)
    ensures Write(Closing(double) + [LINE_END]) == if double then "] ] \n " else "] \n "
  {
    var r := Mark(RBracket);
    WriteOne(r);
    WriteOne(LINE_END);
    WriteAppend(Closing(double), [LINE_END]);
    if double {
      assert Closing(true) == [r] + [r];
      WriteAppend([r], [r]);
    }
  }

  lemma StmtWritten(s: CStmt)
    requires WellFormed(s)
    ensures Write(YStmt(s)) == ShowStmt(s)
  {
    hide Write;
    match s
    case CBlank => WriteOne(LINE_END);
    case CLine(e) =>
      EntryWritten(e);
      WriteOne(Mark(Newline));
      WriteAppend(YEntry(e), [Mark(Newline)]);
    case CHeader(double, path) =>
      var tail := Closing(double) + [LINE_END];
      OpeningWritten(double);
      PathWritten(path);
      ClosingWritten(double);
      WriteAppend(YPath(path), tail);
      WriteAppend(Opening(double), YPath(path) + tail);
  }

  lemma {:induction false} DocWritten(cs: seq<CStmt>)
    requires forall s :: s in cs ==> WellFormed(s)
    ensures Write(YDoc(cs)) == Show(cs)
    decreases |cs|
  {
    if cs == [] {
    } else {
      StmtWritten(cs[0]);
      DocWritten(cs[1..]);
      WriteAppend(YStmt(cs[0]), YDoc(cs[1..]));
    }
  }

  // ---- the laws ----

  /** Any document whose words are words, printed, reads as that document. */
  lemma {:induction false} ShowReads(cs: seq<CStmt>)
    requires (forall s :: s in cs ==> WellFormed(s)) && WordsFit(YDoc(cs), true)
    ensures Derives(Show(cs), cs)
  {
    hide Next, YDoc, WordsFit, DotsFit, Write, Show;
    var src := Show(cs);
    DocWritten(cs);
    assert src[0..] == src;
    DocDots(cs, true);
    ReadsBack(src, START, true, 0, YDoc(cs));
  }

  /** Every document can be printed afresh: any reading of a text, printed, reads as the same statements, so it is
      accepted exactly when the text was, with the same tree. */
  lemma {:induction false} Reprinted(src: string, cs: seq<CStmt>, vt: ValType, root: Node)
    requires Derives(src, cs)
    ensures Derives(Show(cs), cs)
    ensures ParseDoc(Show(cs), vt) == Done(root) <==> ParseDoc(src, vt) == Done(root)
  {
    hide YDoc, Show, ReadTo, Next, WordsFit, ParseDoc, Run;
    NoEmptyWord(src, cs);
    WordsReadFit(src, START, true, Next(src, START, true).value, YDoc(cs));
    ShowReads(cs);
    ParseOfDerived(src, vt, cs, root);
    ParseOfDerived(Show(cs), vt, cs, root);
  }

  const EMPTY_LINE := CLine(CEntry("a", CList(NoItem(0))))

  /** An empty array. */
  lemma EmptyArrayLine(src: string, vt: ValType)
    requires src == "a = [ ] \n "
    ensures ParseDoc(src, vt) == Done(SetKid(NEW_TABLE, "a", NEW_ARRAY))
  {
    var cs := [EMPTY_LINE];
    hide Derives, ParseDoc, Run, WordsFit;
    assert cs[1..] == [] && Show(cs) == src;
    EmptyArrayWords();
    ShowReads(cs);
    EmptyArrayRuns(vt);
    ParseOfDerived(src, vt, cs, SetKid(NEW_TABLE, "a", NEW_ARRAY));
  }

  lemma EmptyArrayWords()
    ensures WordsFit(YDoc([EMPTY_LINE]), true)
  {
    hide OneWord;
    var ys := YDoc([EMPTY_LINE]);
    assert [EMPTY_LINE][1..] == [];
    assert YItems(NoItem(0)) == [Mark(RBracket)];
    assert YVal(CList(NoItem(0))) == [Mark(LBracket), Mark(RBracket)];
    assert YDoc([EMPTY_LINE]) == YStmt(EMPTY_LINE) + YDoc([]) == YStmt(EMPTY_LINE);
    assert ys == [Term(Str, "a", false)] + [Mark(Equal), Mark(LBracket), Mark(RBracket), Mark(Newline)];
    assert ys[1..] == [Mark(Equal), Mark(LBracket), Mark(RBracket), Mark(Newline)];
    NoWordsFit(ys[1..], false);
    BareIsOneWord("a", true);
  }

  lemma EmptyArrayRuns(vt: ValType)
    ensures Sections.RootOf(Run(vt, START_SEL, ADoc([EMPTY_LINE]))) == Some(SetKid(NEW_TABLE, "a", NEW_ARRAY))
  {
  }

  // ---- how deep a header may go ----

  /** A key of letters, digits, underscores and dashes. */
  predicate BareKey(k: string) {
    k != "" && forall i :: 0 <= i < |k| ==> BareByte(k[i])
  }

  lemma BareKeyFits(k: string, dot: bool)
    requires BareKey(k)
    ensures NormalizeKey(k) == Some(k) && OneWord(k, dot)
  {
    hide NormalizeKey, OneWord;
    BareKeyExactly(k);
    BareIsOneWord(k, dot);
  }

  lemma {:induction false} BarePathFits(path: seq<string>)
    requires path != [] && forall k :: k in path ==> BareKey(k)
    ensures NormalizePath(path) == Some(path) && WordsFit(YPath(path), true)
    decreases |path|
  {
    hide NormalizeKey, OneWord, BareKey;
    var word, dot := Term(Str, path[0], true), Term(Dot, [], true);
    BareKeyFits(path[0], true);
    if |path| == 1 {
      OneKey(path[0]);
      assert path == [path[0]];
      MoreFits(word, [], true);
    } else {
      BarePathFits(path[1..]);
      assert path == [path[0]] + path[1..];
      MoreKeys(path[0], path[1..]);
      assert YPath(path) == [word] + ([dot] + YPath(path[1..]));
      MoreFits(dot, YPath(path[1..]), true);
      MoreFits(word, [dot] + YPath(path[1..]), true);
    }
  }

  lemma MoreFits(y: Term, ys: seq<Term>, dot: bool)
    ensures WordsFit([y] + ys, dot) <==> (y.kind == Str ==> OneWord(y.text, dot)) && WordsFit(ys, y.dot)
  {
    assert ([y] + ys)[1..] == ys;
  }

  lemma {:induction false} WordsAppend(xs: seq<Term>, ys: seq<Term>, dot: bool)
    requires WordsFit(xs, dot) && WordsFit(ys, if xs == [] then dot else xs[|xs| - 1].dot)
    ensures WordsFit(xs + ys, dot)
    decreases |xs|
  {
    hide OneWord;
    if xs == [] {
      assert xs + ys == ys;
    } else {
      assert (xs + ys)[1..] == xs[1..] + ys;
      WordsAppend(xs[1..], ys, xs[0].dot);
    }
  }

  lemma {:induction false} NoWordsFit(ys: seq<Term>, dot: bool)
    requires forall i :: 0 <= i < |ys| ==> ys[i].kind != Str
    ensures WordsFit(ys, dot)
    decreases |ys|
  {
    hide OneWord;
    if ys == [] {
    } else {
      NoWordsFit(ys[1..], ys[0].dot);
    }
  }

  lemma HeaderFits(double: bool, path: seq<string>)
    requires path != [] && forall k :: k in path ==> BareKey(k)
    ensures WordsFit(YHeader(double, path), true)
  {
    hide OneWord, BareKey, WordsFit, YPath;
    var tail := Closing(double) + [LINE_END];
    NoWordsFit(tail, true);
    NoWordsFit(tail, if YPath(path) == [] then true else YPath(path)[|YPath(path)| - 1].dot);
    BarePathFits(path);
    WordsAppend(YPath(path), tail, true);
    NoWordsFit(Opening(double), true);
    WordsAppend(Opening(double), YPath(path) + tail, true);
  }

  /** The tree of a single header: tables that only lead to the last key are implicit, and the last key names an
      empty table, or an array with an empty table in it. */
  function HeaderTree(double: bool, path: seq<string>, implicit: bool): Node
    requires path != []
  {
    var last := if double then ArrN(Tables, '\0', [TabN(false, map[])]) else TabN(false, map[]);
    TabN(implicit, map[path[0] := if |path| == 1 then last else HeaderTree(double, path[1..], true)])
  }

  lemma {:induction false} WalkFromEmpty(d: Sel, double: bool, keys: seq<string>)
    requires d.Valid() && d.Table().kids == map[] && keys != []
    ensures var e := Walk(d, keys[..|keys| - 1]);
            && e.Some? && Open(e.value, double, keys[|keys| - 1]).Some?
            && Open(e.value, double, keys[|keys| - 1]).value.root ==
               Put(d.root, d.at, HeaderTree(double, keys, d.Table().implicit))
    decreases |keys|
  {
    hide Get, Put;
    if |keys| == 1 {
    } else {
      var k, t := keys[0], d.Table();
      var e := WalkStep(d, k).value;
      var u := SetKid(t, k, IMPLICIT_TABLE);
      WalkStepValid(d, k);
      GetOpened(d, k, IMPLICIT_TABLE);
      assert e == Sel(Put(d.root, d.at, u), d.at + [K(k)]) && e.Table() == IMPLICIT_TABLE;
      WalkFromEmpty(e, double, keys[1..]);
      WalkMore(d, keys);
      OneDeeper(d.root, d.at, u, k, HeaderTree(double, keys[1..], true));
      assert SetChild(u, K(k), HeaderTree(double, keys[1..], true)) == HeaderTree(double, keys, t.implicit);
    }
  }

  lemma WalkMore(d: Sel, keys: seq<string>)
    requires d.Valid() && |keys| > 1 && WalkStep(d, keys[0]).Some? && WalkStep(d, keys[0]).value.Valid()
    ensures Walk(d, keys[..|keys| - 1]) == Walk(WalkStep(d, keys[0]).value, keys[1..][..|keys[1..]| - 1])
    ensures keys[|keys| - 1] == keys[1..][|keys[1..]| - 1]
  {
    assert keys[..|keys| - 1][1..] == keys[1..][..|keys[1..]| - 1];
  }

  lemma OneDeeper(n: Node, a: Addr, u: Node, k: string, m: Node)
    requires TableAt(n, a) && u.TabN? && k in u.kids && Get(Put(n, a, u), a + [K(k)]).Some?
    ensures Put(Put(n, a, u), a + [K(k)], m) == Put(n, a, SetChild(u, K(k), m))
  {
    GetPut(n, a, u);
    PutChild(Put(n, a, u), a, K(k), m);
    PutPut(n, a, u, SetChild(u, K(k), m));
  }

  /** A header of bare keys, printed: with at most ten of them it is accepted and builds this tree, and with more
      it is not accepted. */
  lemma {:induction false} HeaderDepth(double: bool, path: seq<string>, vt: ValType)
    requires path != [] && forall k :: k in path ==> BareKey(k)
    ensures |path| <= 10 ==> ParseDoc(Show([CHeader(double, path)]), vt) == Done(HeaderTree(double, path, false))
    ensures |path| > 10 ==> !ParseDoc(Show([CHeader(double, path)]), vt).Done?
  {
    hide OneWord, BareKey, WordsFit, ParseDoc, Derives, Walk, Open, YHeader, Show, HeaderTree;
    var cs := [CHeader(double, path)];
    var src := Show(cs);
    assert cs[1..] == [] && YDoc(cs) == YHeader(double, path);
    assert ADoc(cs) == [Header(double, path)];
    HeaderFits(double, path);
    ShowReads(cs);
    BarePathFits(path);
    WalkFromEmpty(START_SEL, double, path);
    RunOne(vt, START_SEL, Header(double, path));
    forall root ensures ParseDoc(src, vt) == Done(root) <==>
        Sections.RootOf(Run(vt, START_SEL, ADoc(cs))) == Some(root) {
      ParseOfDerived(src, vt, cs, root);
    }
  }

  /** A path of good keys read up to a closing bracket is taken exactly when it has at most ten of them. */
  lemma DepthLimit(src: string, tok: Token, path: seq<string>, end: Token)
    requires Made(src, tok) && path != [] && NormalizePath(path).Some?
    requires ReadTo(src, tok, YPath(path)) == Some(end) && end.kind == RBracket
    ensures FillPath(src, tok, 0) == if |path| <= 10 then Path(NormalizePath(path).value, end) else NoPath
  {
    hide ReadTo, NormalizePath, FillPath;
    if |path| <= 10 {
      PathComplete(src, tok, 0, path, end);
    } else if FillPath(src, tok, 0).Path? {
      var q := PathSound(src, tok, 0);
      UniquePath(src, tok, path, q, end, FillPath(src, tok, 0).tok);
    }
  }
}
