/** A grammar for documents, written without the parser, and the proof that the parser accepts exactly
    what the grammar derives and the tree rules allow. */
module Grammar {
  import opened Text
  import opened Lexer
  import opened Tree
  import opened Headers
  import opened Syntax
  import opened Strings
  import opened Parser

  // ---- concrete syntax ----

  /** A terminal: its kind, its text if it is a word, and the dot flag the lexer is in after it. */
  datatype Term = Term(kind: Kind, text: string, dot: bool)

  datatype CVal = CScalar(raw: string) | CList(items: CItems) | CInline(entries: CEntries)

  /** What follows '[': newlines are free, and so is a comma before the closing bracket. */
  datatype CItems =
    | NoItem(nl: nat)
    | LastItem(nl: nat, val: CVal, nl2: nat)
    | MoreItems(nl: nat, val: CVal, nl2: nat, rest: CItems)

  datatype CEntry = CEntry(key: string, val: CVal)

  /** What follows '{'. */
  datatype CEntries =
    | NoEntry(nl: nat)
    | LastEntry(nl: nat, entry: CEntry, nl2: nat)
    | MoreEntries(nl: nat, entry: CEntry, nl2: nat, rest: CEntries)

  datatype CStmt = CBlank | CLine(entry: CEntry) | CHeader(double: bool, path: seq<string>)

  // ---- the terminals a syntax tree stands for ----

  function Mark(kind: Kind): Term { Term(kind, [], false) }

  function Newlines(n: nat): (ys: seq<Term>)
    ensures |ys| == n
  {
    if n == 0 then [] else [Mark(Newline)] + Newlines(n - 1)
  }

  function YVal(v: CVal): seq<Term> {
    match v
    case CScalar(raw) => [Term(Str, raw, false)]
    case CList(items) => [Mark(LBracket)] + YItems(items)
    case CInline(entries) => [Mark(LBrace)] + YEntries(entries)
  }

  function YItems(c: CItems): seq<Term> {
    match c
    case NoItem(nl) => Newlines(nl) + [Mark(RBracket)]
    case LastItem(nl, v, nl2) => Newlines(nl) + (YVal(v) + (Newlines(nl2) + [Mark(RBracket)]))
    case MoreItems(nl, v, nl2, rest) => Newlines(nl) + (YVal(v) + (Newlines(nl2) + ([Mark(Comma)] + YItems(rest))))
  }

  function YEntry(e: CEntry): seq<Term> {
    [Term(Str, e.key, false), Mark(Equal)] + YVal(e.val)
  }

  function YEntries(c: CEntries): seq<Term> {
    match c
    case NoEntry(nl) => Newlines(nl) + [Mark(RBrace)]
    case LastEntry(nl, e, nl2) => Newlines(nl) + (YEntry(e) + (Newlines(nl2) + [Mark(RBrace)]))
    case MoreEntries(nl, e, nl2, rest) =>
      Newlines(nl) + (YEntry(e) + (Newlines(nl2) + ([Mark(Comma)] + YEntries(rest))))
  }

  function YPath(path: seq<string>): seq<Term>
    requires path != []
  {
    if |path| == 1 then [Term(Str, path[0], true)]
    else [Term(Str, path[0], true), Term(Dot, [], true)] + YPath(path[1..])
  }

  /** The brackets around a path: what stands before it and after it. */
  function Opening(double: bool): seq<Term> {
    if double then [Term(LBracket, [], true), Term(LBracket, [], true)] else [Term(LBracket, [], true)]
  }

  function Closing(double: bool): seq<Term> {
    if double then [Mark(RBracket), Mark(RBracket)] else [Mark(RBracket)]
  }

  const LINE_END := Term(Newline, [], true)

  function YHeader(double: bool, path: seq<string>): seq<Term>
    requires path != []
  {
    Opening(double) + (YPath(path) + (Closing(double) + [LINE_END]))
  }

  predicate WellFormed(s: CStmt) {
    s.CHeader? ==> s.path != []
  }

  function YStmt(s: CStmt): seq<Term>
    requires WellFormed(s)
  {
    match s
    case CBlank => [LINE_END]
    case CLine(e) => YEntry(e) + [Mark(Newline)]
    case CHeader(double, path) => YHeader(double, path)
  }

  function YDoc(cs: seq<CStmt>): seq<Term>
    requires forall s :: s in cs ==> WellFormed(s)
  {
    if cs == [] then [] else YStmt(cs[0]) + YDoc(cs[1..])
  }

  // ---- and the abstract syntax ----

  function AVal(v: CVal): Value {
    match v
    case CScalar(raw) => Scalar(raw)
    case CList(items) => List(AItems(items))
    case CInline(entries) => Inline(AEntries(entries))
  }

  function AItems(c: CItems): seq<Value> {
    match c
    case NoItem(_) => []
    case LastItem(_, v, _) => [AVal(v)]
    case MoreItems(_, v, _, rest) => [AVal(v)] + AItems(rest)
  }

  function AEntry(e: CEntry): Entry { Entry(e.key, AVal(e.val)) }

  function AEntries(c: CEntries): seq<Entry> {
    match c
    case NoEntry(_) => []
    case LastEntry(_, e, _) => [AEntry(e)]
    case MoreEntries(_, e, _, rest) => [AEntry(e)] + AEntries(rest)
  }

  function AStmt(c: CStmt): seq<Stmt> {
    match c
    case CBlank => []
    case CLine(e) => [KeyVal(AEntry(e))]
    case CHeader(double, path) => [Header(double, path)]
  }

  function ADoc(cs: seq<CStmt>): seq<Stmt> {
    if cs == [] then [] else AStmt(cs[0]) + ADoc(cs[1..])
  }

  // ---- reading terminals off the text ----

  predicate Fits(src: string, tok: Token, y: Term)
    requires Made(src, tok)
  {
    tok.kind == y.kind && (y.kind == Str ==> TokText(src, tok) == y.text)
  }

  /** The token that is current after the terminals ys have been read off the text from tok. */
  function ReadTo(src: string, tok: Token, ys: seq<Term>): (r: Option<Token>)
    requires Made(src, tok)
    ensures r.Some? ==> Made(src, r.value)
    decreases |ys|
  {
    if ys == [] then Some(tok)
    else if !Fits(src, tok, ys[0]) then None
    else
      match Next(src, tok, ys[0].dot)
      case None => None
      case Some(t) => ReadTo(src, t, ys[1..])
  }

  lemma {:induction false} ReadAppend(src: string, tok: Token, xs: seq<Term>, ys: seq<Term>)
    requires Made(src, tok)
    ensures ReadTo(src, tok, xs + ys) ==
            match ReadTo(src, tok, xs) case None => None case Some(t) => ReadTo(src, t, ys)
    decreases |xs|
  {
    if xs == [] {
      assert xs + ys == ys;
    } else {
      assert (xs + ys)[1..] == xs[1..] + ys;
      if Fits(src, tok, xs[0]) && Next(src, tok, xs[0].dot).Some? {
        ReadAppend(src, Next(src, tok, xs[0].dot).value, xs[1..], ys);
      }
    }
  }

  lemma ReadCons(src: string, tok: Token, y: Term, ys: seq<Term>)
    requires Made(src, tok)
    ensures ReadTo(src, tok, [y] + ys) ==
            if !Fits(src, tok, y) then None
            else match Next(src, tok, y.dot) case None => None case Some(t) => ReadTo(src, t, ys)
  {
    assert ([y] + ys)[1..] == ys;
  }

  lemma ReadOne(src: string, tok: Token, y: Term)
    requires Made(src, tok)
    ensures ReadTo(src, tok, [y]) == if !Fits(src, tok, y) then None else Next(src, tok, y.dot)
  {
    ReadCons(src, tok, y, []);
    assert [y] + [] == [y];
  }

  /** Skipped newlines, as terminals. */
  lemma {:induction false} SkipSound(src: string, tok: Token) returns (n: nat)
    requires Made(src, tok) && SkipNewlines(src, tok).Skipped?
    ensures ReadTo(src, tok, Newlines(n)) == Some(SkipNewlines(src, tok).tok)
    decreases |src| - tok.pos
  {
    if tok.kind != Newline {
      n := 0;
    } else {
      var m := SkipSound(src, Next(src, tok, false).value);
      n := m + 1;
      ReadCons(src, tok, Mark(Newline), Newlines(m));
    }
  }

  lemma {:induction false} SkipComplete(src: string, tok: Token, n: nat, y: Term, ys: seq<Term>)
    requires Made(src, tok) && y.kind != Newline
    requires ReadTo(src, tok, Newlines(n) + ([y] + ys)).Some?
    ensures SkipNewlines(src, tok).Skipped?
    ensures Fits(src, SkipNewlines(src, tok).tok, y)
    ensures ReadTo(src, SkipNewlines(src, tok).tok, [y] + ys) == ReadTo(src, tok, Newlines(n) + ([y] + ys))
    decreases n
  {
    if n == 0 {
      assert Newlines(0) + ([y] + ys) == [y] + ys;
      ReadCons(src, tok, y, ys);
    } else {
      assert Newlines(n) + ([y] + ys) == [Mark(Newline)] + (Newlines(n - 1) + ([y] + ys));
      ReadCons(src, tok, Mark(Newline), Newlines(n - 1) + ([y] + ys));
      SkipComplete(src, Next(src, tok, false).value, n - 1, y, ys);
      if tok.eof { EofIsFixed(src, tok, false); }
    }
  }

  // ---- arrays, element by element and as a whole ----

  /** One round of the loop of parse_array, as the tree sees it. */
  function PushOne(vt: ValType, a: Node, v: Value): (r: Option<Node>)
    requires a.ArrN?
    ensures r.Some? ==> r.value.ArrN?
  {
    match v
    case Scalar(raw) =>
      if !CanPush(a, Values) || (a.elems != [] && a.typ != vt(raw)) then None
      else Some(Push(a, Values, if a.elems == [] then vt(raw) else a.typ, Val(raw)))
    case List(_) =>
      if !CanPush(a, Arrays) || Make(vt, None, v).None? then None
      else Some(Push(a, Arrays, a.typ, Make(vt, None, v).value))
    case Inline(_) =>
      if !CanPush(a, Tables) || Make(vt, None, v).None? then None
      else Some(Push(a, Tables, a.typ, Make(vt, None, v).value))
  }

  function PushAll(vt: ValType, a: Node, vs: seq<Value>): (r: Option<Node>)
    requires a.ArrN?
    ensures r.Some? ==> r.value.ArrN?
    decreases |vs|
  {
    if vs == [] then Some(a)
    else match PushOne(vt, a, vs[0]) case None => None case Some(b) => PushAll(vt, b, vs[1..])
  }

  /** The array after the items done. */
  ghost predicate Holds(vt: ValType, a: Node, done: seq<Value>) {
    && Homogeneous(vt, done) && MakeAll(vt, done).Some?
    && a == ArrN(KindOf(done), TypOf(vt, done), MakeAll(vt, done).value)
  }

  lemma {:induction false} MakeAllAppend(vt: ValType, vs: seq<Value>, ws: seq<Value>)
    ensures MakeAll(vt, vs + ws) ==
            if MakeAll(vt, vs).None? || MakeAll(vt, ws).None? then None
            else Some(MakeAll(vt, vs).value + MakeAll(vt, ws).value)
    decreases |vs|
  {
    if vs == [] {
      assert vs + ws == ws;
      assert MakeAll(vt, []) == Some([]);
      if MakeAll(vt, ws).Some? { assert [] + MakeAll(vt, ws).value == MakeAll(vt, ws).value; }
    } else {
      assert (vs + ws)[0] == vs[0] && (vs + ws)[1..] == vs[1..] + ws;
      MakeAllAppend(vt, vs[1..], ws);
      MakeAllCons(vt, vs);
      MakeAllCons(vt, vs + ws);
      if MakeAll(vt, vs).Some? && MakeAll(vt, ws).Some? {
        var n, ns, ms := Make(vt, None, vs[0]).value, MakeAll(vt, vs[1..]).value, MakeAll(vt, ws).value;
        assert ([n] + ns) + ms == [n] + (ns + ms);
      }
    }
  }

  lemma MakeAllCons(vt: ValType, vs: seq<Value>)
    requires vs != []
    ensures MakeAll(vt, vs) ==
            if Make(vt, None, vs[0]).None? || MakeAll(vt, vs[1..]).None? then None
            else Some([Make(vt, None, vs[0]).value] + MakeAll(vt, vs[1..]).value)
  {
  }

  lemma MakeAllOne(vt: ValType, v: Value)
    ensures MakeAll(vt, [v]) == match Make(vt, None, v) case None => None case Some(n) => Some([n])
  {
    assert [v][1..] == [];
    MakeAllCons(vt, [v]);
    assert MakeAll(vt, []) == Some([]);
    if Make(vt, None, v).Some? { assert [Make(vt, None, v).value] + [] == [Make(vt, None, v).value]; }
  }

  lemma HomogeneousAppend(vt: ValType, done: seq<Value>, v: Value)
    ensures Homogeneous(vt, done + [v]) <==> Homogeneous(vt, done) && (done == [] || SameSort(vt, done[0], v))
  {
    var all := done + [v];
    if Homogeneous(vt, all) {
      forall i | 0 <= i < |done| ensures SameSort(vt, done[0], done[i]) { assert all[i] == done[i]; }
      if done != [] { assert all[|done|] == v; }
    }
    if Homogeneous(vt, done) && (done == [] || SameSort(vt, done[0], v)) {
      forall i | 0 <= i < |all| ensures SameSort(vt, all[0], all[i]) {
        if i < |done| { assert all[i] == done[i]; }
      }
    }
  }

  /** The test at each element is the homogeneity test on the array so far. */
  lemma PushOneHolds(vt: ValType, a: Node, done: seq<Value>, v: Value)
    requires Holds(vt, a, done) && a.ArrN?
    ensures PushOne(vt, a, v).Some? <==> Homogeneous(vt, done + [v]) && Make(vt, None, v).Some?
    ensures PushOne(vt, a, v).Some? ==> Holds(vt, PushOne(vt, a, v).value, done + [v])
  {
    HomogeneousAppend(vt, done, v);
    MakeAllAppend(vt, done, [v]);
    MakeAllOne(vt, v);
    assert (done + [v])[0] == if done == [] then v else done[0];
  }

  lemma {:induction false} PushAllHolds(vt: ValType, a: Node, done: seq<Value>, vs: seq<Value>)
    requires Holds(vt, a, done) && a.ArrN?
    ensures PushAll(vt, a, vs).Some? <==> Homogeneous(vt, done + vs) && MakeAll(vt, vs).Some?
    ensures PushAll(vt, a, vs).Some? ==> Holds(vt, PushAll(vt, a, vs).value, done + vs)
    decreases |vs|
  {
    if vs == [] {
      assert done + vs == done;
    } else {
      PushOneHolds(vt, a, done, vs[0]);
      assert done + vs == (done + [vs[0]]) + vs[1..];
      if PushOne(vt, a, vs[0]).Some? {
        PushAllHolds(vt, PushOne(vt, a, vs[0]).value, done + [vs[0]], vs[1..]);
      } else if Homogeneous(vt, done + vs) {
        HomogeneousPrefix(vt, done + [vs[0]], vs[1..]);
      }
    }
  }

  lemma HomogeneousPrefix(vt: ValType, vs: seq<Value>, ws: seq<Value>)
    requires Homogeneous(vt, vs + ws)
    ensures Homogeneous(vt, vs)
  {
    forall i | 0 <= i < |vs| ensures SameSort(vt, vs[0], vs[i]) { assert (vs + ws)[i] == vs[i]; }
  }

  /** Checking kind and type at every element is the one homogeneity rule, and the array built is the
      list of the elements. */
  lemma ArrayRule(vt: ValType, vs: seq<Value>)
    ensures PushAll(vt, NEW_ARRAY, vs) == Make(vt, None, List(vs))
  {
    assert Holds(vt, NEW_ARRAY, []);
    assert [] + vs == vs;
    PushAllHolds(vt, NEW_ARRAY, [], vs);
  }

  // ---- soundness: what the parser accepts, the grammar derives ----

  /** The tail of an array after an element: what was derived and what was pushed. */
  lemma ReadElem(src: string, tok: Token, nl: nat, t: Token, ys: seq<Term>, u: Token, zs: seq<Term>, end: Token)
    requires Made(src, tok) && ReadTo(src, tok, Newlines(nl)) == Some(t) && Made(src, t)
    requires ReadTo(src, t, ys) == Some(u) && Made(src, u) && ReadTo(src, u, zs) == Some(end)
    ensures ReadTo(src, tok, Newlines(nl) + (ys + zs)) == Some(end)
  {
    ReadAppend(src, t, ys, zs);
    ReadAppend(src, tok, Newlines(nl), ys + zs);
  }

  /** After newlines, one terminal and what it leads to. */
  lemma ReadMark(src: string, tok: Token, nl: nat, t: Token, y: Term, ys: seq<Term>, end: Token)
    requires Made(src, tok) && ReadTo(src, tok, Newlines(nl)) == Some(t) && Made(src, t)
    requires Fits(src, t, y) && Next(src, t, y.dot).Some? && ReadTo(src, Next(src, t, y.dot).value, ys) == Some(end)
    ensures ReadTo(src, tok, Newlines(nl) + ([y] + ys)) == Some(end)
  {
    ReadCons(src, t, y, ys);
    ReadAppend(src, tok, Newlines(nl), [y] + ys);
  }

  lemma {:induction false} ArraySound(src: string, vt: ValType, tok: Token, a: Node) returns (c: CItems)
    requires Made(src, tok) && a.ArrN? && ParseArray(src, vt, tok, a).Ok?
    ensures ReadTo(src, tok, [Mark(LBracket)] + YItems(c)) == Some(ParseArray(src, vt, tok, a).tok)
    ensures PushAll(vt, a, AItems(c)) == Some(ParseArray(src, vt, tok, a).node)
    decreases |src| - tok.pos, 1
  {
    c := ElemsSound(src, vt, Next(src, tok, false).value, a);
    ReadCons(src, tok, Mark(LBracket), YItems(c));
  }

  lemma {:induction false} ListSound(src: string, vt: ValType, t: Token) returns (c: CItems)
    requires Made(src, t) && ParseArray(src, vt, t, NEW_ARRAY).Ok?
    ensures ReadTo(src, t, YVal(CList(c))) == Some(ParseArray(src, vt, t, NEW_ARRAY).tok)
    ensures Make(vt, None, AVal(CList(c))) == Some(ParseArray(src, vt, t, NEW_ARRAY).node)
    decreases |src| - t.pos, 2
  {
    c := ArraySound(src, vt, t, NEW_ARRAY);
    ArrayRule(vt, AItems(c));
  }

  lemma {:induction false} InlineSound(src: string, vt: ValType, t: Token, was: Option<Node>) returns (c: CEntries)
    requires Made(src, t) && OpenedTable(was).Some? && ParseTable(src, vt, t, OpenedTable(was).value).Ok?
    ensures ReadTo(src, t, YVal(CInline(c))) == Some(ParseTable(src, vt, t, OpenedTable(was).value).tok)
    ensures Make(vt, was, AVal(CInline(c))) == Some(ParseTable(src, vt, t, OpenedTable(was).value).node)
    decreases |src| - t.pos, 2
  {
    c := TableSound(src, vt, t, OpenedTable(was).value);
  }

  /** One element: its syntax, what it reads and what it pushes; u is the token after it. */
  lemma {:induction false} ElemSound(src: string, vt: ValType, t: Token, a: Node) returns (v: CVal, u: Token, b: Node)
    requires Made(src, t) && a.ArrN? && t.kind != Newline && t.kind != RBracket && !ParseElems(src, vt, t, a).Fail?
    requires t.kind == LBracket ==> ParseArray(src, vt, t, NEW_ARRAY).Ok?
    requires t.kind == LBrace ==> ParseTable(src, vt, t, NEW_TABLE).Ok?
    ensures ReadTo(src, t, YVal(v)) == Some(u) && Made(src, u) && t.pos <= u.pos
    ensures PushOne(vt, a, AVal(v)) == Some(b) && b.ArrN?
    ensures ParseElemsTail(src, vt, u, b) == ParseElems(src, vt, t, a)
    decreases |src| - t.pos, 3
  {
    assert SkipNewlines(src, t) == Skipped(t);
    match t.kind {
      case Str =>
        v := CScalar(TokText(src, t));
        u := Next(src, t, false).value;
        ReadOne(src, t, Term(Str, TokText(src, t), false));
      case LBracket =>
        var c := ListSound(src, vt, t);
        v, u := CList(c), ParseArray(src, vt, t, NEW_ARRAY).tok;
      case LBrace =>
        var c := InlineSound(src, vt, t, None);
        v, u := CInline(c), ParseTable(src, vt, t, NEW_TABLE).tok;
      case _ =>
    }
    b := PushOne(vt, a, AVal(v)).value;
  }

  lemma {:induction false} ElemsSound(src: string, vt: ValType, tok: Token, a: Node) returns (c: CItems)
    requires Made(src, tok) && a.ArrN? && ParseElems(src, vt, tok, a).Ok?
    ensures ReadTo(src, tok, YItems(c)) == Some(ParseElems(src, vt, tok, a).tok)
    ensures PushAll(vt, a, AItems(c)) == Some(ParseElems(src, vt, tok, a).node)
    decreases |src| - tok.pos, 5
  {
    var r := ParseElems(src, vt, tok, a);
    var n := SkipSound(src, tok);
    var t := SkipNewlines(src, tok).tok;
    if t.kind == RBracket {
      c := NoItem(n);
      ReadMark(src, tok, n, t, Mark(RBracket), [], r.tok);
      assert [Mark(RBracket)] + [] == [Mark(RBracket)];
    } else {
      assert ParseElems(src, vt, t, a) == r;
      var v, u, b := ElemSound(src, vt, t, a);
      c := ElemsTailSound(src, vt, tok, n, t, a, v, u, b);
    }
  }

  lemma ReadMore(src: string, tok: Token, n: nat, t: Token, v: CVal, u: Token, m: nat, w: Token, rest: CItems,
                 end: Token)
    requires Made(src, tok) && ReadTo(src, tok, Newlines(n)) == Some(t) && Made(src, t)
    requires ReadTo(src, t, YVal(v)) == Some(u) && Made(src, u)
    requires ReadTo(src, u, Newlines(m)) == Some(w) && Made(src, w) && w.kind == Comma
    requires Next(src, w, false).Some? && ReadTo(src, Next(src, w, false).value, YItems(rest)) == Some(end)
    ensures ReadTo(src, tok, YItems(MoreItems(n, v, m, rest))) == Some(end)
  {
    ReadMark(src, u, m, w, Mark(Comma), YItems(rest), end);
    ReadElem(src, tok, n, t, YVal(v), u, Newlines(m) + ([Mark(Comma)] + YItems(rest)), end);
  }

  lemma ReadLast(src: string, tok: Token, n: nat, t: Token, v: CVal, u: Token, m: nat, w: Token, end: Token)
    requires Made(src, tok) && ReadTo(src, tok, Newlines(n)) == Some(t) && Made(src, t)
    requires ReadTo(src, t, YVal(v)) == Some(u) && Made(src, u)
    requires ReadTo(src, u, Newlines(m)) == Some(w) && Made(src, w) && w.kind == RBracket &&
             Next(src, w, false) == Some(end)
    ensures ReadTo(src, tok, YItems(LastItem(n, v, m))) == Some(end)
  {
    ReadMark(src, u, m, w, Mark(RBracket), [], end);
    assert [Mark(RBracket)] + [] == [Mark(RBracket)];
    ReadElem(src, tok, n, t, YVal(v), u, Newlines(m) + [Mark(RBracket)], end);
  }

  lemma PushCons(vt: ValType, a: Node, v: Value, vs: seq<Value>)
    requires a.ArrN?
    ensures PushAll(vt, a, [v] + vs) == match PushOne(vt, a, v) case None => None case Some(b) => PushAll(vt, b, vs)
  {
    assert ([v] + vs)[1..] == vs;
  }

  lemma {:induction false} ElemsTailSound(src: string, vt: ValType, tok: Token, n: nat, t: Token, a: Node,
                                          v: CVal, u: Token, b: Node) returns (c: CItems)
    requires Made(src, tok) && a.ArrN? && Made(src, t) && ReadTo(src, tok, Newlines(n)) == Some(t)
    requires Made(src, u) && b.ArrN? && ReadTo(src, t, YVal(v)) == Some(u) && PushOne(vt, a, AVal(v)) == Some(b)
    requires ParseElemsTail(src, vt, u, b).Ok? && tok.pos <= u.pos
    ensures ReadTo(src, tok, YItems(c)) == Some(ParseElemsTail(src, vt, u, b).tok)
    ensures PushAll(vt, a, AItems(c)) == Some(ParseElemsTail(src, vt, u, b).node)
    decreases |src| - tok.pos, 4
  {
    hide Next;
    var m := SkipSound(src, u);
    var w := SkipNewlines(src, u).tok;
    if w.kind == Comma {
      var rest := ElemsSound(src, vt, Next(src, w, false).value, b);
      c := MoreItems(n, v, m, rest);
      ReadMore(src, tok, n, t, v, u, m, w, rest, ParseElemsTail(src, vt, u, b).tok);
      PushCons(vt, a, AVal(v), AItems(rest));
    } else {
      c := LastItem(n, v, m);
      ReadLast(src, tok, n, t, v, u, m, w, ParseElemsTail(src, vt, u, b).tok);
      PushCons(vt, a, AVal(v), []);
      assert [AVal(v)] + [] == [AVal(v)];
    }
  }

  lemma {:induction false} TableSound(src: string, vt: ValType, tok: Token, b: Node) returns (c: CEntries)
    requires Made(src, tok) && b.TabN? && ParseTable(src, vt, tok, b).Ok?
    ensures ReadTo(src, tok, [Mark(LBrace)] + YEntries(c)) == Some(ParseTable(src, vt, tok, b).tok)
    ensures InsertAll(vt, b, AEntries(c)) == Some(ParseTable(src, vt, tok, b).node)
    decreases |src| - tok.pos, 1
  {
    c := EntriesSound(src, vt, Next(src, tok, false).value, b);
    ReadCons(src, tok, Mark(LBrace), YEntries(c));
  }

  lemma {:induction false} EntriesSound(src: string, vt: ValType, tok: Token, b: Node) returns (c: CEntries)
    requires Made(src, tok) && b.TabN? && ParseEntries(src, vt, tok, b).Ok?
    ensures ReadTo(src, tok, YEntries(c)) == Some(ParseEntries(src, vt, tok, b).tok)
    ensures InsertAll(vt, b, AEntries(c)) == Some(ParseEntries(src, vt, tok, b).node)
    decreases |src| - tok.pos, 5
  {
    var r := ParseEntries(src, vt, tok, b);
    var n := SkipSound(src, tok);
    var t := SkipNewlines(src, tok).tok;
    if t.kind == RBrace {
      c := NoEntry(n);
      ReadMark(src, tok, n, t, Mark(RBrace), [], r.tok);
      assert [Mark(RBrace)] + [] == [Mark(RBrace)];
    } else {
      var e := KeyvalSound(src, vt, t, b);
      c := EntriesTailSound(src, vt, tok, n, t, b, e, ParseKeyval(src, vt, t, b).tok, ParseKeyval(src, vt, t, b).node);
    }
  }

  lemma {:induction false} EntriesTailSound(src: string, vt: ValType, tok: Token, n: nat, t: Token, b: Node,
                                            e: CEntry, u: Token, d: Node) returns (c: CEntries)
    requires Made(src, tok) && b.TabN? && Made(src, t) && ReadTo(src, tok, Newlines(n)) == Some(t)
    requires Made(src, u) && d.TabN? && ReadTo(src, t, YEntry(e)) == Some(u) && Insert(vt, b, AEntry(e)) == Some(d)
    requires ParseEntriesTail(src, vt, u, d).Ok? && tok.pos <= u.pos
    ensures ReadTo(src, tok, YEntries(c)) == Some(ParseEntriesTail(src, vt, u, d).tok)
    ensures InsertAll(vt, b, AEntries(c)) == Some(ParseEntriesTail(src, vt, u, d).node)
    decreases |src| - tok.pos, 3
  {
    hide Next, NormalizeKey;
    var r := ParseEntriesTail(src, vt, u, d);
    var m := SkipSound(src, u);
    var w := SkipNewlines(src, u).tok;
    if w.kind == Comma {
      var rest := EntriesSound(src, vt, Next(src, w, false).value, d);
      ReadMark(src, u, m, w, Mark(Comma), YEntries(rest), r.tok);
      c := MoreEntries(n, e, m, rest);
      ReadElem(src, tok, n, t, YEntry(e), u, Newlines(m) + ([Mark(Comma)] + YEntries(rest)), r.tok);
      assert AEntries(c)[1..] == AEntries(rest);
    } else {
      ReadMark(src, u, m, w, Mark(RBrace), [], r.tok);
      assert [Mark(RBrace)] + [] == [Mark(RBrace)];
      c := LastEntry(n, e, m);
      ReadElem(src, tok, n, t, YEntry(e), u, Newlines(m) + [Mark(RBrace)], r.tok);
      assert AEntries(c)[1..] == [];
    }
  }

  /** A key and an equal sign, then what the value reads. */
  lemma ReadKey(src: string, tok: Token, key: string, ys: seq<Term>)
    requires Made(src, tok)
    ensures ReadTo(src, tok, [Term(Str, key, false), Mark(Equal)] + ys) ==
            if ValueTok(src, tok).None? || TokText(src, tok) != key then None
            else ReadTo(src, ValueTok(src, tok).value, ys)
  {
    var k := Term(Str, key, false);
    assert [k, Mark(Equal)] + ys == [k] + ([Mark(Equal)] + ys);
    ReadCons(src, tok, k, [Mark(Equal)] + ys);
    if Fits(src, tok, k) && Next(src, tok, false).Some? {
      ReadCons(src, Next(src, tok, false).value, Mark(Equal), ys);
    }
  }

  /** What parse_keyval accepts is an entry of the grammar, and it adds that entry to the table. */
  lemma {:induction false} KeyvalSound(src: string, vt: ValType, tok: Token, b: Node) returns (e: CEntry)
    requires Made(src, tok) && b.TabN? && ParseKeyval(src, vt, tok, b).Ok?
    ensures ReadTo(src, tok, YEntry(e)) == Some(ParseKeyval(src, vt, tok, b).tok)
    ensures Insert(vt, b, AEntry(e)) == Some(ParseKeyval(src, vt, tok, b).node)
    decreases |src| - tok.pos, 3
  {
    var key := TokText(src, tok);
    var t := ValueTok(src, tok).value;
    var was := Child(b, K(NormalizeKey(key).value));
    match t.kind {
      case Str =>
        e := CEntry(key, CScalar(TokText(src, t)));
        ReadOne(src, t, Term(Str, TokText(src, t), false));
      case LBracket =>
        var c := ListSound(src, vt, t);
        e := CEntry(key, CList(c));
      case LBrace =>
        var c := InlineSound(src, vt, t, was);
        e := CEntry(key, CInline(c));
      case _ =>
    }
    ReadKey(src, tok, key, YVal(e.val));
  }

  // ---- completeness: what the grammar derives and the tree rules allow, the parser accepts ----

  lemma ValStarts(v: CVal)
    ensures YVal(v) != [] && YVal(v)[0].kind != Newline && YVal(v) == [YVal(v)[0]] + YVal(v)[1..]
  {
  }

  /** From newlines and a first part to the token the part starts at and the token after it. */
  lemma SplitRead(src: string, tok: Token, nl: nat, ys: seq<Term>, zs: seq<Term>) returns (t: Token, u: Token)
    requires Made(src, tok) && ys != [] && ys[0].kind != Newline
    requires ReadTo(src, tok, Newlines(nl) + (ys + zs)).Some?
    ensures SkipNewlines(src, tok) == Skipped(t) && Made(src, t) && Fits(src, t, ys[0])
    ensures ReadTo(src, t, ys) == Some(u) && Made(src, u)
    ensures ReadTo(src, u, zs) == ReadTo(src, tok, Newlines(nl) + (ys + zs))
  {
    assert ys + zs == [ys[0]] + (ys[1..] + zs);
    SkipComplete(src, tok, nl, ys[0], ys[1..] + zs);
    t := SkipNewlines(src, tok).tok;
    ReadAppend(src, t, ys, zs);
    u := ReadTo(src, t, ys).value;
  }

  /** A loop that stands at newlines does what it does after them. */
  lemma SkipFirst(src: string, vt: ValType, tok: Token, a: Node, b: Node)
    requires Made(src, tok) && SkipNewlines(src, tok).Skipped? && a.ArrN? && b.TabN?
    ensures var t := SkipNewlines(src, tok).tok;
            && ParseElems(src, vt, tok, a) == ParseElems(src, vt, t, a)
            && ParseElemsTail(src, vt, tok, a) == ParseElemsTail(src, vt, t, a)
            && ParseEntries(src, vt, tok, b) == ParseEntries(src, vt, t, b)
            && ParseEntriesTail(src, vt, tok, b) == ParseEntriesTail(src, vt, t, b)
  {
  }

  lemma {:induction false} ListComplete(src: string, vt: ValType, t: Token, items: CItems, u: Token)
    requires Made(src, t) && ReadTo(src, t, YVal(CList(items))) == Some(u)
    requires Make(vt, None, List(AItems(items))).Some?
    ensures ParseArray(src, vt, t, NEW_ARRAY) == Ok(Make(vt, None, List(AItems(items))).value, u)
    ensures t.kind == LBracket
    decreases items, 2
  {
    ReadCons(src, t, Mark(LBracket), YItems(items));
    ArrayRule(vt, AItems(items));
    ElemsComplete(src, vt, Next(src, t, false).value, NEW_ARRAY, items, u);
  }

  lemma {:induction false} InlineComplete(src: string, vt: ValType, t: Token, b: Node, entries: CEntries, u: Token)
    requires Made(src, t) && b.TabN? && ReadTo(src, t, YVal(CInline(entries))) == Some(u)
    requires InsertAll(vt, b, AEntries(entries)).Some?
    ensures ParseTable(src, vt, t, b) == Ok(InsertAll(vt, b, AEntries(entries)).value, u)
    ensures t.kind == LBrace
    decreases entries, 2
  {
    ReadCons(src, t, Mark(LBrace), YEntries(entries));
    EntriesComplete(src, vt, Next(src, t, false).value, b, entries, u);
  }

  lemma {:induction false} ElemComplete(src: string, vt: ValType, t: Token, a: Node, v: CVal, u: Token)
    requires Made(src, t) && a.ArrN? && ReadTo(src, t, YVal(v)) == Some(u) && Made(src, u)
    requires PushOne(vt, a, AVal(v)).Some?
    ensures ParseElems(src, vt, t, a) == ParseElemsTail(src, vt, u, PushOne(vt, a, AVal(v)).value)
    decreases v, 0
  {
    hide ReadTo, ParseArray, ParseTable, ParseElemsTail;
    match v
    case CScalar(raw) =>
      ReadOne(src, t, Term(Str, raw, false));
    case CList(items) =>
      ListComplete(src, vt, t, items, u);
      assert Skipped(t) == SkipNewlines(src, t);
    case CInline(entries) =>
      InlineComplete(src, vt, t, NEW_TABLE, entries, u);
      assert Make(vt, None, AVal(v)) == InsertAll(vt, NEW_TABLE, AEntries(entries));
      assert Skipped(t) == SkipNewlines(src, t);
  }

  lemma {:induction false} ElemsComplete(src: string, vt: ValType, tok: Token, a: Node, c: CItems, end: Token)
    requires Made(src, tok) && a.ArrN? && ReadTo(src, tok, YItems(c)) == Some(end)
    requires PushAll(vt, a, AItems(c)).Some?
    ensures ParseElems(src, vt, tok, a) == Ok(PushAll(vt, a, AItems(c)).value, end)
    decreases c, 1
  {
    if c.NoItem? {
      assert Newlines(c.nl) + [Mark(RBracket)] == Newlines(c.nl) + ([Mark(RBracket)] + []);
      var t, u := SplitRead(src, tok, c.nl, [Mark(RBracket)], []);
      ReadOne(src, t, Mark(RBracket));
    } else {
      var zs := Newlines(c.nl2) + if c.LastItem? then [Mark(RBracket)] else [Mark(Comma)] + YItems(c.rest);
      ValStarts(c.val);
      var t, u := SplitRead(src, tok, c.nl, YVal(c.val), zs);
      SkipFirst(src, vt, tok, a, NEW_TABLE);
      PushCons(vt, a, AVal(c.val), if c.LastItem? then [] else AItems(c.rest));
      assert [AVal(c.val)] + [] == [AVal(c.val)];
      ElemComplete(src, vt, t, a, c.val, u);
      ElemsTailComplete(src, vt, u, PushOne(vt, a, AVal(c.val)).value, c, end);
    }
  }

  lemma {:induction false} ElemsTailComplete(src: string, vt: ValType, u: Token, b: Node, c: CItems, end: Token)
    requires Made(src, u) && b.ArrN? && !c.NoItem?
    requires ReadTo(src, u, Newlines(c.nl2) + if c.LastItem? then [Mark(RBracket)] else [Mark(Comma)] + YItems(c.rest))
             == Some(end)
    requires c.MoreItems? ==> PushAll(vt, b, AItems(c.rest)).Some?
    ensures ParseElemsTail(src, vt, u, b) == Ok(if c.LastItem? then b else PushAll(vt, b, AItems(c.rest)).value, end)
    decreases c, 0
  {
    if c.LastItem? {
      assert [Mark(RBracket)] + [] == [Mark(RBracket)];
      var w, x := SplitRead(src, u, c.nl2, [Mark(RBracket)], []);
      ReadOne(src, w, Mark(RBracket));
    } else {
      var w, x := SplitRead(src, u, c.nl2, [Mark(Comma)], YItems(c.rest));
      ReadOne(src, w, Mark(Comma));
      ElemsComplete(src, vt, x, b, c.rest, end);
    }
  }

  lemma {:induction false} EntriesComplete(src: string, vt: ValType, tok: Token, b: Node, c: CEntries, end: Token)
    requires Made(src, tok) && b.TabN? && ReadTo(src, tok, YEntries(c)) == Some(end)
    requires InsertAll(vt, b, AEntries(c)).Some?
    ensures ParseEntries(src, vt, tok, b) == Ok(InsertAll(vt, b, AEntries(c)).value, end)
    decreases c, 1
  {
    hide Next, NormalizeKey, ReadTo, ParseEntries, ParseKeyval, ParseEntriesTail, Insert;
    if c.NoEntry? {
      NoEntryComplete(src, vt, tok, b, c.nl, end);
    } else {
      EntriesRound(src, vt, tok, b);
      var zs := Newlines(c.nl2) + if c.LastEntry? then [Mark(RBrace)] else [Mark(Comma)] + YEntries(c.rest);
      var t, u := SplitRead(src, tok, c.nl, YEntry(c.entry), zs);
      SkipFirst(src, vt, tok, NEW_ARRAY, b);
      InsertCons(vt, b, AEntry(c.entry), if c.LastEntry? then [] else AEntries(c.rest));
      assert [AEntry(c.entry)] + [] == [AEntry(c.entry)];
      KeyvalComplete(src, vt, t, b, c.entry, u);
      EntriesTailComplete(src, vt, u, Insert(vt, b, AEntry(c.entry)).value, c, end);
    }
  }

  lemma NoEntryComplete(src: string, vt: ValType, tok: Token, b: Node, nl: nat, end: Token)
    requires Made(src, tok) && b.TabN? && ReadTo(src, tok, YEntries(NoEntry(nl))) == Some(end)
    ensures ParseEntries(src, vt, tok, b) == Ok(b, end) && InsertAll(vt, b, AEntries(NoEntry(nl))) == Some(b)
  {
    hide Next, NormalizeKey;
    assert Newlines(nl) + [Mark(RBrace)] == Newlines(nl) + ([Mark(RBrace)] + []);
    var t, u := SplitRead(src, tok, nl, [Mark(RBrace)], []);
    ReadOne(src, t, Mark(RBrace));
  }

  lemma InsertCons(vt: ValType, b: Node, e: Entry, es: seq<Entry>)
    requires b.TabN?
    ensures InsertAll(vt, b, [e] + es) == match Insert(vt, b, e) case None => None case Some(d) => InsertAll(vt, d, es)
  {
    assert ([e] + es)[1..] == es;
  }

  lemma {:induction false} EntriesTailComplete(src: string, vt: ValType, u: Token, d: Node, c: CEntries, end: Token)
    requires Made(src, u) && d.TabN? && !c.NoEntry?
    requires ReadTo(src, u, Newlines(c.nl2) + if c.LastEntry? then [Mark(RBrace)] else [Mark(Comma)] + YEntries(c.rest))
             == Some(end)
    requires c.MoreEntries? ==> InsertAll(vt, d, AEntries(c.rest)).Some?
    ensures ParseEntriesTail(src, vt, u, d) == Ok(if c.LastEntry? then d
            else InsertAll(vt, d, AEntries(c.rest)).value, end)
    decreases c, 0
  {
    if c.LastEntry? {
      assert [Mark(RBrace)] + [] == [Mark(RBrace)];
      var w, x := SplitRead(src, u, c.nl2, [Mark(RBrace)], []);
      ReadOne(src, w, Mark(RBrace));
    } else {
      var w, x := SplitRead(src, u, c.nl2, [Mark(Comma)], YEntries(c.rest));
      ReadOne(src, w, Mark(Comma));
      EntriesComplete(src, vt, x, d, c.rest, end);
    }
  }

  lemma {:induction false} KeyvalComplete(src: string, vt: ValType, tok: Token, b: Node, e: CEntry, end: Token)
    requires Made(src, tok) && b.TabN? && ReadTo(src, tok, YEntry(e)) == Some(end)
    requires Insert(vt, b, AEntry(e)).Some?
    ensures ParseKeyval(src, vt, tok, b) == Ok(Insert(vt, b, AEntry(e)).value, end)
    decreases e, 2
  {
    hide Next, ReadTo, NormalizeKey, ParseArray, ParseTable;
    ReadKey(src, tok, e.key, YVal(e.val));
    var t := ValueTok(src, tok).value;
    var was := Child(b, K(NormalizeKey(e.key).value));
    assert Make(vt, was, AVal(e.val)).Some?;
    match e.val
    case CScalar(raw) =>
      ReadOne(src, t, Term(Str, raw, false));
    case CList(items) =>
      ListComplete(src, vt, t, items, end);
    case CInline(entries) =>
      InlineComplete(src, vt, t, OpenedTable(was).value, entries, end);
  }

  /** The value parser is sound and complete: it succeeds on a table exactly when the tokens derive an
      entry of the grammar and the tree rules (keys, kinds and types) let the table take it; the table
      built is the one the rules give, and the cursor stops just past the entry. */
  lemma KeyvalGrammar(src: string, vt: ValType, tok: Token, b: Node, d: Node, end: Token)
    requires Made(src, tok) && b.TabN?
    ensures ParseKeyval(src, vt, tok, b) == Ok(d, end) <==>
            exists e :: ReadTo(src, tok, YEntry(e)) == Some(end) && Insert(vt, b, AEntry(e)) == Some(d)
  {
    if ParseKeyval(src, vt, tok, b) == Ok(d, end) {
      var e := KeyvalSound(src, vt, tok, b);
    }
    if e :| ReadTo(src, tok, YEntry(e)) == Some(end) && Insert(vt, b, AEntry(e)) == Some(d) {
      KeyvalComplete(src, vt, tok, b, e, end);
    }
  }
}
