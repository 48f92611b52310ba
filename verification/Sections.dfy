/** The order of sections (contrib/tomlc99/toml.c:587-669, 1043-1140). A section is one operation on the root
    table, so two sections may be swapped exactly as their operations may. */
module Sections {
  import opened Text
  import opened Tree
  import opened Headers
  import opened Syntax
  import opened Strings
  import opened Operations

  // ---- a section of a document is one operation on the root ----

  /** The operation of [keys] followed by the entries. */
  function SectionOp(keys: seq<string>, es: seq<Entry>): Op
    requires keys != []
  {
    if |keys| == 1 then Op(keys[0], MakeIt(Inline(es))) else Op(keys[0], Into(SectionOp(keys[1..], es)))
  }

  /** The section as the parser runs it from d: walk, open, then fill the table that is current. */
  function Filled(vt: ValType, f: Sel, es: seq<Entry>): Option<Node>
    requires f.Valid()
  {
    match InsertAll(vt, f.Table(), es) case None => None case Some(t) => Some(Put(f.root, f.at, t))
  }

  function Section(vt: ValType, d: Sel, keys: seq<string>, es: seq<Entry>): Option<Node>
    requires d.Valid() && keys != []
  {
    match Walk(d, keys[..|keys| - 1])
    case None => None
    case Some(e) =>
      match Open(e, false, keys[|keys| - 1])
      case None => None
      case Some(f) => OpenValid(e, false, keys[|keys| - 1]); Filled(vt, f, es)
  }

  /** A replacement below a child that has just been set is one replacement of the child. */
  lemma PutBelowKid(d: Sel, k: string, c: Node, m: Node)
    requires d.Valid()
    ensures var r := Put(d.root, d.at, SetKid(d.Table(), k, c));
            && Get(r, d.at + [K(k)]) == Some(c)
            && Put(r, d.at + [K(k)], m) == Put(d.root, d.at, SetKid(d.Table(), k, m))
  {
    var t := SetKid(d.Table(), k, c);
    var r := Put(d.root, d.at, t);
    GetOpened(d, k, c);
    GetPut(d.root, d.at, t);
    assert Get(t, [K(k)]) == Some(c);
    PutAppend(r, d.at, [K(k)], m);
    assert Put(t, [K(k)], m) == SetKid(t, k, m);
    assert d.Table().kids[k := c][k := m] == d.Table().kids[k := m];
    PutPut(d.root, d.at, t, SetKid(t, k, m));
  }

  lemma PutKid(d: Sel, k: string, m: Node)
    requires d.Valid() && k in d.Table().kids
    ensures Get(d.root, d.at + [K(k)]).Some?
    ensures Put(d.root, d.at + [K(k)], m) == Put(d.root, d.at, SetKid(d.Table(), k, m))
  {
    assert Get(d.Table(), [K(k)]) == Some(d.Table().kids[k]);
    PutAppend(d.root, d.at, [K(k)], m);
    assert Put(d.Table(), [K(k)], m) == SetKid(d.Table(), k, m);
  }

  lemma PutElement(d: Sel, k: string, m: Node)
    requires d.Valid() && k in d.Table().kids && Crossable(d.Table().kids[k])
    ensures var c := d.Table().kids[k];
            && Get(d.root, d.at + [K(k), Last(c)]) == Child(c, Last(c))
            && Put(d.root, d.at + [K(k), Last(c)], m) ==
                Put(d.root, d.at, SetKid(d.Table(), k, SetChild(c, Last(c), m)))
  {
    var c := d.Table().kids[k];
    var b := [K(k), Last(c)];
    assert b[1..] == [Last(c)];
    assert Get(c, [Last(c)]) == Child(c, Last(c));
    GetAppend(d.root, d.at, b);
    PutAppend(d.root, d.at, b, m);
    assert Put(c, [Last(c)], m) == SetChild(c, Last(c), m);
  }

  lemma SectionOfOneKey(vt: ValType, d: Sel, k: string, es: seq<Entry>)
    requires d.Valid()
    ensures Section(vt, d, [k], es) ==
            match Do(vt, d.Table(), Op(k, MakeIt(Inline(es)))) case None => None
                case Some(t) => Some(Put(d.root, d.at, t))
  {
    var c := OpenedTable(Child(d.Table(), K(k)));
    if c.Some? {
      GetOpened(d, k, c.value);
      match InsertAll(vt, c.value, es)
      case None =>
      case Some(m) => PutBelowKid(d, k, c.value, m);
    }
  }

  lemma SectionStep(vt: ValType, d: Sel, keys: seq<string>, es: seq<Entry>)
    requires d.Valid() && |keys| > 1
    ensures match WalkStep(d, keys[0])
            case None => Section(vt, d, keys, es) == None
            case Some(e) => e.Valid() && Section(vt, d, keys, es) == Section(vt, e, keys[1..], es)
  {
    var n := |keys| - 1;
    assert keys[..n][0] == keys[0] && keys[..n][1..] == keys[1..][..n - 1];
    if WalkStep(d, keys[0]).Some? { WalkStepValid(d, keys[0]); }
  }

  /** The parser's run of a section is the operation on the table it starts from. */
  lemma {:induction false} SectionIsOp(vt: ValType, d: Sel, keys: seq<string>, es: seq<Entry>)
    requires d.Valid() && keys != []
    ensures Section(vt, d, keys, es) ==
            match Do(vt, d.Table(), SectionOp(keys, es)) case None => None case Some(t) => Some(Put(d.root, d.at, t))
    decreases |keys|
  {
    if |keys| == 1 {
      assert keys == [keys[0]];
      SectionOfOneKey(vt, d, keys[0], es);
    } else {
      SectionStep(vt, d, keys, es);
      if WalkStep(d, keys[0]).Some? {
        SectionIsOp(vt, WalkStep(d, keys[0]).value, keys[1..], es);
        IntoIsStep(vt, d, keys[0], SectionOp(keys[1..], es));
      }
    }
  }

  lemma IntoIsStep(vt: ValType, d: Sel, k: string, op: Op)
    requires d.Valid() && WalkStep(d, k).Some? && WalkStep(d, k).value.Valid()
    ensures var e := WalkStep(d, k).value;
            (match Do(vt, e.Table(), op) case None => None case Some(t) => Some(Put(e.root, e.at, t))) ==
            (match Do(vt, d.Table(), Op(k, Into(op))) case None => None case Some(t) => Some(Put(d.root, d.at, t)))
  {
    var e := WalkStep(d, k).value;
    var t := d.Table();
    if k !in t.kids {
      PutBelowKid(d, k, IMPLICIT_TABLE, IMPLICIT_TABLE);
      if Do(vt, IMPLICIT_TABLE, op).Some? { PutBelowKid(d, k, IMPLICIT_TABLE, Do(vt, IMPLICIT_TABLE, op).value); }
    } else if t.kids[k].TabN? {
      ChildObs(d, k);
      if Do(vt, t.kids[k], op).Some? { PutKid(d, k, Do(vt, t.kids[k], op).value); }
    } else {
      var last := t.kids[k].elems[|t.kids[k].elems| - 1];
      PutElement(d, k, last);
      if Do(vt, last, op).Some? { PutElement(d, k, Do(vt, last, op).value); }
    }
  }

  // ---- sections of a document ----

  function KeyVals(es: seq<Entry>): seq<Stmt> {
    if es == [] then [] else [KeyVal(es[0])] + KeyVals(es[1..])
  }

  /** The statements of a section [path] with the given entries. */
  function SectionStmts(path: seq<string>, es: seq<Entry>): seq<Stmt> {
    [Header(false, path)] + KeyVals(es)
  }

  lemma {:induction false} RunKeyVals(vt: ValType, f: Sel, es: seq<Entry>)
    requires f.Valid() && f.root.TabN?
    ensures Run(vt, f, KeyVals(es)) ==
            match Filled(vt, f, es) case None => None case Some(r) => Some(Sel(r, f.at))
    decreases |es|
  {
    if es == [] {
      PutSame(f.root, f.at);
    } else {
      assert KeyVals(es)[1..] == KeyVals(es[1..]);
      match Insert(vt, f.Table(), es[0])
      case None =>
      case Some(t) =>
        var g := Sel(Put(f.root, f.at, t), f.at);
        RunStmtValid(vt, f, KeyVal(es[0]));
        GetPut(f.root, f.at, t);
        RunKeyVals(vt, g, es[1..]);
        if InsertAll(vt, t, es[1..]).Some? { PutPut(f.root, f.at, t, InsertAll(vt, t, es[1..]).value); }
    }
  }

  /** A path that parse_select can look up at all. */
  predicate GoodPath(path: seq<string>) {
    path != [] && |path| <= MAX_DEPTH && NormalizePath(path).Some?
  }

  function RootOf(s: Option<Sel>): Option<Node> {
    match s case None => None case Some(d) => Some(d.root)
  }

  /** Wherever it is run from, a section acts on the root alone. */
  lemma RunSection(vt: ValType, d: Sel, path: seq<string>, es: seq<Entry>)
    requires d.Valid() && d.root.TabN?
    ensures RootOf(Run(vt, d, SectionStmts(path, es))) ==
            if GoodPath(path) then Do(vt, d.root, SectionOp(NormalizePath(path).value, es)) else None
  {
    assert SectionStmts(path, es)[1..] == KeyVals(es);
    if GoodPath(path) {
      var keys := NormalizePath(path).value;
      var start := Sel(d.root, []);
      SectionIsOp(vt, start, keys, es);
      if Select(d.root, false, keys).Some? {
        SelectValid(d.root, false, keys);
        SelectRoot(d.root, false, keys);
        RunKeyVals(vt, Select(d.root, false, keys).value, es);
      }
    }
  }

  lemma TwoSections(vt: ValType, d: Sel, p1: seq<string>, es1: seq<Entry>, p2: seq<string>, es2: seq<Entry>)
    requires d.Valid() && d.root.TabN? && GoodPath(p1) && GoodPath(p2)
    ensures RootOf(Run(vt, d, SectionStmts(p1, es1) + SectionStmts(p2, es2))) ==
            Then(vt, Do(vt, d.root, SectionOp(NormalizePath(p1).value, es1)), SectionOp(NormalizePath(p2).value, es2))
  {
    RunAppend(vt, d, SectionStmts(p1, es1), SectionStmts(p2, es2));
    RunSection(vt, d, p1, es1);
    match Run(vt, d, SectionStmts(p1, es1))
    case None =>
    case Some(e) => RunSection(vt, e, p2, es2);
  }

  /** Running a document part that is empty or starts with a header depends on the root alone. */
  lemma HeaderForgetsPlace(vt: ValType, d: Sel, e: Sel, post: seq<Stmt>)
    requires d.Valid() && e.Valid() && d.root == e.root && d.root.TabN?
    requires post == [] || post[0].Header?
    ensures RootOf(Run(vt, d, post)) == RootOf(Run(vt, e, post))
  {
  }

  /** A section, as a document writes it. */
  datatype Sec = Sec(path: seq<string>, entries: seq<Entry>)

  function Stmts(x: Sec): seq<Stmt> {
    SectionStmts(x.path, x.entries)
  }

  function OpOf(x: Sec): Op
    requires GoodPath(x.path)
  {
    SectionOp(NormalizePath(x.path).value, x.entries)
  }

  /** The path of x enters an array of tables that y makes: then y cannot come after x. */
  predicate BlocksSec(x: Sec, y: Sec) {
    GoodPath(x.path) && GoodPath(y.path) && Blocks(OpOf(x), OpOf(y))
  }

  /** Two adjacent single-bracket sections may be swapped, from any state of the parser and in any document,
      exactly when neither enters an array of tables that the other makes, or when both orders are refused:
      then both documents build the same tree, implicit flags included, or none. */
  lemma {:induction false} SectionOrder(vt: ValType, d: Sel, x: Sec, y: Sec, post: seq<Stmt>)
    requires d.Valid() && d.root.TabN?
    requires post == [] || post[0].Header?
    ensures var r, q := RootOf(Run(vt, d, Stmts(x) + Stmts(y) + post)), RootOf(Run(vt, d, Stmts(y) + Stmts(x) + post));
            r == q <==> !(BlocksSec(x, y) || BlocksSec(y, x)) || (r == None && q == None)
  {
    hide Run, SectionStmts, Do, Blocks, SectionOp;
    RunAppend(vt, d, Stmts(x) + Stmts(y), post);
    RunAppend(vt, d, Stmts(y) + Stmts(x), post);
    if GoodPath(x.path) && GoodPath(y.path) {
      TwoSections(vt, d, x.path, x.entries, y.path, y.entries);
      TwoSections(vt, d, y.path, y.entries, x.path, x.entries);
      SwapExactly(vt, d.root, OpOf(x), OpOf(y));
      if Blocks(OpOf(x), OpOf(y)) { BlocksFails(vt, d.root, OpOf(x), OpOf(y)); }
      if Blocks(OpOf(y), OpOf(x)) { BlocksFails(vt, d.root, OpOf(y), OpOf(x)); }
    } else {
      BadSection(vt, d, x.path, x.entries, y.path, y.entries);
      BadSection(vt, d, y.path, y.entries, x.path, x.entries);
    }
    var r, q := Run(vt, d, Stmts(x) + Stmts(y)), Run(vt, d, Stmts(y) + Stmts(x));
    if r.Some? && q.Some? { HeaderForgetsPlace(vt, r.value, q.value, post); }
  }

  lemma BadSection(vt: ValType, d: Sel, p1: seq<string>, es1: seq<Entry>, p2: seq<string>, es2: seq<Entry>)
    requires d.Valid() && d.root.TabN? && !(GoodPath(p1) && GoodPath(p2))
    ensures Run(vt, d, SectionStmts(p1, es1) + SectionStmts(p2, es2)) == None
  {
    RunAppend(vt, d, SectionStmts(p1, es1), SectionStmts(p2, es2));
    RunSection(vt, d, p1, es1);
    match Run(vt, d, SectionStmts(p1, es1))
    case None =>
    case Some(e) => RunSection(vt, e, p2, es2);
  }

  /** A pair that is accepted in one order only: the path of the second section enters the array of tables
      that the first one makes. */
  lemma TableArraysDoNotCommute(vt: ValType)
    ensures var s1 := SectionStmts(["a"], [Entry("b", List([Inline([])]))]);
            var s2 := SectionStmts(["a", "b", "c"], []);
            Run(vt, START_SEL, s1 + s2).Some? && Run(vt, START_SEL, s2 + s1).None?
  {
    var es := [Entry("b", List([Inline([])]))];
    GoodPaths();
    TwoSections(vt, START_SEL, ["a"], es, ["a", "b", "c"], []);
    TwoSections(vt, START_SEL, ["a", "b", "c"], [], ["a"], es);
    var inB := Op("b", Into(IN_C));
    assert SectionOp(["a"], es) == Op("a", MakeIt(Inline(es)));
    SectionOpOfThree();
    assert Do(vt, NEW_TABLE, SectionOp(["a"], es)) == Some(SetKid(NEW_TABLE, "a", A_TABLE))
        by { OneTableArray(vt, es); }
    assert Child(SetKid(NEW_TABLE, "a", A_TABLE), K("a")) == Some(A_TABLE);
    IntoTableArray(vt);
    if Do(vt, NEW_TABLE, Op("a", Into(inB))).Some? {
      var t := Do(vt, IMPLICIT_TABLE, inB).value;
      assert Child(SetKid(NEW_TABLE, "a", t), K("a")) == Some(t);
      BTaken(vt, es, t.(implicit := false));
    }
  }

  const IN_C := Op("c", MakeIt(Inline([])))
  const TABLE_ARRAY := ArrN(Tables, '\0', [NEW_TABLE])
  const A_TABLE := SetKid(NEW_TABLE, "b", TABLE_ARRAY)

  lemma LongerPath(k: string, ks: seq<string>)
    requires NormalizeKey(k) == Some(k) && NormalizePath(ks) == Some(ks)
    ensures NormalizePath([k] + ks) == Some([k] + ks)
  {
    assert ([k] + ks)[1..] == ks;
  }

  lemma GoodPaths()
    ensures NormalizePath(["a"]) == Some(["a"]) && NormalizePath(["a", "b", "c"]) == Some(["a", "b", "c"])
  {
    assert NormalizeKey("a") == Some("a") && NormalizeKey("b") == Some("b") && NormalizeKey("c") == Some("c");
    assert ["a"] + [] == ["a"] && ["c"] + [] == ["c"];
    assert ["b"] + ["c"] == ["b", "c"] && ["a"] + ["b", "c"] == ["a", "b", "c"];
    LongerPath("a", []);
    LongerPath("c", []);
    LongerPath("b", ["c"]);
    LongerPath("a", ["b", "c"]);
  }

  lemma SectionOpOfThree()
    ensures SectionOp(["a", "b", "c"], []) == Op("a", Into(Op("b", Into(IN_C))))
  {
    assert ["a", "b", "c"][1..] == ["b", "c"] && ["b", "c"][1..] == ["c"];
    assert SectionOp(["c"], []) == IN_C;
    assert SectionOp(["b", "c"], []) == Op("b", Into(IN_C));
  }

  lemma OneTableArray(vt: ValType, es: seq<Entry>)
    requires es == [Entry("b", List([Inline([])]))]
    ensures InsertAll(vt, NEW_TABLE, es) == Some(A_TABLE)
  {
    var items := [Inline([])];
    assert NormalizeKey("b") == Some("b");
    assert items[1..] == [] && es[1..] == [];
    assert MakeAll(vt, items[1..]) == Some([]);
    assert MakeAll(vt, items) == Some([NEW_TABLE] + []);
    assert [NEW_TABLE] + [] == [NEW_TABLE];
  }

  lemma BTaken(vt: ValType, es: seq<Entry>, t: Node)
    requires es == [Entry("b", List([Inline([])]))] && t.TabN? && "b" in t.kids
    ensures InsertAll(vt, t, es) == None
  {
    assert NormalizeKey("b") == Some("b");
  }

  lemma IntoTableArray(vt: ValType)
    ensures Do(vt, NEW_TABLE, IN_C).Some? && Do(vt, IMPLICIT_TABLE, IN_C).Some?
    ensures Do(vt, A_TABLE, Op("b", Into(IN_C))).Some?
    ensures Do(vt, IMPLICIT_TABLE, Op("b", Into(IN_C))).Some?
    ensures "b" in Do(vt, IMPLICIT_TABLE, Op("b", Into(IN_C))).value.kids
  {
    assert Crossable(TABLE_ARRAY);
  }
}
