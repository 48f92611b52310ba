/** Abstract syntax of a document and what it builds. The raw texts of keys and scalars are kept;
    vt is valtype (contrib/tomlc99/toml.c:805-818), which decides when two scalars may share an array. */
module Syntax {
  import opened Text
  import opened Tree
  import opened Headers
  import opened Strings

  datatype Value = Scalar(raw: string) | List(items: seq<Value>) | Inline(entries: seq<Entry>)

  datatype Entry = Entry(key: string, val: Value)

  datatype Stmt = KeyVal(entry: Entry) | Header(double: bool, path: seq<string>)

  type ValType = string -> char

  // ---- arrays ----

  /** Two values that may stand in one array. */
  predicate SameSort(vt: ValType, v: Value, w: Value) {
    match v
    case Scalar(r) => w.Scalar? && vt(r) == vt(w.raw)
    case List(_) => w.List?
    case Inline(_) => w.Inline?
  }

  predicate Homogeneous(vt: ValType, items: seq<Value>) {
    forall i :: 0 <= i < |items| ==> SameSort(vt, items[0], items[i])
  }

  function KindOf(items: seq<Value>): ArrKind {
    if items == [] then Unset
    else match items[0] case Scalar(_) => Values case List(_) => Arrays case Inline(_) => Tables
  }

  function TypOf(vt: ValType, items: seq<Value>): char {
    if items != [] && items[0].Scalar? then vt(items[0].raw) else '\0'
  }

  // ---- what a value builds ----

  /** The node that a value makes of the child that was there before: a scalar or an array needs a free
      key; an inline table may also fill in a table that only headers below it have created so far. */
  function Make(vt: ValType, was: Option<Node>, v: Value): (r: Option<Node>)
    ensures r.Some? && v.Inline? ==> r.value.TabN? && !r.value.implicit
    ensures r.Some? && v.List? ==> r.value.ArrN? && r.value.kind == KindOf(v.items)
    ensures r.Some? && v.Scalar? ==> r.value == Val(v.raw)
    decreases v, 1
  {
    match v
    case Scalar(raw) => if was.None? then Some(Val(raw)) else None
    case List(items) =>
      if was.Some? || !Homogeneous(vt, items) then None
      else
        (match MakeAll(vt, items)
         case None => None
         case Some(es) => Some(ArrN(KindOf(items), TypOf(vt, items), es)))
    case Inline(entries) =>
      match OpenedTable(was)
      case None => None
      case Some(t) => InsertAll(vt, t, entries)
  }

  /** The elements of an array. */
  function MakeAll(vt: ValType, items: seq<Value>): (r: Option<seq<Node>>)
    ensures r.Some? ==> |r.value| == |items|
    decreases items, 0
  {
    if items == [] then Some([])
    else
      match Make(vt, None, items[0])
      case None => None
      case Some(n) =>
        match MakeAll(vt, items[1..]) case None => None case Some(ns) => Some([n] + ns)
  }

  /** The table t with one more entry. */
  function Insert(vt: ValType, t: Node, e: Entry): (r: Option<Node>)
    requires t.TabN?
    ensures r.Some? ==> r.value.TabN? && r.value.implicit == t.implicit
    decreases e, 2
  {
    match NormalizeKey(e.key)
    case None => None
    case Some(k) =>
      match Make(vt, Child(t, K(k)), e.val)
      case None => None
      case Some(n) => Some(SetKid(t, k, n))
  }

  function InsertAll(vt: ValType, t: Node, entries: seq<Entry>): (r: Option<Node>)
    requires t.TabN?
    ensures r.Some? ==> r.value.TabN? && r.value.implicit == t.implicit
    decreases entries, 0
  {
    if entries == [] then Some(t)
    else
      match Insert(vt, t, entries[0])
      case None => None
      case Some(u) => InsertAll(vt, u, entries[1..])
  }

  // ---- what a document builds ----

  const MAX_DEPTH := 10

  function NormalizePath(path: seq<string>): (r: Option<seq<string>>)
    ensures r.Some? ==> |r.value| == |path|
  {
    if path == [] then Some([])
    else
      match NormalizeKey(path[0])
      case None => None
      case Some(k) =>
        match NormalizePath(path[1..]) case None => None case Some(ks) => Some([k] + ks)
  }

  function RunStmt(vt: ValType, d: Sel, s: Stmt): (r: Option<Sel>)
    requires d.Valid() && d.root.TabN?
  {
    match s
    case KeyVal(e) =>
      (match Insert(vt, d.Table(), e)
       case None => None
       case Some(t) => Some(Sel(Put(d.root, d.at, t), d.at)))
    case Header(double, path) =>
      if path == [] || |path| > MAX_DEPTH then None
      else
        match NormalizePath(path)
        case None => None
        case Some(keys) => Select(d.root, double, keys)
  }

  lemma RunStmtValid(vt: ValType, d: Sel, s: Stmt)
    requires d.Valid() && d.root.TabN? && RunStmt(vt, d, s).Some?
    ensures RunStmt(vt, d, s).value.Valid() && RunStmt(vt, d, s).value.root.TabN?
  {
    match s
    case KeyVal(e) =>
      GetPut(d.root, d.at, Insert(vt, d.Table(), e).value);
    case Header(double, path) =>
      var keys := NormalizePath(path).value;
      SelectValid(d.root, double, keys);
      SelectRoot(d.root, double, keys);
  }

  lemma SelectRoot(root: Node, double: bool, keys: seq<string>)
    requires root.TabN? && keys != [] && Select(root, double, keys).Some?
    ensures Select(root, double, keys).value.root.TabN?
  {
    var s, target := Select(root, double, keys).value, Target(root, keys);
    assert Obs(root, []).Some? && Obs(root, []).value.ITab?;
    if double {
      DoubleHeaderSelects(root, keys);
      assert Obs(s.root, []) == AfterDouble(root, target, []);
      assert target + [I(LenAt(root, target))] != [];
    } else {
      SingleHeaderSelects(root, keys);
      assert Obs(s.root, []).Some? && Obs(s.root, []).value.ITab?;
    }
  }

  /** The statements of a document, one after the other. */
  function Run(vt: ValType, d: Sel, ss: seq<Stmt>): (r: Option<Sel>)
    requires d.Valid() && d.root.TabN?
    ensures r.Some? ==> r.value.Valid() && r.value.root.TabN?
    decreases |ss|
  {
    if ss == [] then Some(d)
    else
      match RunStmt(vt, d, ss[0])
      case None => None
      case Some(e) => RunStmtValid(vt, d, ss[0]); Run(vt, e, ss[1..])
  }

  const START_SEL := Sel(NEW_TABLE, [])

  lemma {:induction false} RunAppend(vt: ValType, d: Sel, ss: seq<Stmt>, more: seq<Stmt>)
    requires d.Valid() && d.root.TabN?
    ensures Run(vt, d, ss + more) == match Run(vt, d, ss) case None => None case Some(e) => Run(vt, e, more)
    decreases |ss|
  {
    if ss == [] {
      assert ss + more == more;
    } else {
      assert (ss + more)[1..] == ss[1..] + more;
      if RunStmt(vt, d, ss[0]).Some? {
        RunStmtValid(vt, d, ss[0]);
        RunAppend(vt, RunStmt(vt, d, ss[0]).value, ss[1..], more);
      }
    }
  }
}
