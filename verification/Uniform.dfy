/** Arrays are homogeneous in every tree that a document builds (contrib/tomlc99/toml.c:822-919, 1130-1199): the
    tests that the parser makes element by element, and the way headers append tables, keep them so. */
module Uniform {
  import opened Text
  import opened Tree
  import opened Headers
  import opened Strings
  import opened Syntax
  import opened Parser
  import opened Grammar
  import opened Documents
  import Sections

  /** At every depth, an array has one kind: scalars of one type, the type it records, or arrays, or tables; and
      only an empty array has none. */
  predicate Uniform(vt: ValType, n: Node) {
    match n
    case Val(_) => true
    case TabN(_, kids) => forall k :: k in kids ==> Uniform(vt, kids[k])
    case ArrN(kind, typ, elems) =>
      && (kind == Unset <==> elems == [])
      && (kind != Values ==> typ == '\0')
      && forall i :: 0 <= i < |elems| ==> OfKind(vt, kind, typ, elems[i]) && Uniform(vt, elems[i])
  }

  predicate OfKind(vt: ValType, kind: ArrKind, typ: char, e: Node) {
    match e
    case Val(raw) => kind == Values && vt(raw) == typ
    case ArrN(_, _, _) => kind == Arrays
    case TabN(_, _) => kind == Tables
  }

  // ---- values ----

  lemma {:induction false} MakeUniform(vt: ValType, was: Option<Node>, v: Value)
    requires (was.Some? ==> Uniform(vt, was.value)) && Make(vt, was, v).Some?
    ensures Uniform(vt, Make(vt, was, v).value)
    decreases v, 1
  {
    match v
    case Scalar(_) =>
    case List(items) => ListUniform(vt, items);
    case Inline(entries) => InsertAllUniform(vt, OpenedTable(was).value, entries);
  }

  lemma {:induction false} ListUniform(vt: ValType, items: seq<Value>)
    requires Homogeneous(vt, items) && MakeAll(vt, items).Some?
    ensures Uniform(vt, ArrN(KindOf(items), TypOf(vt, items), MakeAll(vt, items).value))
    decreases items, 2
  {
    hide Uniform;
    var es := MakeAll(vt, items).value;
    forall i | 0 <= i < |es| ensures OfKind(vt, KindOf(items), TypOf(vt, items), es[i]) && Uniform(vt, es[i]) {
      MadeAt(vt, items, i);
      assert SameSort(vt, items[0], items[i]);
      MakeUniform(vt, None, items[i]);
    }
    ArrayUniform(vt, KindOf(items), TypOf(vt, items), es);
  }

  lemma ArrayUniform(vt: ValType, kind: ArrKind, typ: char, es: seq<Node>)
    requires (kind == Unset <==> es == []) && (kind != Values ==> typ == '\0')
    requires forall i :: 0 <= i < |es| ==> OfKind(vt, kind, typ, es[i]) && Uniform(vt, es[i])
    ensures Uniform(vt, ArrN(kind, typ, es))
  {
  }

  lemma {:induction false} MadeAt(vt: ValType, items: seq<Value>, i: nat)
    requires i < |items| && MakeAll(vt, items).Some?
    ensures Make(vt, None, items[i]) == Some(MakeAll(vt, items).value[i])
    decreases |items|
  {
    MakeAllCons(vt, items);
    if i > 0 { MadeAt(vt, items[1..], i - 1); }
  }

  /** A list makes an array exactly when every element makes a node and all of them are scalars of one type, or all
      lists, or all inline tables; and the array has these nodes in order. */
  lemma {:induction false} ArrayExactly(vt: ValType, items: seq<Value>)
    ensures Make(vt, None, List(items)).Some? <==>
            && (forall i :: 0 <= i < |items| ==> Make(vt, None, items[i]).Some?)
            && (|| (forall i :: 0 <= i < |items| ==>
                      items[i].Scalar? && items[0].Scalar? && vt(items[i].raw) == vt(items[0].raw))
                || (forall i :: 0 <= i < |items| ==> items[i].List?)
                || (forall i :: 0 <= i < |items| ==> items[i].Inline?))
    ensures Make(vt, None, List(items)).Some? ==>
              && |Make(vt, None, List(items)).value.elems| == |items|
              && forall i :: 0 <= i < |items| ==>
                   Make(vt, None, items[i]) == Some(Make(vt, None, List(items)).value.elems[i])
  {
    AllMade(vt, items);
    if MakeAll(vt, items).Some? {
      forall i | 0 <= i < |items| ensures Make(vt, None, items[i]) == Some(MakeAll(vt, items).value[i]) {
        MadeAt(vt, items, i);
      }
    }
  }

  lemma {:induction false} AllMade(vt: ValType, items: seq<Value>)
    ensures MakeAll(vt, items).Some? <==> forall i :: 0 <= i < |items| ==> Make(vt, None, items[i]).Some?
    decreases |items|
  {
    if items == [] {
    } else {
      MakeAllCons(vt, items);
      AllMade(vt, items[1..]);
      assert forall i :: 0 <= i < |items[1..]| ==> items[1..][i] == items[i + 1];
      if forall i :: 0 <= i < |items[1..]| ==> Make(vt, None, items[1..][i]).Some? {
        forall i | 1 <= i < |items| ensures Make(vt, None, items[i]).Some? { assert items[i] == items[1..][i - 1]; }
      }
    }
  }

  lemma {:induction false} InsertUniform(vt: ValType, t: Node, e: Entry)
    requires t.TabN? && Uniform(vt, t) && Insert(vt, t, e).Some?
    ensures Uniform(vt, Insert(vt, t, e).value)
    decreases e, 2
  {
    var k := NormalizeKey(e.key).value;
    MakeUniform(vt, Child(t, K(k)), e.val);
  }

  lemma {:induction false} InsertAllUniform(vt: ValType, t: Node, entries: seq<Entry>)
    requires t.TabN? && Uniform(vt, t) && InsertAll(vt, t, entries).Some?
    ensures Uniform(vt, InsertAll(vt, t, entries).value)
    decreases entries, 0
  {
    if entries == [] {
    } else {
      InsertUniform(vt, t, entries[0]);
      InsertAllUniform(vt, Insert(vt, t, entries[0]).value, entries[1..]);
    }
  }

  // ---- places ----

  lemma {:induction false} GetUniform(vt: ValType, n: Node, a: Addr)
    requires Uniform(vt, n) && Get(n, a).Some?
    ensures Uniform(vt, Get(n, a).value)
    decreases |a|
  {
    if a == [] {
    } else {
      GetUniform(vt, Child(n, a[0]).value, a[1..]);
    }
  }

  lemma {:induction false} PutUniform(vt: ValType, n: Node, a: Addr, m: Node)
    requires Uniform(vt, n) && Uniform(vt, m) && TableAt(n, a) && m.TabN?
    ensures Uniform(vt, Put(n, a, m)) && (n.TabN? <==> Put(n, a, m).TabN?) && (n.ArrN? <==> Put(n, a, m).ArrN?)
    decreases |a|
  {
    if a == [] {
    } else {
      var c := Child(n, a[0]).value;
      PutUniform(vt, c, a[1..], m);
      StepUniform(vt, n, a[0], Put(c, a[1..], m));
    }
  }

  /** A child replaced by one of its form. */
  lemma StepUniform(vt: ValType, n: Node, s: Step, c: Node)
    requires Uniform(vt, n) && Child(n, s).Some? && Uniform(vt, c) && !Child(n, s).value.Val? && !c.Val?
    requires c.TabN? <==> Child(n, s).value.TabN?
    ensures Uniform(vt, SetChild(n, s, c))
  {
  }

  lemma KidUniform(vt: ValType, d: Sel, k: string, c: Node)
    requires d.Valid() && Uniform(vt, d.root) && Uniform(vt, c)
    ensures Uniform(vt, Put(d.root, d.at, SetKid(d.Table(), k, c)))
  {
    GetUniform(vt, d.root, d.at);
    PutUniform(vt, d.root, d.at, SetKid(d.Table(), k, c));
  }

  // ---- headers ----

  lemma {:induction false} WalkUniform(vt: ValType, d: Sel, keys: seq<string>)
    requires d.Valid() && Uniform(vt, d.root) && Walk(d, keys).Some?
    ensures Uniform(vt, Walk(d, keys).value.root)
    decreases |keys|
  {
    if keys == [] {
    } else {
      KidUniform(vt, d, keys[0], IMPLICIT_TABLE);
      WalkStepValid(d, keys[0]);
      WalkUniform(vt, WalkStep(d, keys[0]).value, keys[1..]);
    }
  }

  lemma OpenUniform(vt: ValType, d: Sel, double: bool, k: string)
    requires d.Valid() && Uniform(vt, d.root) && Open(d, double, k).Some?
    ensures Uniform(vt, Open(d, double, k).value.root)
  {
    GetUniform(vt, d.root, d.at);
    var was := Child(d.Table(), K(k));
    var n := if double then OpenedArray(was).value else OpenedTable(was).value;
    OpenedUniform(vt, was, double);
    KidUniform(vt, d, k, n);
  }

  lemma OpenedUniform(vt: ValType, was: Option<Node>, double: bool)
    requires was.Some? ==> Uniform(vt, was.value)
    ensures double && OpenedArray(was).Some? ==> Uniform(vt, OpenedArray(was).value)
    ensures !double && OpenedTable(was).Some? ==> Uniform(vt, OpenedTable(was).value)
  {
  }

  // ---- documents ----

  lemma StmtUniform(vt: ValType, d: Sel, s: Stmt)
    requires d.Valid() && d.root.TabN? && Uniform(vt, d.root) && RunStmt(vt, d, s).Some?
    ensures Uniform(vt, RunStmt(vt, d, s).value.root)
  {
    hide Uniform, Insert, NormalizePath;
    match s
    case KeyVal(e) =>
      GetUniform(vt, d.root, d.at);
      InsertUniform(vt, d.Table(), e);
      PutUniform(vt, d.root, d.at, Insert(vt, d.Table(), e).value);
    case Header(double, path) =>
      var keys := NormalizePath(path).value;
      var n := |keys| - 1;
      WalkUniform(vt, Sel(d.root, []), keys[..n]);
      OpenUniform(vt, Walk(Sel(d.root, []), keys[..n]).value, double, keys[n]);
  }

  lemma {:induction false} RunUniform(vt: ValType, d: Sel, ss: seq<Stmt>)
    requires d.Valid() && d.root.TabN? && Uniform(vt, d.root) && Run(vt, d, ss).Some?
    ensures Uniform(vt, Run(vt, d, ss).value.root)
    decreases |ss|
  {
    hide Uniform, RunStmt;
    if ss == [] {
    } else {
      StmtUniform(vt, d, ss[0]);
      RunStmtValid(vt, d, ss[0]);
      RunUniform(vt, RunStmt(vt, d, ss[0]).value, ss[1..]);
    }
  }

  /** Every text that is parsed has a tree of homogeneous arrays. */
  lemma {:induction false} ParsedUniform(src: string, vt: ValType, root: Node)
    requires ParseDoc(src, vt) == Done(root)
    ensures Uniform(vt, root)
  {
    hide ParseDoc, Run, Derives;
    DocumentGrammar(src, vt, root);
    var cs :| Derives(src, cs) && Sections.RootOf(Run(vt, START_SEL, ADoc(cs))) == Some(root);
    RunUniform(vt, START_SEL, ADoc(cs));
  }
}
