/** A run only extends the tree: nothing seen at an address goes away or changes, except that an
    implicit table may become explicit, an empty array may get its kind, and arrays may get longer. */
module Extension {
  import opened Text
  import opened Tree
  import opened Headers
  import opened Syntax
  import opened Strings

  predicate Grows(i: Info, j: Info) {
    match i
    case IVal(_) => i == j
    case IArr(kind, typ, len) =>
      j.IArr? && (j.kind == kind || kind == Unset) && j.typ == typ && len <= j.len
    case ITab(implicit) => j.ITab? && (j.implicit ==> implicit)
  }

  predicate GrowsFrom(o: Option<Info>, p: Option<Info>) {
    o.Some? ==> p.Some? && Grows(o.value, p.value)
  }

  ghost predicate Extends(n: Node, m: Node) {
    forall a :: GrowsFrom(Obs(n, a), Obs(m, a))
  }

  lemma ExtendsTrans(l: Node, m: Node, n: Node)
    requires Extends(l, m) && Extends(m, n)
    ensures Extends(l, n)
  {
    forall a ensures GrowsFrom(Obs(l, a), Obs(n, a)) {
      assert GrowsFrom(Obs(l, a), Obs(m, a)) && GrowsFrom(Obs(m, a), Obs(n, a));
    }
  }

  lemma ExtendsPut(n: Node, a: Addr, m: Node)
    requires Get(n, a).Some? && Extends(Get(n, a).value, m)
    ensures Extends(n, Put(n, a, m))
  {
    forall b ensures GrowsFrom(Obs(n, b), Obs(Put(n, a, m), b)) {
      ObsPut(n, a, m, b);
      if a <= b {
        var r := b[|a|..];
        assert b == a + r;
        GetAppend(n, a, r);
        assert GrowsFrom(Obs(Get(n, a).value, r), Obs(m, r));
      }
    }
  }

  lemma ExtendsSetKid(t: Node, k: string, c: Node)
    requires t.TabN? && (k in t.kids ==> Extends(t.kids[k], c))
    ensures Extends(t, SetKid(t, k, c))
  {
    forall b ensures GrowsFrom(Obs(t, b), Obs(SetKid(t, k, c), b)) {
      if b != [] && b[0] == K(k) && k in t.kids {
        assert GrowsFrom(Obs(t.kids[k], b[1..]), Obs(c, b[1..]));
      }
    }
  }

  lemma MadeExplicit(t: Node)
    requires t.TabN?
    ensures Extends(t, t.(implicit := false))
  {
    forall b ensures GrowsFrom(Obs(t, b), Obs(t.(implicit := false), b)) {
      if b != [] { assert Child(t, b[0]) == Child(t.(implicit := false), b[0]); }
    }
  }

  lemma {:induction false} MakeExtends(vt: ValType, n: Node, v: Value)
    requires Make(vt, Some(n), v).Some?
    ensures Extends(n, Make(vt, Some(n), v).value)
    decreases v, 1
  {
    match v
    case Scalar(_) => assert false;
    case List(_) => assert false;
    case Inline(entries) =>
      MadeExplicit(n);
      InsertAllExtends(vt, OpenedTable(Some(n)).value, entries);
      ExtendsTrans(n, OpenedTable(Some(n)).value, Make(vt, Some(n), v).value);
  }

  /** An entry extends the table it goes into. */
  lemma {:induction false} InsertExtends(vt: ValType, t: Node, e: Entry)
    requires t.TabN? && Insert(vt, t, e).Some?
    ensures Extends(t, Insert(vt, t, e).value)
    decreases e, 2
  {
    var k := NormalizeKey(e.key).value;
    if k in t.kids { MakeExtends(vt, t.kids[k], e.val); }
    ExtendsSetKid(t, k, Make(vt, Child(t, K(k)), e.val).value);
  }

  lemma {:induction false} InsertAllExtends(vt: ValType, t: Node, entries: seq<Entry>)
    requires t.TabN? && InsertAll(vt, t, entries).Some?
    ensures Extends(t, InsertAll(vt, t, entries).value)
    decreases entries, 0
  {
    if entries == [] {
    } else {
      var u := Insert(vt, t, entries[0]).value;
      InsertExtends(vt, t, entries[0]);
      InsertAllExtends(vt, u, entries[1..]);
      ExtendsTrans(t, u, InsertAll(vt, u, entries[1..]).value);
    }
  }

  /** So does a header. */
  lemma SelectExtends(root: Node, double: bool, keys: seq<string>)
    requires root.TabN? && keys != [] && Select(root, double, keys).Some?
    ensures Extends(root, Select(root, double, keys).value.root)
  {
    var s, target := Select(root, double, keys).value, Target(root, keys);
    HeaderAcceptedIff(root, double, keys);
    if double { DoubleHeaderSelects(root, keys); } else { SingleHeaderSelects(root, keys); }
    forall b ensures GrowsFrom(Obs(root, b), Obs(s.root, b)) {
      if double {
        assert Obs(s.root, b) == AfterDouble(root, target, b);
        if b == s.at { PastTheEnd(root, target); }
      }
    }
  }

  lemma PastTheEnd(n: Node, a: Addr)
    requires Openable(Obs(n, a), true)
    ensures Obs(n, a + [I(LenAt(n, a))]).None?
  {
    if Obs(n, a).None? {
      BelowMissing(n, a, a + [I(LenAt(n, a))]);
    } else {
      GetAppend(n, a, [I(LenAt(n, a))]);
      assert Get(Get(n, a).value, [I(LenAt(n, a))]) == Child(Get(n, a).value, I(LenAt(n, a)));
    }
  }

  lemma RunStmtExtends(vt: ValType, d: Sel, s: Stmt)
    requires d.Valid() && d.root.TabN? && RunStmt(vt, d, s).Some?
    ensures Extends(d.root, RunStmt(vt, d, s).value.root)
  {
    match s
    case KeyVal(e) =>
      InsertExtends(vt, d.Table(), e);
      ExtendsPut(d.root, d.at, Insert(vt, d.Table(), e).value);
    case Header(double, path) =>
      SelectExtends(d.root, double, NormalizePath(path).value);
  }

  /** A whole run only extends the tree. */
  lemma {:induction false} RunExtends(vt: ValType, d: Sel, ss: seq<Stmt>)
    requires d.Valid() && d.root.TabN? && Run(vt, d, ss).Some?
    ensures Extends(d.root, Run(vt, d, ss).value.root)
    decreases |ss|
  {
    if ss == [] {
      forall a ensures GrowsFrom(Obs(d.root, a), Obs(d.root, a)) {
        assert Obs(d.root, a).Some? ==> Grows(Obs(d.root, a).value, Obs(d.root, a).value);
      }
    } else {
      var e := RunStmt(vt, d, ss[0]).value;
      RunStmtExtends(vt, d, ss[0]);
      RunStmtValid(vt, d, ss[0]);
      RunExtends(vt, e, ss[1..]);
      ExtendsTrans(d.root, e.root, Run(vt, e, ss[1..]).value.root);
    }
  }

  // ---- a table is opened at most once ----

  /** The address of a path that crosses no array. */
  function KeysOnly(keys: seq<string>): Addr {
    if keys == [] then [] else [K(keys[0])] + KeysOnly(keys[1..])
  }

  lemma {:induction false} KeysOnlyAppend(keys: seq<string>, k: string)
    ensures KeysOnly(keys + [k]) == KeysOnly(keys) + [K(k)]
  {
    if keys == [] {
    } else {
      assert (keys + [k])[1..] == keys[1..] + [k];
      KeysOnlyAppend(keys[1..], k);
    }
  }

  /** Where tables stand all along a path, the path leads along its own keys. */
  lemma {:induction false} PathThroughTables(n: Node, keys: seq<string>)
    requires TableAt(n, KeysOnly(keys))
    ensures PathOf(Some(n), keys) == KeysOnly(keys)
  {
    if keys == [] {
    } else {
      PathThroughTables(Child(n, K(keys[0])).value, keys[1..]);
    }
  }

  lemma ParentIsTable(n: Node, keys: seq<string>, k: string)
    requires TableAt(n, KeysOnly(keys + [k]))
    ensures TableAt(n, KeysOnly(keys))
  {
    KeysOnlyAppend(keys, k);
    PrefixExists(n, KeysOnly(keys + [k]), KeysOnly(keys));
    GetAppend(n, KeysOnly(keys), [K(k)]);
    assert Get(Get(n, KeysOnly(keys)).value, [K(k)]) != None;
  }

  /** Once [p] has selected a table without crossing an array, no later [p] is accepted: the flag goes
      from implicit to explicit at most once. */
  lemma OpenedAtMostOnce(vt: ValType, root: Node, keys: seq<string>, ss: seq<Stmt>)
    requires root.TabN? && keys != [] && Select(root, false, keys).Some?
    requires Target(root, keys) == KeysOnly(keys)
    ensures var d := Select(root, false, keys).value;
            d.Valid() && d.root.TabN? && (Run(vt, d, ss).Some? ==> Select(Run(vt, d, ss).value.root, false, keys).None?)
  {
    var d := Select(root, false, keys).value;
    SelectValid(root, false, keys);
    SelectRoot(root, false, keys);
    SingleHeaderSelects(root, keys);
    if Run(vt, d, ss).Some? {
      var m := Run(vt, d, ss).value.root;
      RunExtends(vt, d, ss);
      assert GrowsFrom(Obs(d.root, d.at), Obs(m, d.at));
      assert Obs(m, d.at) == Some(ITab(false));
      var n := |keys| - 1;
      assert keys == keys[..n] + [keys[n]];
      ParentIsTable(m, keys[..n], keys[n]);
      PathThroughTables(m, keys[..n]);
      KeysOnlyAppend(keys[..n], keys[n]);
      HeaderAcceptedIff(m, false, keys);
    }
  }
}
