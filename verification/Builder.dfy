/** The tree under construction as objects, and the parser that builds it in place
    (contrib/tomlc99/toml.c:227-311, 545-1276). The ghost store numbers the objects in the order of their
    creation; every method is proved against the pure parser on the tree the store stands for. */
module Builder {
  import opened Text
  import opened Lexer
  import opened Tree
  import opened Headers
  import opened Syntax
  import opened Strings
  import opened Store
  import opened Growth
  import opened Steps
  import opened Places
  import P = Parser
  import Scanner
  import Reachable

  /** toml_table_t */
  class Table {
    ghost const id: nat
    var key: string
    var implicit: bool
    var kval: seq<KV>
    var arr: seq<Array>
    var tab: seq<Table>

    constructor (ghost id: nat, key: string, implicit: bool)
      ensures this.id == id && this.key == key && this.implicit == implicit
      ensures kval == [] && arr == [] && tab == []
    {
      this.id, this.key, this.implicit := id, key, implicit;
      kval, arr, tab := [], [], [];
    }

    /** toml_key_in */
    function KeyIn(keyidx: nat): Option<string>
      reads this, arr, tab
    {
      if keyidx < |kval| then Some(kval[keyidx].key)
      else if keyidx - |kval| < |arr| then Some(arr[keyidx - |kval|].key)
      else if keyidx - |kval| - |arr| < |tab| then Some(tab[keyidx - |kval| - |arr|].key)
      else None
    }

    /** The three search loops of check_key, which are also those of toml_raw_in, toml_array_in and
        toml_table_in: the first place where the key stands, or the length of the list. */
    method FindKval(k: string) returns (i: nat)
      ensures i <= |kval| && (forall j :: 0 <= j < i ==> kval[j].key != k) && (i < |kval| ==> kval[i].key == k)
    {
      i := 0;
      while i < |kval| && kval[i].key != k
        invariant i <= |kval| && forall j :: 0 <= j < i ==> kval[j].key != k
      {
        i := i + 1;
      }
    }

    method FindArr(k: string) returns (i: nat)
      ensures i <= |arr| && (forall j :: 0 <= j < i ==> arr[j].key != k) && (i < |arr| ==> arr[i].key == k)
    {
      i := 0;
      while i < |arr| && arr[i].key != k
        invariant i <= |arr| && forall j :: 0 <= j < i ==> arr[j].key != k
      {
        i := i + 1;
      }
    }

    method FindTab(k: string) returns (i: nat)
      ensures i <= |tab| && (forall j :: 0 <= j < i ==> tab[j].key != k) && (i < |tab| ==> tab[i].key == k)
    {
      i := 0;
      while i < |tab| && tab[i].key != k
        invariant i <= |tab| && forall j :: 0 <= j < i ==> tab[j].key != k
      {
        i := i + 1;
      }
    }
  }

  /** toml_array_t; the union of element lists is three lists of which kind selects one. */
  class Array {
    ghost const id: nat
    var key: string
    var kind: ArrKind
    var typ: char
    var val: seq<string>
    var arr: seq<Array>
    var tab: seq<Table>

    constructor (ghost id: nat, key: string)
      ensures this.id == id && this.key == key && kind == Unset && typ == '\0'
      ensures val == [] && arr == [] && tab == []
    {
      this.id, this.key, kind, typ := id, key, Unset, '\0';
      val, arr, tab := [], [], [];
    }
  }

  ghost function ArrIds(s: seq<Array>): (r: seq<nat>)
    ensures |r| == |s| && forall j :: 0 <= j < |r| ==> r[j] == s[j].id
  {
    seq(|s|, j requires 0 <= j < |s| => s[j].id)
  }

  ghost function TabIds(s: seq<Table>): (r: seq<nat>)
    ensures |r| == |s| && forall j :: 0 <= j < |r| ==> r[j] == s[j].id
  {
    seq(|s|, j requires 0 <= j < |s| => s[j].id)
  }

  datatype Status = OK | FAIL | HANG

  /** The result of check_key. */
  datatype Found = NotFound | FoundVal(i: nat) | FoundArr(a: Array) | FoundTab(t: Table)

  /** A C string's content. */
  type CText = s: string | NulFree(s) witness []

  /** A status, the tree left behind and the current token are what the pure parser says. */
  ghost predicate Agrees(st: Status, n: Node, tok: Token, r: P.Res) {
    match r
    case Ok(m, u) => st == OK && n == m && tok == u
    case Fail => st == FAIL
    case Hang => st == HANG
  }

  /** context_t */
  class Context {
    const src: CText
    const vt: ValType
    var tok: Token
    var root: Table
    var curtab: Table
    var tkeys: seq<string>
    var ttoks: seq<Token>
    ghost var store: Store
    ghost var tabs: set<Table>
    ghost var arrs: set<Array>

    ghost predicate TabOk(t: Table)
      reads `store, `tabs, `arrs, t
    {
      && t.id < |store| && store[t.id].TabRec?
      && store[t.id].key == t.key && store[t.id].implicit == t.implicit && store[t.id].kvals == t.kval
      && store[t.id].arrs == ArrIds(t.arr) && store[t.id].tabs == TabIds(t.tab)
      && (forall a :: a in t.arr ==> a in arrs)
      && (forall u :: u in t.tab ==> u in tabs)
    }

    ghost predicate ArrOk(a: Array)
      reads `store, `tabs, `arrs, a
    {
      && a.id < |store| && store[a.id].ArrRec?
      && store[a.id].key == a.key && store[a.id].kind == a.kind && store[a.id].typ == a.typ
      && store[a.id].vals == a.val
      && store[a.id].arrs == ArrIds(a.arr) && store[a.id].tabs == TabIds(a.tab)
      && (forall b :: b in a.arr ==> b in arrs)
      && (forall u :: u in a.tab ==> u in tabs)
    }

    /** Every object is a record of the store, and no two are the same one; every record has an object by
        EveryRecordHasAnObject. */
    ghost predicate Rep()
      reads `store, `tabs, `arrs, tabs, arrs
    {
      && (forall t :: t in tabs ==> TabOk(t))
      && (forall a :: a in arrs ==> ArrOk(a))
      && (forall t, u :: t in tabs && u in tabs && t.id == u.id ==> t == u)
      && (forall a, b :: a in arrs && b in arrs && a.id == b.id ==> a == b)
    }

    /** What holds of the tree between any two builder steps. */
    ghost predicate TreeValid()
      reads `store, `tabs, `arrs, tabs, arrs
    {
      StoreInv(store) && Rep()
    }

    /** The tree of a table. */
    ghost function TabTree(t: Table): (n: Node)
      requires TreeValid() && t in tabs
      reads `store, `tabs, `arrs, tabs, arrs
      ensures n.TabN?
    {
      assert TabOk(t);
      TreeOf(store, t.id)
    }

    ghost function ArrTree(a: Array): (n: Node)
      requires TreeValid() && a in arrs
      reads `store, `tabs, `arrs, tabs, arrs
      ensures n.ArrN?
    {
      assert ArrOk(a);
      TreeOf(store, a.id)
    }

    /** The state toml_parse starts from: an empty root table and an artificial newline of length 0. */
    constructor (src: CText, vt: ValType)
      ensures this.src == src && this.vt == vt && tok == START
      ensures TreeValid() && fresh(tabs) && arrs == {} && root in tabs && curtab == root && root.id == 0
      ensures store == [TabRec(0, "", false, [], [], [])]
    {
      this.src, this.vt, tok := src, vt, START;
      var r := new Table(0, "", false);
      root, curtab := r, r;
      tkeys, ttoks := [], [];
      store := [TabRec(0, "", false, [], [], [])];
      tabs, arrs := {r}, {};
      new;
      assert NodeOk(store, 0);
    }

    // ---- tokens ----

    method NextToken(dot: bool) returns (ok: bool)
      requires ValidTok(src, tok)
      modifies `tok
      ensures ok <==> Next(src, old(tok), dot).Some?
      ensures ok ==> Some(tok) == Next(src, old(tok), dot) && Made(src, tok)
      ensures !ok ==> tok == old(tok)
    {
      var r := Scanner.NextToken(src, tok, dot);
      ok := r.Some?;
      if ok { tok := r.value; }
    }

    /** SKIP_NEWLINES. The test of eof stands where the source's loop would go round for ever. */
    method SkipNewlines() returns (st: Status)
      requires Made(src, tok)
      modifies `tok
      ensures match P.SkipNewlines(src, old(tok))
              case Skipped(t) => st == OK && tok == t && Made(src, tok)
              case SkipFail => st == FAIL
              case SkipHang => st == HANG
    {
      st := OK;
      while tok.kind == Newline
        invariant Made(src, tok) && P.SkipNewlines(src, tok) == P.SkipNewlines(src, old(tok))
        decreases |src| - tok.pos
      {
        if tok.eof { return HANG; }
        var ok := NextToken(false);
        if !ok { return FAIL; }
      }
    }

    // ---- looking up ----

    lemma TableFacts(t: Table, key: string)
      requires TreeValid() && t in tabs
      ensures NodeOk(store, t.id) && TabOk(t)
      ensures key in TabTree(t).kids <==> key in Keys(store, t.id)
      ensures forall i :: 0 <= i < |t.kval| && t.kval[i].key == key ==>
              Child(TabTree(t), K(key)) == Some(Val(t.kval[i].raw))
      ensures forall a :: a in t.arr && a.key == key ==> a in arrs && Child(TabTree(t), K(key)) == Some(ArrTree(a))
      ensures forall u :: u in t.tab && u.key == key ==> u in tabs && Child(TabTree(t), K(key)) == Some(TabTree(u))
    {
      assert TabOk(t);
      assert NodeOk(store, t.id);
      KidsOfTable(store, t.id, key);
      forall a | a in t.arr && a.key == key ensures a in arrs && Child(TabTree(t), K(key)) == Some(ArrTree(a)) {
        var j :| 0 <= j < |t.arr| && t.arr[j] == a;
        assert ArrOk(a);
      }
      forall u | u in t.tab && u.key == key ensures u in tabs && Child(TabTree(t), K(key)) == Some(TabTree(u)) {
        var j :| 0 <= j < |t.tab| && t.tab[j] == u;
        assert TabOk(u);
      }
    }

    lemma TabFacts(t: Table)
      requires TreeValid() && t in tabs
      ensures TabOk(t) && TabTree(t).implicit == t.implicit
    {
      assert TabOk(t);
    }

    lemma KeyListed(t: Table, key: string)
      requires TreeValid() && t in tabs && TabOk(t) && NodeOk(store, t.id) && key in Keys(store, t.id)
      ensures || (exists i :: 0 <= i < |t.kval| && t.kval[i].key == key)
              || (exists i :: 0 <= i < |t.arr| && t.arr[i].key == key)
              || (exists i :: 0 <= i < |t.tab| && t.tab[i].key == key)
    {
      KeyPlace(store, t.id, key);
      if j: nat :| j < |store[t.id].kvals| && store[t.id].kvals[j].key == key {
        assert t.kval[j].key == key;
      } else if j: nat :| j < |store[t.id].arrs| && store[store[t.id].arrs[j]].key == key {
        assert t.arr[j] in t.arr;
        assert ArrOk(t.arr[j]);
      } else if j: nat :| j < |store[t.id].tabs| && store[store[t.id].tabs[j]].key == key {
        assert t.tab[j] in t.tab;
        assert TabOk(t.tab[j]);
      }
    }

    lemma KeyMissing(t: Table, key: string)
      requires TreeValid() && t in tabs
      requires forall j :: 0 <= j < |t.kval| ==> t.kval[j].key != key
      requires forall j :: 0 <= j < |t.arr| ==> t.arr[j].key != key
      requires forall j :: 0 <= j < |t.tab| ==> t.tab[j].key != key
      ensures Child(TabTree(t), K(key)) == None && NodeOk(store, t.id) && key !in Keys(store, t.id)
    {
      TableFacts(t, key);
      if key in Keys(store, t.id) { KeyListed(t, key); }
    }

    /** check_key */
    method CheckKey(t: Table, key: string) returns (f: Found)
      requires TreeValid() && t in tabs
      ensures f == NotFound ==> Child(TabTree(t), K(key)) == None && NodeOk(store, t.id) && key !in Keys(store, t.id)
      ensures f.FoundVal? ==> f.i < |t.kval| && Child(TabTree(t), K(key)) == Some(Val(t.kval[f.i].raw))
      ensures f.FoundArr? ==>
                f.a in t.arr && f.a.key == key && f.a in arrs && Child(TabTree(t), K(key)) == Some(ArrTree(f.a))
      ensures f.FoundTab? ==>
                f.t in t.tab && f.t.key == key && f.t in tabs && Child(TabTree(t), K(key)) == Some(TabTree(f.t))
    {
      var i := t.FindKval(key);
      if i < |t.kval| {
        TableFacts(t, key);
        return FoundVal(i);
      }
      var j := t.FindArr(key);
      if j < |t.arr| {
        TableFacts(t, key);
        return FoundArr(t.arr[j]);
      }
      var l := t.FindTab(key);
      if l < |t.tab| {
        TableFacts(t, key);
        return FoundTab(t.tab[l]);
      }
      KeyMissing(t, key);
      return NotFound;
    }

    /** Every record of the tree has its object. */
    lemma {:induction false} EveryRecordHasAnObject(i: nat)
      requires TreeValid() && root in tabs && root.id == 0 && i < |store|
      ensures store[i].TabRec? ==> exists t :: t in tabs && t.id == i
      ensures store[i].ArrRec? ==> exists a :: a in arrs && a.id == i
      decreases i
    {
      if i == 0 {
        TabFacts(root);
      } else {
        var ids := Siblings(store, i);
        var p, n := store[i].parent, IndexOf(ids, i);
        EveryRecordHasAnObject(p);
        if store[p].TabRec? {
          var t :| t in tabs && t.id == p;
          TableListed(t, i, n);
        } else {
          var a :| a in arrs && a.id == p;
          ArrayListed(a, i, n);
        }
      }
    }

    lemma TableListed(t: Table, i: nat, n: nat)
      requires TreeValid() && t in tabs && i < |store| && t.id < |store|
      requires var ids := if store[i].ArrRec? then store[t.id].arrs else store[t.id].tabs; n < |ids| && ids[n] == i
      ensures store[i].TabRec? ==> exists u :: u in tabs && u.id == i
      ensures store[i].ArrRec? ==> exists a :: a in arrs && a.id == i
    {
      TabFacts(t);
      if store[i].ArrRec? {
        assert t.arr[n] in t.arr && t.arr[n].id == i;
      } else {
        assert t.tab[n] in t.tab && t.tab[n].id == i;
      }
    }

    lemma ArrayListed(b: Array, i: nat, n: nat)
      requires TreeValid() && b in arrs && i < |store| && b.id < |store|
      requires var ids := if store[i].ArrRec? then store[b.id].arrs else store[b.id].tabs; n < |ids| && ids[n] == i
      ensures store[i].TabRec? ==> exists u :: u in tabs && u.id == i
      ensures store[i].ArrRec? ==> exists a :: a in arrs && a.id == i
    {
      ArrFacts(b);
      if store[i].ArrRec? {
        assert b.arr[n] in b.arr && b.arr[n].id == i;
      } else {
        assert b.tab[n] in b.tab && b.tab[n].id == i;
      }
    }

    // ---- growing ----

    /** A table that has not changed, and whose record has not, still matches it. */
    twostate lemma TabKept(t: Table)
      requires old(TabOk(t)) && unchanged(t) && |old(store)| <= |store|
      requires old(tabs) <= tabs && old(arrs) <= arrs
      requires t.id < |old(store)| ==> store[t.id] == old(store[t.id])
      ensures TabOk(t)
    {
    }

    twostate lemma ArrKept(a: Array)
      requires old(ArrOk(a)) && unchanged(a) && |old(store)| <= |store|
      requires old(tabs) <= tabs && old(arrs) <= arrs
      requires a.id < |old(store)| ==> store[a.id] == old(store[a.id])
      ensures ArrOk(a)
    {
    }

    /** Only the objects with record n have changed, and at most one object with record |old(store)| is new. */
    twostate predicate Changed(n: nat, new nt: set<Table>, new na: set<Array>)
      reads `store, `tabs, `arrs, tabs, arrs
    {
      && tabs == old(tabs) + nt && arrs == old(arrs) + na && |old(store)| <= |store|
      && (forall i :: 0 <= i < |old(store)| && i != n ==> store[i] == old(store)[i])
      && (forall u :: u in old(tabs) && u.id != n ==> unchanged(u))
      && (forall a :: a in old(arrs) && a.id != n ==> unchanged(a))
      && (forall u :: u in nt ==> u.id == |old(store)|) && (forall a :: a in na ==> a.id == |old(store)|)
      && (forall u, v :: u in nt && v in nt ==> u == v) && (forall a, b :: a in na && b in na ==> a == b)
    }

    twostate lemma RepKept(n: nat, new nt: set<Table>, new na: set<Array>)
      requires old(Rep()) && Changed(n, nt, na)
      requires forall u :: u in tabs && (u.id == n || u in nt) ==> TabOk(u)
      requires forall a :: a in arrs && (a.id == n || a in na) ==> ArrOk(a)
      ensures Rep()
    {
      forall u | u in tabs ensures TabOk(u) {
        if u.id != n && u !in nt {
          assert old(TabOk(u));
          TabKept(u);
        }
      }
      forall a | a in arrs ensures ArrOk(a) {
        if a.id != n && a !in na {
          assert old(ArrOk(a));
          ArrKept(a);
        }
      }
      forall t, u | t in tabs && u in tabs && t.id == u.id ensures t == u {
        if t in old(tabs) { assert old(TabOk(t)); }
        if u in old(tabs) { assert old(TabOk(u)); }
      }
      forall t, u | t in arrs && u in arrs && t.id == u.id ensures t == u {
        if t in old(arrs) { assert old(ArrOk(t)); }
        if u in old(arrs) { assert old(ArrOk(u)); }
      }
    }

    /** Two tables with different objects have different records. */
    lemma IdsDiffer(t: Table)
      requires Rep() && t in tabs
      ensures forall u :: u in tabs && u != t ==> u.id != t.id
      ensures forall a :: a in arrs ==> a.id != t.id
    {
      assert TabOk(t);
      forall a | a in arrs ensures a.id != t.id { assert ArrOk(a); }
    }

    lemma ArrIdsDiffer(b: Array)
      requires Rep() && b in arrs
      ensures forall a :: a in arrs && a != b ==> a.id != b.id
      ensures forall u :: u in tabs ==> u.id != b.id
    {
      assert ArrOk(b);
      forall u | u in tabs ensures u.id != b.id { assert TabOk(u); }
    }

    /** The allocation half of create_keyval_in_table: a fresh key goes to the end of the list. */
    method AppendKval(t: Table, k: string, val: string)
      requires TreeValid() && t in tabs && TabOk(t) && StoreInv(AddKeyval(store, t.id, k, val))
      modifies t`kval, `store
      ensures TreeValid() && store == AddKeyval(old(store), t.id, k, val)
    {
      IdsDiffer(t);
      store := AddKeyval(store, t.id, k, val);
      t.kval := t.kval + [KV(k, val)];
      assert TabOk(t);
      RepKept(t.id, {}, {});
    }

    /** create_keyval_in_table, with the value that parse_keyval stores at once. */
    method CreateKeyvalInTable(t: Table, keytext: string, val: string) returns (ok: bool)
      requires TreeValid() && t in tabs
      modifies t`kval, `store
      ensures TreeValid() && Grown(old(store), store, t.id)
      ensures var k := NormalizeKey(keytext);
              && (ok <==> k.Some? && Child(old(TabTree(t)), K(k.value)).None?)
              && (ok ==> TabTree(t) == SetKid(old(TabTree(t)), k.value, Val(val)))
    {
      hide TreeOf, Grown, Rep;
      GrownRefl(store, t.id);
      var newkey := NormalizeKeyText(keytext);
      if newkey.None? { return false; }
      var f := CheckKey(t, newkey.value);
      if f != NotFound { return false; }
      TabFacts(t);
      AddKeyvalInv(store, t.id, newkey.value, val);
      AddKeyvalTree(store, t.id, newkey.value, val);
      AppendKval(t, newkey.value, val);
      ok := true;
    }

    /** A new table goes to the end of the table list of t. */
    method AppendTab(t: Table, k: string, implicit: bool) returns (u: Table)
      requires TreeValid() && t in tabs && TabOk(t) && StoreInv(AddTab(store, t.id, k, implicit))
      modifies t`tab, `store, `tabs
      ensures TreeValid() && store == AddTab(old(store), t.id, k, implicit)
      ensures fresh(u) && u.id == |old(store)| && tabs == old(tabs) + {u} && u.key == k && u.implicit == implicit
    {
      IdsDiffer(t);
      u := new Table(|store|, k, implicit);
      store := AddTab(store, t.id, k, implicit);
      t.tab := t.tab + [u];
      tabs := tabs + {u};
      assert TabOk(t) && TabOk(u);
      RepKept(t.id, {u}, {});
    }

    /** The special case of create_keytable_in_table: an implicit table becomes explicit. */
    method Promote(u: Table)
      requires TreeValid() && u in tabs && TabOk(u) && StoreInv(MakeExplicit(store, u.id))
      modifies u`implicit, `store
      ensures TreeValid() && TabOk(u) && store == MakeExplicit(old(store), u.id)
    {
      IdsDiffer(u);
      store := MakeExplicit(store, u.id);
      u.implicit := false;
      assert TabOk(u);
      RepKept(u.id, {}, {});
    }

    /** u is the child of t under the key k. */
    ghost predicate KidTable(t: Table, u: Table, k: string)
      reads `store, `tabs
    {
      && t in tabs && u in tabs && t.id < u.id < |store|
      && store[t.id].TabRec? && store[u.id].parent == t.id && store[u.id].key == k
    }

    lemma KidInTable(t: Table, u: Table)
      requires TreeValid() && t in tabs && u in t.tab
      ensures u in tabs && KidTable(t, u, u.key)
    {
      assert TabOk(t) && TabOk(u);
      KidsAbove(store, t.id);
      var j :| 0 <= j < |t.tab| && t.tab[j] == u;
      assert KidOk(store, t.id, store[t.id].tabs[j], false);
    }

    /** A new table under a free key of t. */
    method AddTable(t: Table, k: string, implicit: bool) returns (u: Table)
      requires TreeValid() && t in tabs && NodeOk(store, t.id) && TabOk(t) && k !in Keys(store, t.id)
      modifies t`tab, `store, `tabs
      ensures TreeValid() && Grown(old(store), store, t.id)
      ensures fresh(u) && tabs == old(tabs) + {u} && KidTable(t, u, k)
      ensures TabTree(u) == TabN(implicit, map[])
      ensures TabTree(t) == SetKid(old(TabTree(t)), k, TabN(implicit, map[]))
    {
      AddTabInv(store, t.id, k, implicit);
      AddTabTree(store, t.id, k, implicit);
      u := AppendTab(t, k, implicit);
    }

    method PromoteKid(t: Table, u: Table)
      requires TreeValid() && t in tabs && u in t.tab && u in tabs
      modifies u`implicit, `store
      ensures TreeValid() && Grown(old(store), store, t.id) && KidTable(t, u, u.key)
      ensures TabTree(u) == TabN(false, old(TabTree(u).kids))
      ensures TabTree(t) == SetKid(old(TabTree(t)), u.key, TabTree(u))
    {
      KidInTable(t, u);
      assert TabOk(t) && TabOk(u);
      PromotedKid(store, t.id, u.id);
      Promote(u);
    }

    /** create_keytable_in_table for a normalised key. */
    method OpenKeytable(t: Table, k: string) returns (u: Table?)
      requires TreeValid() && t in tabs
      modifies t`tab, tabs`implicit, `store, `tabs
      ensures TreeValid() && Grown(old(store), store, t.id)
      ensures old(tabs) <= tabs && fresh(tabs - old(tabs))
      ensures u != null <==> OpenedTable(Child(old(TabTree(t)), K(k))).Some?
      ensures u != null ==> KidTable(t, u, k)
      ensures u != null ==> Some(TabTree(u)) == OpenedTable(Child(old(TabTree(t)), K(k)))
      ensures u != null ==> TabTree(t) == SetKid(old(TabTree(t)), k, TabTree(u))
    {
      hide StoreInv, TreeOf, Grown, Rep;
      GrownRefl(store, t.id);
      var f := CheckKey(t, k);
      match f {
        case NotFound =>
          TabFacts(t);
          u := AddTable(t, k, false);
        case FoundTab(v) =>
          TabFacts(v);
          if !v.implicit { return null; }
          PromoteKid(t, v);
          u := v;
        case _ => u := null;
      }
    }

    /** create_keytable_in_table: null where the source reports that the key exists. */
    method CreateKeytableInTable(t: Table, keytext: string) returns (u: Table?)
      requires TreeValid() && t in tabs
      modifies t`tab, tabs`implicit, `store, `tabs
      ensures TreeValid() && Grown(old(store), store, t.id)
      ensures old(tabs) <= tabs && fresh(tabs - old(tabs))
      ensures u != null ==> NormalizeKey(keytext).Some?
      ensures NormalizeKey(keytext).Some? ==>
                var k := NormalizeKey(keytext).value;
                && (u != null <==> OpenedTable(Child(old(TabTree(t)), K(k))).Some?)
                && (u != null ==>
                      && KidTable(t, u, k) && Some(TabTree(u)) == OpenedTable(Child(old(TabTree(t)), K(k)))
                      && TabTree(t) == SetKid(old(TabTree(t)), k, TabTree(u)))
    {
      hide StoreInv, TreeOf, Grown, Rep;
      GrownRefl(store, t.id);
      var newkey := NormalizeKeyText(keytext);
      if newkey.None? { return null; }
      u := OpenKeytable(t, newkey.value);
    }

    /** A new array goes to the end of the array list of t. */
    method AppendArr(t: Table, k: string) returns (a: Array)
      requires TreeValid() && t in tabs && TabOk(t) && StoreInv(AddArr(store, t.id, k))
      modifies t`arr, `store, `arrs
      ensures TreeValid() && store == AddArr(old(store), t.id, k)
      ensures fresh(a) && a.id == |old(store)| && arrs == old(arrs) + {a} && a.key == k && a.kind == Unset
    {
      IdsDiffer(t);
      a := new Array(|store|, k);
      store := AddArr(store, t.id, k);
      t.arr := t.arr + [a];
      arrs := arrs + {a};
      assert TabOk(t) && ArrOk(a);
      RepKept(t.id, {}, {a});
    }

    /** a is the child of t under the key k. */
    ghost predicate KidArray(t: Table, a: Array, k: string)
      reads `store, `tabs, `arrs
    {
      && t in tabs && a in arrs && t.id < a.id < |store|
      && store[t.id].TabRec? && store[a.id].parent == t.id && store[a.id].key == k
    }

    lemma KidInArrs(t: Table, a: Array)
      requires TreeValid() && t in tabs && a in t.arr
      ensures a in arrs && KidArray(t, a, a.key)
    {
      assert TabOk(t);
      assert ArrOk(a);
      KidsAbove(store, t.id);
      var j :| 0 <= j < |t.arr| && t.arr[j] == a;
      assert KidOk(store, t.id, store[t.id].arrs[j], true);
    }

    /** A new array under a free key of t. */
    method AddArray(t: Table, k: string) returns (a: Array)
      requires TreeValid() && t in tabs && NodeOk(store, t.id) && TabOk(t) && k !in Keys(store, t.id)
      modifies t`arr, `store, `arrs
      ensures TreeValid() && Grown(old(store), store, t.id)
      ensures fresh(a) && arrs == old(arrs) + {a} && KidArray(t, a, k) && a.kind == Unset
      ensures ArrTree(a) == NEW_ARRAY
      ensures TabTree(t) == SetKid(old(TabTree(t)), k, NEW_ARRAY)
    {
      AddArrInv(store, t.id, k);
      AddArrTree(store, t.id, k);
      a := AppendArr(t, k);
    }

    /** create_keyarray_in_table: null where the source reports that the key exists, or, with
        skipIfExist, where the existing child is not an array. */
    method CreateKeyarrayInTable(t: Table, keytext: string, skipIfExist: bool) returns (a: Array?)
      requires TreeValid() && t in tabs
      modifies t`arr, `store, `arrs
      ensures TreeValid() && Grown(old(store), store, t.id)
      ensures old(arrs) <= arrs && fresh(arrs - old(arrs))
      ensures a != null ==> NormalizeKey(keytext).Some?
      ensures NormalizeKey(keytext).Some? ==>
                var k := NormalizeKey(keytext).value;
                var c := Child(old(TabTree(t)), K(k));
                && (a != null <==> c.None? || (skipIfExist && c.value.ArrN?))
                && (a != null ==> KidArray(t, a, k) && ArrTree(a) == (if c.None? then NEW_ARRAY else c.value))
                && (a != null ==> TabTree(t) == if c.None? then SetKid(old(TabTree(t)), k, NEW_ARRAY)
                    else old(TabTree(t)))
    {
      hide StoreInv, TreeOf, Grown, Rep;
      GrownRefl(store, t.id);
      var newkey := NormalizeKeyText(keytext);
      if newkey.None? { return null; }
      var f := CheckKey(t, newkey.value);
      match f {
        case NotFound =>
          TabFacts(t);
          a := AddArray(t, newkey.value);
        case FoundArr(b) =>
          if !skipIfExist { return null; }
          KidInArrs(t, b);
          a := b;
        case _ => a := null;
      }
    }

    // ---- elements ----

    method PushRaw(a: Array, raw: string)
      requires TreeValid() && a in arrs && ArrOk(a) && StoreInv(PushVal(store, a.id, raw, vt(raw)))
      requires a.val != [] ==> a.typ == vt(raw)
      modifies a`kind, a`typ, a`val, `store
      ensures TreeValid() && store == PushVal(old(store), a.id, raw, vt(raw))
    {
      ArrIdsDiffer(a);
      store := PushVal(store, a.id, raw, vt(raw));
      a.kind := Values;
      a.val := a.val + [raw];
      if |a.val| == 1 { a.typ := vt(a.val[0]); }
      assert ArrOk(a);
      RepKept(a.id, {}, {});
    }

    /** The value case of parse_array: the raw text goes to the end of the list. */
    method AppendVal(a: Array, raw: string)
      requires TreeValid() && a in arrs && (a.kind == Unset || a.kind == Values)
      requires a.val != [] ==> a.typ == vt(raw)
      modifies a`kind, a`typ, a`val, `store
      ensures TreeValid() && Grown(old(store), store, a.id)
      ensures ArrTree(a) == ArrN(Values, vt(raw), old(ArrTree(a)).elems + [Val(raw)])
    {
      assert ArrOk(a);
      PushValInv(store, a.id, raw, vt(raw));
      PushValTree(store, a.id, raw, vt(raw));
      PushRaw(a, raw);
    }

    /** b is the last element of a, after the elements es. */
    ghost predicate LastArray(a: Array, b: Array, es: seq<Node>)
      requires StoreInv(store)
      reads `store, `arrs
    {
      && a in arrs && b in arrs && a.id < b.id < |store|
      && store[a.id].ArrRec? && store[b.id].parent == a.id && StepTo(store, b.id) == I(|es|)
    }

    ghost predicate LastTable(a: Array, u: Table, es: seq<Node>)
      requires StoreInv(store)
      reads `store, `tabs, `arrs
    {
      && a in arrs && u in tabs && a.id < u.id < |store|
      && store[a.id].ArrRec? && store[u.id].parent == a.id && StepTo(store, u.id) == I(|es|)
    }

    method PushNewArray(a: Array) returns (b: Array)
      requires TreeValid() && a in arrs && ArrOk(a) && StoreInv(PushArr(store, a.id))
      modifies a`kind, a`arr, `store, `arrs
      ensures TreeValid() && store == PushArr(old(store), a.id)
      ensures fresh(b) && arrs == old(arrs) + {b} && b.id == |old(store)| && b.kind == Unset
    {
      ArrIdsDiffer(a);
      b := new Array(|store|, "");
      store := PushArr(store, a.id);
      a.kind := Arrays;
      a.arr := a.arr + [b];
      arrs := arrs + {b};
      assert ArrOk(a) && ArrOk(b);
      RepKept(a.id, {}, {b});
    }

    /** create_array_in_array */
    method CreateArrayInArray(a: Array) returns (b: Array)
      requires TreeValid() && a in arrs && (a.kind == Unset || a.kind == Arrays)
      modifies a`kind, a`arr, `store, `arrs
      ensures TreeValid() && Grown(old(store), store, a.id)
      ensures fresh(b) && arrs == old(arrs) + {b} && LastArray(a, b, old(ArrTree(a)).elems) && b.kind == Unset
      ensures ArrTree(b) == NEW_ARRAY
      ensures ArrTree(a) == ArrN(Arrays, old(ArrTree(a)).typ, old(ArrTree(a)).elems + [NEW_ARRAY])
    {
      assert ArrOk(a);
      PushArrInv(store, a.id);
      PushArrTree(store, a.id);
      NewArrayElement(store, a.id);
      b := PushNewArray(a);
    }

    method PushNewTable(a: Array, key: string) returns (u: Table)
      requires TreeValid() && a in arrs && ArrOk(a) && StoreInv(PushTab(store, a.id, key))
      modifies a`kind, a`tab, `store, `tabs
      ensures TreeValid() && store == PushTab(old(store), a.id, key)
      ensures fresh(u) && tabs == old(tabs) + {u} && u.id == |old(store)|
    {
      ArrIdsDiffer(a);
      u := new Table(|store|, key, false);
      store := PushTab(store, a.id, key);
      a.kind := Tables;
      a.tab := a.tab + [u];
      tabs := tabs + {u};
      assert ArrOk(a) && TabOk(u);
      RepKept(a.id, {u}, {});
    }

    /** create_table_in_array, and the same step of parse_select, which also gives the table a key. */
    method CreateTableInArray(a: Array, key: string) returns (u: Table)
      requires TreeValid() && a in arrs && (a.kind == Unset || a.kind == Tables)
      modifies a`kind, a`tab, `store, `tabs
      ensures TreeValid() && Grown(old(store), store, a.id)
      ensures fresh(u) && tabs == old(tabs) + {u} && LastTable(a, u, old(ArrTree(a)).elems)
      ensures TabTree(u) == NEW_TABLE
      ensures ArrTree(a) == ArrN(Tables, old(ArrTree(a)).typ, old(ArrTree(a)).elems + [NEW_TABLE])
    {
      assert ArrOk(a);
      PushTabInv(store, a.id, key);
      PushTabTree(store, a.id, key);
      NewTableElement(store, a.id, key);
      u := PushNewTable(a, key);
    }

    // ---- parse_array, parse_table, parse_keyval ----

    lemma ArrFacts(a: Array)
      requires TreeValid() && a in arrs
      ensures ArrOk(a) && ArrTree(a).kind == a.kind && ArrTree(a).typ == a.typ
      ensures a.kind == Unset ==> ArrTree(a).elems == [] && a.val == []
      ensures a.kind == Values ==> |ArrTree(a).elems| == |a.val| > 0
    {
      assert ArrOk(a);
      assert NodeOk(store, a.id);
    }

    /** One element of an array; the token after it is current. */
    method ParseElement(a: Array) returns (st: Status)
      requires TreeValid() && a in arrs && Made(src, tok) && tok.kind != Newline && tok.kind != RBracket
      modifies `tok, `store, `tabs, `arrs, tabs, arrs
      ensures TreeValid() && Grown(old(store), store, a.id)
      ensures old(tabs) <= tabs && old(arrs) <= arrs && fresh(tabs - old(tabs)) && fresh(arrs - old(arrs))
      ensures st == OK ==> Made(src, tok) && old(tok.pos) <= tok.pos
      ensures var r := P.ParseElems(src, vt, old(tok), old(ArrTree(a)));
              match st
              case OK => r == P.ParseElemsTail(src, vt, tok, ArrTree(a))
              case FAIL => r == P.Fail
              case HANG => r == P.Hang
      decreases |src| - tok.pos, 2
    {
      hide StoreInv, TreeOf, Grown, Rep, P.ParseElemsTail, P.ParseArray, P.ParseTable;
      GrownRefl(store, a.id);
      ArrFacts(a);
      assert P.SkipNewlines(src, tok) == P.Skipped(tok);
      match tok.kind {
        case Str =>
          st := ParseScalarElement(a);
        case LBracket =>
          if a.kind != Unset && a.kind != Arrays { return FAIL; }
          st := ParseArrayElement(a);
        case LBrace =>
          if a.kind != Unset && a.kind != Tables { return FAIL; }
          st := ParseTableElement(a);
        case _ => return FAIL;
      }
    }

    method ParseScalarElement(a: Array) returns (st: Status)
      requires TreeValid() && a in arrs && Made(src, tok) && tok.kind == Str
      modifies `tok, `store, a`kind, a`typ, a`val
      ensures TreeValid() && Grown(old(store), store, a.id)
      ensures st == OK ==> Made(src, tok) && old(tok.pos) <= tok.pos
      ensures var r := P.ParseElems(src, vt, old(tok), old(ArrTree(a)));
              match st
              case OK => r == P.ParseElemsTail(src, vt, tok, ArrTree(a))
              case FAIL => r == P.Fail
              case HANG => r == P.Hang
    {
      hide StoreInv, TreeOf, Grown, Rep, P.ParseElemsTail, P.ParseArray, P.ParseTable;
      GrownRefl(store, a.id);
      ArrFacts(a);
      var raw := TokText(src, tok);
      if a.kind != Unset && a.kind != Values { return FAIL; }
      if a.val != [] && a.typ != vt(raw) { return FAIL; }
      AppendVal(a, raw);
      var ok := NextToken(false);
      st := if ok then OK else FAIL;
    }

    method ParseArrayElement(a: Array) returns (st: Status)
      requires TreeValid() && a in arrs && Made(src, tok) && tok.kind == LBracket &&
               (a.kind == Unset || a.kind == Arrays)
      modifies `tok, `store, `tabs, `arrs, tabs, arrs
      ensures TreeValid() && Grown(old(store), store, a.id)
      ensures old(tabs) <= tabs && old(arrs) <= arrs && fresh(tabs - old(tabs)) && fresh(arrs - old(arrs))
      ensures st == OK ==> Made(src, tok) && old(tok.pos) <= tok.pos
      ensures match P.ParseArray(src, vt, old(tok), NEW_ARRAY)
              case Ok(e, u) => st == OK && tok == u &&
                  ArrTree(a) == P.Push(old(ArrTree(a)), Arrays, old(ArrTree(a)).typ, e)
              case Fail => st == FAIL
              case Hang => st == HANG
      decreases |src| - tok.pos, 2, 0
    {
      hide StoreInv, TreeOf, Grown, Rep, P.ParseArray;
      ghost var s0, es, typ := store, ArrTree(a).elems, ArrTree(a).typ;
      var b := CreateArrayInArray(a);
      ghost var s1 := store;
      st := ParseArray(b);
      GrownThroughKid(s0, s1, store, a.id, b.id);
      if st == OK { ElementFilled(s1, store, b.id, Arrays, typ, es, NEW_ARRAY); }
    }

    method ParseTableElement(a: Array) returns (st: Status)
      requires TreeValid() && a in arrs && Made(src, tok) && tok.kind == LBrace && (a.kind == Unset || a.kind == Tables)
      modifies `tok, `store, `tabs, `arrs, tabs, arrs
      ensures TreeValid() && Grown(old(store), store, a.id)
      ensures old(tabs) <= tabs && old(arrs) <= arrs && fresh(tabs - old(tabs)) && fresh(arrs - old(arrs))
      ensures st == OK ==> Made(src, tok) && old(tok.pos) <= tok.pos
      ensures match P.ParseTable(src, vt, old(tok), NEW_TABLE)
              case Ok(e, u) => st == OK && tok == u &&
                  ArrTree(a) == P.Push(old(ArrTree(a)), Tables, old(ArrTree(a)).typ, e)
              case Fail => st == FAIL
              case Hang => st == HANG
      decreases |src| - tok.pos, 2, 0
    {
      hide StoreInv, TreeOf, Grown, Rep, P.ParseTable;
      ghost var s0, es, typ := store, ArrTree(a).elems, ArrTree(a).typ;
      var u := CreateTableInArray(a, "");
      ghost var s1 := store;
      st := ParseTable(u);
      GrownThroughKid(s0, s1, store, a.id, u.id);
      if st == OK { ElementFilled(s1, store, u.id, Tables, typ, es, NEW_TABLE); }
    }

    /** parse_array */
    method ParseArray(a: Array) returns (st: Status)
      requires TreeValid() && a in arrs && Made(src, tok)
      modifies `tok, `store, `tabs, `arrs, tabs, arrs
      ensures TreeValid() && Grown(old(store), store, a.id)
      ensures old(tabs) <= tabs && old(arrs) <= arrs && fresh(tabs - old(tabs)) && fresh(arrs - old(arrs))
      ensures st == OK ==> Made(src, tok)
      ensures Agrees(st, ArrTree(a), tok, P.ParseArray(src, vt, old(tok), old(ArrTree(a))))
      decreases |src| - tok.pos, 1
    {
      hide StoreInv, TreeOf, Grown, Rep, P.ParseElems, P.ParseElemsTail, P.SkipNewlines;
      GrownRefl(store, a.id);
      if tok.kind != LBracket { return FAIL; }
      ghost var goal := P.ParseArray(src, vt, tok, ArrTree(a));
      var ok := NextToken(false);
      if !ok { return FAIL; }
      var more := true;
      while more
        invariant TreeValid() && a in arrs && Made(src, tok) && old(tok.pos) < tok.pos
        invariant Grown(old(store), store, a.id)
        invariant old(tabs) <= tabs && old(arrs) <= arrs && fresh(tabs - old(tabs)) && fresh(arrs - old(arrs))
        invariant goal == if more then P.ParseElems(src, vt, tok, ArrTree(a)) else P.EndArray(src, tok, ArrTree(a))
        decreases more, |src| - tok.pos
      {
        ghost var s1 := store;
        ArrFacts(a);
        st, more := ArrayRound(a);
        GrownAgain(old(store), s1, store, a.id);
        if st != OK { return; }
      }
      if tok.kind != RBracket { return FAIL; }
      ok := NextToken(false);
      st := if ok then OK else FAIL;
    }

    /** One round of parse_array: newlines, an element, newlines, a comma; more tells whether the loop goes on. */
    method ArrayRound(a: Array) returns (st: Status, more: bool)
      requires TreeValid() && a in arrs && Made(src, tok)
      modifies `tok, `store, `tabs, `arrs, tabs, arrs
      ensures TreeValid() && Grown(old(store), store, a.id)
      ensures old(tabs) <= tabs && old(arrs) <= arrs && fresh(tabs - old(tabs)) && fresh(arrs - old(arrs))
      ensures st == OK ==> Made(src, tok) && old(tok.pos) <= tok.pos && (more ==> old(tok.pos) < tok.pos)
      ensures var r := P.ParseElems(src, vt, old(tok), old(ArrTree(a)));
              match st
              case OK => r == if more then P.ParseElems(src, vt, tok, ArrTree(a)) else P.EndArray(src, tok, ArrTree(a))
              case FAIL => r == P.Fail
              case HANG => r == P.Hang
      decreases |src| - tok.pos, 3
    {
      hide StoreInv, TreeOf, Grown, Rep, P.ParseElems, P.ParseElemsTail, P.SkipNewlines;
      more := false;
      GrownRefl(store, a.id);
      P.ElemsRound(src, vt, tok, ArrTree(a));
      st := SkipNewlines();
      if st != OK || tok.kind == RBracket { return; }
      st := ParseElement(a);
      if st != OK { return; }
      st, more := AfterElement(a);
    }

    /** What parse_array does after an element. */
    method AfterElement(ghost a: Array) returns (st: Status, more: bool)
      requires TreeValid() && a in arrs && Made(src, tok)
      modifies `tok
      ensures st == OK ==> Made(src, tok) && old(tok.pos) <= tok.pos && (more ==> old(tok.pos) < tok.pos)
      ensures var r := P.ParseElemsTail(src, vt, old(tok), ArrTree(a));
              match st
              case OK => r == if more then P.ParseElems(src, vt, tok, ArrTree(a)) else P.EndArray(src, tok, ArrTree(a))
              case FAIL => r == P.Fail
              case HANG => r == P.Hang
    {
      hide TreeValid, ArrTree, P.ParseElems, P.ParseElemsTail, P.SkipNewlines;
      more := false;
      P.ElemsTailRound(src, vt, tok, ArrTree(a));
      st := SkipNewlines();
      if st != OK || tok.kind != Comma { return; }
      var ok := NextToken(false);
      st, more := if ok then OK else FAIL, ok;
    }

    /** parse_table */
    method ParseTable(t: Table) returns (st: Status)
      requires TreeValid() && t in tabs && Made(src, tok)
      modifies `tok, `store, `tabs, `arrs, tabs, arrs
      ensures TreeValid() && Grown(old(store), store, t.id)
      ensures old(tabs) <= tabs && old(arrs) <= arrs && fresh(tabs - old(tabs)) && fresh(arrs - old(arrs))
      ensures st == OK ==> Made(src, tok)
      ensures Agrees(st, TabTree(t), tok, P.ParseTable(src, vt, old(tok), old(TabTree(t))))
      decreases |src| - tok.pos, 1
    {
      hide StoreInv, TreeOf, Grown, Rep, P.ParseEntries, P.ParseEntriesTail, P.SkipNewlines;
      GrownRefl(store, t.id);
      if tok.kind != LBrace { return FAIL; }
      ghost var goal := P.ParseTable(src, vt, tok, TabTree(t));
      var ok := NextToken(false);
      if !ok { return FAIL; }
      var more := true;
      while more
        invariant TreeValid() && t in tabs && Made(src, tok) && old(tok.pos) < tok.pos
        invariant Grown(old(store), store, t.id)
        invariant old(tabs) <= tabs && old(arrs) <= arrs && fresh(tabs - old(tabs)) && fresh(arrs - old(arrs))
        invariant goal == if more then P.ParseEntries(src, vt, tok, TabTree(t)) else P.EndTable(src, tok, TabTree(t))
        decreases more, |src| - tok.pos
      {
        ghost var s1 := store;
        TabFacts(t);
        st, more := TableRound(t);
        GrownAgain(old(store), s1, store, t.id);
        if st != OK { return; }
      }
      if tok.kind != RBrace { return FAIL; }
      ok := NextToken(false);
      st := if ok then OK else FAIL;
    }

    /** One round of parse_table: newlines, a key/value, newlines, a comma; more tells whether the loop goes on. */
    method TableRound(t: Table) returns (st: Status, more: bool)
      requires TreeValid() && t in tabs && Made(src, tok)
      modifies `tok, `store, `tabs, `arrs, tabs, arrs
      ensures TreeValid() && Grown(old(store), store, t.id)
      ensures old(tabs) <= tabs && old(arrs) <= arrs && fresh(tabs - old(tabs)) && fresh(arrs - old(arrs))
      ensures st == OK ==> Made(src, tok) && old(tok.pos) <= tok.pos && (more ==> old(tok.pos) < tok.pos)
      ensures var r := P.ParseEntries(src, vt, old(tok), old(TabTree(t)));
              match st
              case OK => r == if more then P.ParseEntries(src, vt, tok, TabTree(t))
                  else P.EndTable(src, tok, TabTree(t))
              case FAIL => r == P.Fail
              case HANG => r == P.Hang
      decreases |src| - tok.pos, 3
    {
      hide StoreInv, TreeOf, Grown, Rep, P.ParseEntries, P.ParseEntriesTail, P.ParseKeyval, P.SkipNewlines;
      more := false;
      GrownRefl(store, t.id);
      P.EntriesRound(src, vt, tok, TabTree(t));
      st := SkipNewlines();
      if st != OK || tok.kind == RBrace { return; }
      if tok.kind != Str { st := FAIL; return; }
      st := ParseKeyval(t);
      if st != OK { return; }
      st, more := AfterEntry(t);
    }

    /** What parse_table does after a key/value. */
    method AfterEntry(ghost t: Table) returns (st: Status, more: bool)
      requires TreeValid() && t in tabs && Made(src, tok)
      modifies `tok
      ensures st == OK ==> Made(src, tok) && old(tok.pos) <= tok.pos && (more ==> old(tok.pos) < tok.pos)
      ensures var r := P.ParseEntriesTail(src, vt, old(tok), TabTree(t));
              match st
              case OK => r == if more then P.ParseEntries(src, vt, tok, TabTree(t))
                  else P.EndTable(src, tok, TabTree(t))
              case FAIL => r == P.Fail
              case HANG => r == P.Hang
    {
      hide TreeValid, TabTree, P.ParseEntries, P.ParseEntriesTail, P.SkipNewlines;
      more := false;
      P.EntriesTailRound(src, vt, tok, TabTree(t));
      st := SkipNewlines();
      if st != OK || tok.kind != Comma { return; }
      var ok := NextToken(false);
      st, more := if ok then OK else FAIL, ok;
    }

    /** parse_keyval */
    method ParseKeyval(t: Table) returns (st: Status)
      requires TreeValid() && t in tabs && Made(src, tok)
      modifies `tok, `store, `tabs, `arrs, tabs, arrs
      ensures TreeValid() && Grown(old(store), store, t.id)
      ensures old(tabs) <= tabs && old(arrs) <= arrs && fresh(tabs - old(tabs)) && fresh(arrs - old(arrs))
      ensures st == OK ==> Made(src, tok) && old(tok.pos) < tok.pos
      ensures Agrees(st, TabTree(t), tok, P.ParseKeyval(src, vt, old(tok), old(TabTree(t))))
      decreases |src| - tok.pos, 1
    {
      hide StoreInv, TreeOf, Grown, Rep, P.ParseArray, P.ParseTable;
      GrownRefl(store, t.id);
      if tok.kind != Str { return FAIL; }
      var key := tok;
      var ok := NextToken(false);
      if !ok || tok.kind != Equal { return FAIL; }
      ok := NextToken(false);
      if !ok { return FAIL; }
      match tok.kind {
        case Str => st := ParseScalarValue(t, key);
        case LBracket => st := ParseArrayValue(t, key);
        case LBrace => st := ParseTableValue(t, key);
        case _ => st := FAIL;
      }
    }

    /** The three cases of parse_keyval; the value token is current. */
    method ParseScalarValue(t: Table, key: Token) returns (st: Status)
      requires TreeValid() && t in tabs && Made(src, tok) && Made(src, key)
      requires P.ValueTok(src, key) == Some(tok) && tok.kind == Str
      modifies `tok, `store, t`kval
      ensures TreeValid() && Grown(old(store), store, t.id)
      ensures st == OK ==> Made(src, tok) && key.pos < tok.pos
      ensures Agrees(st, TabTree(t), tok, P.ParseKeyval(src, vt, key, old(TabTree(t))))
    {
      hide StoreInv, TreeOf, Grown, Rep, P.ParseArray, P.ParseTable;
      var ok := CreateKeyvalInTable(t, TokText(src, key), TokText(src, tok));
      if !ok { return FAIL; }
      ok := NextToken(false);
      st := if ok then OK else FAIL;
    }

    method ParseArrayValue(t: Table, key: Token) returns (st: Status)
      requires TreeValid() && t in tabs && Made(src, tok) && Made(src, key)
      requires P.ValueTok(src, key) == Some(tok) && tok.kind == LBracket
      modifies `tok, `store, `tabs, `arrs, tabs, arrs
      ensures TreeValid() && Grown(old(store), store, t.id)
      ensures old(tabs) <= tabs && old(arrs) <= arrs && fresh(tabs - old(tabs)) && fresh(arrs - old(arrs))
      ensures st == OK ==> Made(src, tok) && key.pos < tok.pos
      ensures Agrees(st, TabTree(t), tok, P.ParseKeyval(src, vt, key, old(TabTree(t))))
      decreases |src| - tok.pos, 2
    {
      hide StoreInv, TreeOf, Grown, Rep, P.ParseArray;
      ghost var s0, b := store, TabTree(t);
      var a := CreateKeyarrayInTable(t, TokText(src, key), false);
      if a == null { return FAIL; }
      ghost var s1 := store;
      st := ParseArray(a);
      GrownThroughKid(s0, s1, store, t.id, a.id);
      if st == OK { KidFilled(s1, store, a.id, b, NormalizeKey(TokText(src, key)).value, NEW_ARRAY); }
    }

    method ParseTableValue(t: Table, key: Token) returns (st: Status)
      requires TreeValid() && t in tabs && Made(src, tok) && Made(src, key)
      requires P.ValueTok(src, key) == Some(tok) && tok.kind == LBrace
      modifies `tok, `store, `tabs, `arrs, tabs, arrs
      ensures TreeValid() && Grown(old(store), store, t.id)
      ensures old(tabs) <= tabs && old(arrs) <= arrs && fresh(tabs - old(tabs)) && fresh(arrs - old(arrs))
      ensures st == OK ==> Made(src, tok) && key.pos < tok.pos
      ensures Agrees(st, TabTree(t), tok, P.ParseKeyval(src, vt, key, old(TabTree(t))))
      decreases |src| - tok.pos, 2
    {
      hide StoreInv, TreeOf, Grown, Rep, P.ParseTable;
      ghost var s0, b := store, TabTree(t);
      var u := CreateKeytableInTable(t, TokText(src, key));
      if u == null { return FAIL; }
      ghost var s1, n := store, TabTree(u);
      st := ParseTable(u);
      GrownThroughKid(s0, s1, store, t.id, u.id);
      if st == OK { KidFilled(s1, store, u.id, b, NormalizeKey(TokText(src, key)).value, n); }
    }

    // ---- fill_tabpath, walk_tabpath, parse_select, toml_parse ----

    /** fill_tabpath */
    method FillTabpath() returns (ok: bool)
      requires Made(src, tok)
      modifies `tok, `tkeys, `ttoks
      ensures P.FillPath(src, old(tok), 0) == if ok then P.Path(tkeys, tok) else P.NoPath
      ensures ok ==> Made(src, tok)
      ensures ok ==> |ttoks| == |tkeys| > 0 && ValidTok(src, ttoks[|ttoks| - 1])
      ensures ok ==> NormalizeKey(TokText(src, ttoks[|ttoks| - 1])) == Some(tkeys[|tkeys| - 1])
    {
      hide P.FillPath;
      tkeys, ttoks := [], [];
      ghost var goal := P.FillPath(src, tok, 0);
      while true
        invariant Made(src, tok) && |ttoks| == |tkeys| <= MAX_DEPTH
        invariant P.PathFrom(src, tok, tkeys) == goal
        decreases MAX_DEPTH - |tkeys|
      {
        P.PathRound(src, tok, tkeys);
        hide P.PathFrom;
        if |tkeys| >= MAX_DEPTH || tok.kind != Str { return false; }
        var k := NormalizeKeyText(TokText(src, tok));
        if k.None? { return false; }
        tkeys, ttoks := tkeys + [k.value], ttoks + [tok];
        ok := NextToken(true);
        if !ok { return false; }
        if tok.kind == RBracket { return true; }
        if tok.kind != Dot { return false; }
        ok := NextToken(true);
        if !ok { return false; }
      }
    }

    /** The tree of the root and the address of a table. */
    ghost function SelOf(t: Table): (d: Sel)
      requires TreeValid() && t in tabs
      reads `store, `tabs, `arrs, tabs, arrs
      ensures d.Valid() && d.root.TabN? && d.Table() == TabTree(t)
    {
      TabFacts(t);
      SelAt(store, t.id)
    }

    /** One round of walk_tabpath: null where the source reports an error. */
    method WalkRound(t: Table, k: string) returns (u: Table?)
      requires TreeValid() && t in tabs
      modifies t`tab, `store, `tabs
      ensures TreeValid() && old(tabs) <= tabs && fresh(tabs - old(tabs))
      ensures match WalkStep(old(SelOf(t)), k)
              case None => u == null
              case Some(d) => u != null && u in tabs && SelOf(u) == d
    {
      hide StoreInv, TreeOf, Grown, Rep, SelAt;
      var f := CheckKey(t, k);
      match f {
        case FoundTab(v) =>
          KidInTable(t, v);
          TabFacts(v);
          IntoTable(store, t.id, v.id, k);
          u := v;
        case FoundArr(a) =>
          u := EnterArray(t, a, k);
        case FoundVal(_) =>
          u := null;
        case NotFound =>
          u := EnterImplicit(t, k);
      }
    }

    /** The case 'a' of walk_tabpath; the source's test for an array without elements cannot succeed. */
    method EnterArray(t: Table, a: Array, k: string) returns (u: Table?)
      requires TreeValid() && t in tabs && a in t.arr && a in arrs && a.key == k
      requires Child(TabTree(t), K(k)) == Some(ArrTree(a))
      ensures match WalkStep(SelOf(t), k)
              case None => u == null
              case Some(d) => u != null && u in tabs && SelOf(u) == d
    {
      hide StoreInv, TreeOf, Grown, Rep, SelAt;
      ArrFacts(a);
      if a.kind != Tables { return null; }
      KidInArrs(t, a);
      AcrossArray(store, t.id, a.id, k);
      assert a.tab != [];
      u := a.tab[|a.tab| - 1];
      TabFacts(u);
    }

    /** The default case of walk_tabpath. */
    method EnterImplicit(t: Table, k: string) returns (u: Table)
      requires TreeValid() && t in tabs
      requires Child(TabTree(t), K(k)) == None && NodeOk(store, t.id) && k !in Keys(store, t.id)
      modifies t`tab, `store, `tabs
      ensures TreeValid() && old(tabs) <= tabs && fresh(tabs - old(tabs))
      ensures u in tabs && WalkStep(old(SelOf(t)), k) == Some(SelOf(u))
    {
      hide StoreInv, TreeOf, Grown, Rep, SelAt;
      TabFacts(t);
      ghost var s := store;
      u := AddTable(t, k, true);
      TabFacts(u);
      IntoImplicit(s, store, t.id, u.id, k);
    }

    /** walk_tabpath */
    method WalkTabpath() returns (ok: bool)
      requires TreeValid() && root in tabs && root.id == 0
      modifies `curtab, `store, `tabs, tabs`tab
      ensures TreeValid() && old(tabs) <= tabs && fresh(tabs - old(tabs))
      ensures match Walk(old(SelOf(root)), tkeys)
              case None => !ok
              case Some(d) => ok && curtab in tabs && SelOf(curtab) == d
    {
      hide StoreInv, TreeOf, Grown, Rep, SelAt, WalkStep;
      var t, i := root, 0;
      assert tkeys[0..] == tkeys;
      while i < |tkeys|
        invariant i <= |tkeys| && TreeValid() && t in tabs
        invariant old(tabs) <= tabs && fresh(tabs - old(tabs))
        invariant Walk(SelOf(t), tkeys[i..]) == Walk(old(SelOf(root)), tkeys)
      {
        assert tkeys[i..][1..] == tkeys[i + 1..];
        var u := WalkRound(t, tkeys[i]);
        if u == null { return false; }
        t, i := u, i + 1;
      }
      curtab, ok := t, true;
    }

    /** The end of parse_select for [..z]. */
    method OpenSingle(z: Token) returns (ok: bool)
      requires TreeValid() && curtab in tabs && ValidTok(src, z) && NormalizeKey(TokText(src, z)).Some?
      modifies `curtab, `store, `tabs, tabs
      ensures TreeValid() && old(tabs) <= tabs && fresh(tabs - old(tabs))
      ensures match Open(old(SelOf(curtab)), false, NormalizeKey(TokText(src, z)).value)
              case None => !ok
              case Some(d) => ok && curtab in tabs && SelOf(curtab) == d
    {
      hide StoreInv, TreeOf, Grown, Rep, SelAt;
      TabFacts(curtab);
      ghost var s, i := store, curtab.id;
      var u := CreateKeytableInTable(curtab, TokText(src, z));
      if u == null { return false; }
      TabFacts(u);
      OpenedSingle(s, store, i, u.id, NormalizeKey(TokText(src, z)).value);
      curtab, ok := u, true;
    }

    /** The end of parse_select for [[..z]]. */
    method OpenDouble(z: Token) returns (ok: bool)
      requires TreeValid() && curtab in tabs && ValidTok(src, z) && NormalizeKey(TokText(src, z)).Some?
      modifies `curtab, `store, `tabs, `arrs, tabs, arrs
      ensures TreeValid() && old(tabs) <= tabs && fresh(tabs - old(tabs))
      ensures old(arrs) <= arrs && fresh(arrs - old(arrs))
      ensures match Open(old(SelOf(curtab)), true, NormalizeKey(TokText(src, z)).value)
              case None => !ok
              case Some(d) => ok && curtab in tabs && SelOf(curtab) == d
    {
      hide StoreInv, TreeOf, Grown, Rep, SelAt, Open, OpenedArray;
      TabFacts(curtab);
      ghost var s, i, k := store, curtab.id, NormalizeKey(TokText(src, z)).value;
      ghost var c, d := Child(TabTree(curtab), K(k)), SelOf(curtab);
      OpenFails(d, k);
      var a := CreateKeyarrayInTable(curtab, TokText(src, z), true);
      if a == null { return false; }
      ArrFacts(a);
      if a.kind != Unset && a.kind != Tables { return false; }
      ghost var w, e := store, ArrTree(a);
      var u := CreateTableInArray(a, "__anon__");
      TabFacts(u);
      Appended(c, e, ArrTree(a));
      OpenedDouble(s, w, store, i, a.id, u.id, k);
      curtab, ok := u, true;
    }

    /** The second half of parse_select, when the path has been read. */
    method SelectTarget(double: bool) returns (ok: bool)
      requires TreeValid() && root in tabs && root.id == 0
      requires |ttoks| == |tkeys| > 0 && ValidTok(src, ttoks[|ttoks| - 1])
      requires NormalizeKey(TokText(src, ttoks[|ttoks| - 1])) == Some(tkeys[|tkeys| - 1])
      modifies `tkeys, `ttoks, `curtab, `store, `tabs, `arrs, tabs, arrs
      ensures TreeValid() && old(tabs) <= tabs && fresh(tabs - old(tabs))
      ensures old(arrs) <= arrs && fresh(arrs - old(arrs))
      ensures match Select(old(TabTree(root)), double, old(tkeys))
              case None => !ok
              case Some(d) => ok && curtab in tabs && SelOf(curtab) == d
    {
      hide StoreInv, TreeOf, Grown, Rep, SelAt, Open, Walk;
      RootSel();
      var z := ttoks[|ttoks| - 1];
      tkeys, ttoks := tkeys[..|tkeys| - 1], ttoks[..|ttoks| - 1];
      ok := WalkTabpath();
      if !ok { return; }
      if double { ok := OpenDouble(z); } else { ok := OpenSingle(z); }
    }

    lemma RootSel()
      requires TreeValid() && root in tabs && root.id == 0
      ensures SelOf(root) == Sel(TabTree(root), [])
    {
    }

    /** The closing brackets of a header. */
    method CloseHeader(double: bool) returns (ok: bool)
      requires Made(src, tok)
      modifies `tok
      ensures P.CloseHeader(src, old(tok), double) == if ok then Some(tok) else None
      ensures ok ==> Made(src, tok)
    {
      if tok.kind != RBracket { return false; }
      ok := NextToken(false);
      if !ok { return; }
      if double {
        if tok.kind != RBracket { return false; }
        ok := NextToken(false);
        if !ok { return; }
      }
      ok := tok.kind == Newline;
    }

    /** The opening brackets of a header. */
    method OpenHeader() returns (ok: bool, double: bool)
      requires Made(src, tok)
      modifies `tok
      ensures P.OpenHeader(src, old(tok)) == if ok then Some((double, tok)) else None
      ensures ok ==> Made(src, tok)
    {
      double := false;
      if tok.kind != LBracket { return false, false; }
      ok := NextToken(true);
      if !ok { return; }
      double := tok.kind == LBracket;
      if double { ok := NextToken(true); }
    }

    /** The rest of a header. */
    method SelectFrom(double: bool) returns (ok: bool)
      requires TreeValid() && root in tabs && root.id == 0 && Made(src, tok)
      modifies `tok, `tkeys, `ttoks, `curtab, `store, `tabs, `arrs, tabs, arrs
      ensures TreeValid() && old(tabs) <= tabs && fresh(tabs - old(tabs))
      ensures old(arrs) <= arrs && fresh(arrs - old(arrs))
      ensures match P.SelectFrom(src, old(tok), double, old(TabTree(root)))
              case NotSelected => !ok
              case Selected(d, t) => ok && curtab in tabs && SelOf(curtab) == d && tok == t && Made(src, tok)
    {
      hide StoreInv, TreeOf, Grown, Rep, SelAt, SelOf, TabTree, TreeValid, Next, Select, P.FillPath, P.CloseHeader;
      ok := FillTabpath();
      if !ok { return; }
      ok := SelectTarget(double);
      if !ok { return; }
      ok := CloseHeader(double);
    }

    /** parse_select */
    method ParseSelect() returns (ok: bool)
      requires TreeValid() && root in tabs && root.id == 0 && Made(src, tok)
      modifies `tok, `tkeys, `ttoks, `curtab, `store, `tabs, `arrs, tabs, arrs
      ensures TreeValid() && old(tabs) <= tabs && fresh(tabs - old(tabs))
      ensures old(arrs) <= arrs && fresh(arrs - old(arrs))
      ensures match P.ParseSelect(src, old(tok), old(TabTree(root)))
              case NotSelected => !ok
              case Selected(d, t) => ok && curtab in tabs && SelOf(curtab) == d && tok == t && Made(src, tok)
    {
      hide StoreInv, TreeOf, Grown, Rep, SelAt, SelOf, TabTree, TreeValid, Next, P.SelectFrom, P.OpenHeader;
      var good, double := OpenHeader();
      if !good { return false; }
      ok := SelectFrom(double);
    }

    /** One round of the loop of toml_parse. */
    method ParseLine() returns (st: Status)
      requires TreeValid() && root in tabs && root.id == 0 && curtab in tabs && Made(src, tok)
      modifies `tok, `tkeys, `ttoks, `curtab, `store, `tabs, `arrs, tabs, arrs
      ensures TreeValid() && old(tabs) <= tabs && fresh(tabs - old(tabs))
      ensures old(arrs) <= arrs && fresh(arrs - old(arrs))
      ensures match P.ParseLine(src, vt, old(tok), old(SelOf(curtab)))
              case LineFail => st == FAIL
              case LineHang => st == HANG
              case Line(d, t) => st == OK && curtab in tabs && SelOf(curtab) == d && tok == t && Made(src, tok)
    {
      hide StoreInv, TreeOf, Grown, Rep, SelAt, Next, P.ParseKeyval, P.ParseSelect;
      var ok: bool;
      match tok.kind {
        case Newline =>
          ok := NextToken(true);
          st := if ok then OK else FAIL;
        case Str =>
          st := ParseEntry();
        case LBracket =>
          RootSelOf(curtab);
          ok := ParseSelect();
          st := if ok then OK else FAIL;
        case _ =>
          st := FAIL;
      }
    }

    lemma RootSelOf(t: Table)
      requires TreeValid() && root in tabs && root.id == 0 && t in tabs
      ensures SelOf(t).root == TabTree(root)
    {
    }

    /** A key/value line. */
    method ParseEntry() returns (st: Status)
      requires TreeValid() && curtab in tabs && Made(src, tok) && tok.kind == Str
      modifies `tok, `store, `tabs, `arrs, tabs, arrs
      ensures TreeValid() && old(tabs) <= tabs && fresh(tabs - old(tabs))
      ensures old(arrs) <= arrs && fresh(arrs - old(arrs))
      ensures match P.ParseLine(src, vt, old(tok), old(SelOf(curtab)))
              case LineFail => st == FAIL
              case LineHang => st == HANG
              case Line(d, t) => st == OK && curtab in tabs && SelOf(curtab) == d && tok == t && Made(src, tok)
    {
      hide StoreInv, TreeOf, Grown, Rep, Next, P.ParseKeyval;
      ghost var s := store;
      TabFacts(curtab);
      st := ParseKeyval(curtab);
      if st != OK { return; }
      if tok.kind != Newline { return FAIL; }
      TabFacts(curtab);
      SameSel(s, store, curtab.id);
      var ok := NextToken(false);
      st := if ok then OK else FAIL;
    }

    /** The loop of toml_parse. */
    method Parse() returns (st: Status)
      requires TreeValid() && root in tabs && root.id == 0 && curtab == root && TabTree(root) == NEW_TABLE &&
               tok == START
      modifies `tok, `tkeys, `ttoks, `curtab, `store, `tabs, `arrs, tabs, arrs
      ensures TreeValid() && root in tabs
      ensures match P.ParseDoc(src, vt)
              case Done(n) => st == OK && TabTree(root) == n && curtab in tabs
              case Refused => st == FAIL
              case Stuck => st == HANG
    {
      hide StoreInv, TreeOf, Grown, Rep, SelAt, Next, P.ParseLine;
      RootSel();
      var ok := NextToken(true);
      if !ok { return FAIL; }
      st := OK;
      while !tok.eof
        invariant TreeValid() && root in tabs && curtab in tabs && Made(src, tok) && st == OK
        invariant old(tabs) <= tabs && fresh(tabs - old(tabs)) && old(arrs) <= arrs && fresh(arrs - old(arrs))
        invariant P.ParseLines(src, vt, tok, SelOf(curtab)) == P.ParseDoc(src, vt)
        decreases |src| - tok.pos
      {
        st := ParseLine();
        if st != OK { return; }
      }
      RootSelOf(curtab);
    }
  }

  lemma NewArrayElement(s: Store, i: nat)
    requires StoreInv(s) && i < |s| && s[i].ArrRec? && (s[i].kind == Unset || s[i].kind == Arrays)
    ensures StoreInv(PushArr(s, i)) && StepTo(PushArr(s, i), |s|) == I(|TreeOf(s, i).elems|)
  {
    PushArrInv(s, i);
    assert NodeOk(s, i);
    KidsAbove(s, i);
    IndexOfLast(s[i].arrs, |s|);
    ArrayElems(s, i);
  }

  lemma NewTableElement(s: Store, i: nat, key: string)
    requires StoreInv(s) && i < |s| && s[i].ArrRec? && (s[i].kind == Unset || s[i].kind == Tables)
    ensures StoreInv(PushTab(s, i, key)) && StepTo(PushTab(s, i, key), |s|) == I(|TreeOf(s, i).elems|)
  {
    PushTabInv(s, i, key);
    assert NodeOk(s, i);
    KidsAbove(s, i);
    IndexOfLast(s[i].tabs, |s|);
    ArrayElems(s, i);
  }

  /** Making a child explicit, seen from the child and from its parent. */
  lemma PromotedKid(s: Store, i: nat, x: nat)
    requires StoreInv(s) && i < x < |s| && s[i].TabRec? && s[x].TabRec? && s[x].parent == i
    ensures var u := MakeExplicit(s, x);
            && StoreInv(u) && Grown(s, u, i)
            && TreeOf(u, x) == TreeOf(s, x).(implicit := false)
            && TreeOf(u, i) == SetKid(TreeOf(s, i), s[x].key, TreeOf(u, x))
  {
    var u := MakeExplicit(s, x);
    MakeExplicitInv(s, x);
    MakeExplicitTree(s, x);
    KidReplaced(s, u, x);
    assert InSub(s, i, i) && InSub(s, x, i);
    GrownAbove(s, u, x, i);
  }

  /** toml_parse: the root table, for the texts the pure parser accepts and no others. */
  method TomlParse(src: CText, vt: ValType) returns (st: Status, c: Context)
    ensures fresh(c) && c.TreeValid() && c.root in c.tabs && c.root.id == 0
    ensures Reachable.OneTree(c.store)
    ensures match P.ParseDoc(src, vt)
            case Done(n) => st == OK && c.TabTree(c.root) == n && c.curtab in c.tabs
            case Refused => st == FAIL
            case Stuck => st == HANG
  {
    hide StoreInv, TreeOf, Grown, Context.Rep, Reachable.OneTree;
    c := new Context(src, vt);
    NewTableTree(c.store, 0);
    st := c.Parse();
    Reachable.InvariantMeans(c.store);
  }
}
