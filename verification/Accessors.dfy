/** Reading a parsed tree (contrib/tomlc99/toml.c:1553-1670). */
module Accessors {
  import opened Text
  import opened Tree
  import opened Store
  import opened Growth
  import opened Builder

  // ---- lookup ----

  /** toml_raw_in: finds exactly the children that are values. */
  method RawIn(c: Context, t: Table, key: string) returns (r: Option<string>)
    requires c.TreeValid() && t in c.tabs
    ensures var n := Child(c.TabTree(t), K(key));
            r == if n.Some? && n.value.Val? then Some(n.value.raw) else None
  {
    hide StoreInv, TreeOf, Context.Rep;
    var i := t.FindKval(key);
    c.TableFacts(t, key);
    if i < |t.kval| { return Some(t.kval[i].raw); }
    if key in Keys(c.store, t.id) { c.KeyListed(t, key); }
    return None;
  }

  /** toml_array_in: finds exactly the children that are arrays. */
  method ArrayIn(c: Context, t: Table, key: string) returns (a: Array?)
    requires c.TreeValid() && t in c.tabs
    ensures var n := Child(c.TabTree(t), K(key));
            a != null <==> n.Some? && n.value.ArrN?
    ensures a != null ==> c.KidArray(t, a, key) && Child(c.TabTree(t), K(key)) == Some(c.ArrTree(a))
  {
    hide StoreInv, TreeOf, Context.Rep;
    var i := t.FindArr(key);
    c.TableFacts(t, key);
    if i < |t.arr| {
      c.KidInArrs(t, t.arr[i]);
      return t.arr[i];
    }
    if key in Keys(c.store, t.id) { c.KeyListed(t, key); }
    return null;
  }

  /** toml_table_in: finds exactly the children that are tables. */
  method TableIn(c: Context, t: Table, key: string) returns (u: Table?)
    requires c.TreeValid() && t in c.tabs
    ensures var n := Child(c.TabTree(t), K(key));
            u != null <==> n.Some? && n.value.TabN?
    ensures u != null ==> c.KidTable(t, u, key) && Child(c.TabTree(t), K(key)) == Some(c.TabTree(u))
  {
    hide StoreInv, TreeOf, Context.Rep;
    var i := t.FindTab(key);
    c.TableFacts(t, key);
    if i < |t.tab| {
      c.KidInTable(t, t.tab[i]);
      return t.tab[i];
    }
    if key in Keys(c.store, t.id) { c.KeyListed(t, key); }
    return null;
  }

  /** toml_key_in lists the keys of the three lists one after the other. */
  lemma KeysInOrder(c: Context, t: Table)
    requires c.TreeValid() && t in c.tabs
    ensures NodeOk(c.store, t.id) && c.TabOk(t)
    ensures forall i: nat :: t.KeyIn(i) == if i < |Keys(c.store, t.id)| then Some(Keys(c.store, t.id)[i]) else None
  {
    c.TableFacts(t, "");
    KidsAbove(c.store, t.id);
    forall j | 0 <= j < |t.arr| ensures c.store[c.store[t.id].arrs[j]].key == t.arr[j].key {
      assert t.arr[j] in t.arr;
      assert c.ArrOk(t.arr[j]);
    }
    forall j | 0 <= j < |t.tab| ensures c.store[c.store[t.id].tabs[j]].key == t.tab[j].key {
      assert t.tab[j] in t.tab;
      assert c.TabOk(t.tab[j]);
    }
  }

  /** Enumeration and lookup agree: toml_key_in lists every child key once, lists nothing else, and then
      returns NULL. */
  lemma Enumeration(c: Context, t: Table)
    requires c.TreeValid() && t in c.tabs
    ensures forall i: nat, j: nat :: i < j && t.KeyIn(i).Some? && t.KeyIn(j).Some? ==> t.KeyIn(i) != t.KeyIn(j)
    ensures forall i: nat, j: nat :: i <= j && t.KeyIn(j).Some? ==> t.KeyIn(i).Some?
    ensures forall k :: k in c.TabTree(t).kids <==> exists i: nat :: t.KeyIn(i) == Some(k)
  {
    hide StoreInv, TreeOf, Context.Rep;
    KeysInOrder(c, t);
    var keys := Keys(c.store, t.id);
    forall k ensures k in c.TabTree(t).kids <==> exists i: nat :: t.KeyIn(i) == Some(k) {
      c.TableFacts(t, k);
      if k in keys {
        var i: nat :| i < |keys| && keys[i] == k;
        assert t.KeyIn(i) == Some(k);
      }
    }
  }

  // ---- elements ----

  /** toml_raw_at */
  method RawAt(c: Context, a: Array, idx: int) returns (r: Option<string>)
    requires c.TreeValid() && a in c.arrs
    ensures idx < 0 ==> r == None
    ensures idx >= 0 ==> var n := Child(c.ArrTree(a), I(idx));
                         r == if n.Some? && n.value.Val? then Some(n.value.raw) else None
  {
    ArrayShape(c, a);
    if a.kind != Values { return None; }
    if !(0 <= idx < |a.val|) { return None; }
    return Some(a.val[idx]);
  }

  /** toml_array_at */
  method ArrayAt(c: Context, a: Array, idx: int) returns (b: Array?)
    requires c.TreeValid() && a in c.arrs
    ensures b != null <==> idx >= 0 && Child(c.ArrTree(a), I(idx)).Some? && a.kind == Arrays
    ensures b != null ==> b in c.arrs && a.id < b.id < |c.store| && Child(c.ArrTree(a), I(idx)) == Some(c.ArrTree(b))
  {
    ArrayShape(c, a);
    if a.kind != Arrays { return null; }
    if !(0 <= idx < |a.arr|) { return null; }
    return a.arr[idx];
  }

  /** toml_table_at */
  method TableAt(c: Context, a: Array, idx: int) returns (u: Table?)
    requires c.TreeValid() && a in c.arrs
    ensures u != null <==> idx >= 0 && Child(c.ArrTree(a), I(idx)).Some? && a.kind == Tables
    ensures u != null ==> u in c.tabs && a.id < u.id < |c.store| && Child(c.ArrTree(a), I(idx)) == Some(c.TabTree(u))
  {
    ArrayShape(c, a);
    if a.kind != Tables { return null; }
    if !(0 <= idx < |a.tab|) { return null; }
    return a.tab[idx];
  }

  lemma {:induction false} ValNodesAt(vals: seq<string>, i: nat)
    requires i < |vals|
    ensures ValNodes(vals)[i] == Val(vals[i])
  {
    if i >= |vals| - 1 {
    } else {
      ValNodesAt(vals[..|vals| - 1], i);
    }
  }

  /** The elements of an array are those of the list its kind names. */
  lemma ArrayShape(c: Context, a: Array)
    requires c.TreeValid() && a in c.arrs
    ensures c.ArrTree(a).kind == a.kind
    ensures a.kind == Unset ==> c.ArrTree(a).elems == []
    ensures a.kind == Values ==> |c.ArrTree(a).elems| == |a.val|
                                 && forall i :: 0 <= i < |a.val| ==> c.ArrTree(a).elems[i] == Val(a.val[i])
    ensures a.kind == Arrays ==> |c.ArrTree(a).elems| == |a.arr|
                                 && forall i :: 0 <= i < |a.arr| ==>
                                      && a.arr[i] in c.arrs && a.id < a.arr[i].id < |c.store|
                                      && c.ArrTree(a).elems[i] == c.ArrTree(a.arr[i])
    ensures a.kind == Tables ==> |c.ArrTree(a).elems| == |a.tab|
                                 && forall i :: 0 <= i < |a.tab| ==>
                                      && a.tab[i] in c.tabs && a.id < a.tab[i].id < |c.store|
                                      && c.ArrTree(a).elems[i] == c.TabTree(a.tab[i])
  {
    assert c.ArrOk(a);
    assert NodeOk(c.store, a.id);
    match a.kind
    case Unset =>
    case Values =>
      forall i | 0 <= i < |a.val| ensures c.ArrTree(a).elems[i] == Val(a.val[i]) { ValNodesAt(a.val, i); }
    case Arrays =>
      ArrayKids(c, a);
    case Tables =>
      TableKids(c, a);
  }

  lemma ArrayKids(c: Context, a: Array)
    requires c.TreeValid() && a in c.arrs && a.kind == Arrays && c.ArrOk(a) && NodeOk(c.store, a.id)
    ensures |c.ArrTree(a).elems| == |a.arr|
    ensures forall i :: 0 <= i < |a.arr| ==>
              && a.arr[i] in c.arrs && a.id < a.arr[i].id < |c.store|
              && c.ArrTree(a).elems[i] == c.ArrTree(a.arr[i])
  {
    ElementAt(c.store, a.id, true, 0);
    KidsAbove(c.store, a.id);
    forall i | 0 <= i < |a.arr|
      ensures a.arr[i] in c.arrs && a.id < a.arr[i].id < |c.store| && c.ArrTree(a).elems[i] == c.ArrTree(a.arr[i])
    {
      ElementAt(c.store, a.id, true, i);
      assert a.arr[i] in a.arr;
    }
  }

  lemma TableKids(c: Context, a: Array)
    requires c.TreeValid() && a in c.arrs && a.kind == Tables && c.ArrOk(a) && NodeOk(c.store, a.id)
    ensures |c.ArrTree(a).elems| == |a.tab|
    ensures forall i :: 0 <= i < |a.tab| ==>
              && a.tab[i] in c.tabs && a.id < a.tab[i].id < |c.store|
              && c.ArrTree(a).elems[i] == c.TabTree(a.tab[i])
  {
    ElementAt(c.store, a.id, false, 0);
    KidsAbove(c.store, a.id);
    forall i | 0 <= i < |a.tab|
      ensures a.tab[i] in c.tabs && a.id < a.tab[i].id < |c.store| && c.ArrTree(a).elems[i] == c.TabTree(a.tab[i])
    {
      ElementAt(c.store, a.id, false, i);
      assert a.tab[i] in a.tab;
    }
  }
}
