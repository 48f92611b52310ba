/** The state of the parser between two lines, as a store and the current record, seen as a tree and an
    address: what one round of walk_tabpath and the end of parse_select do to it
    (contrib/tomlc99/toml.c:1043-1110, 1130-1180). */
module Places {
  import opened Text
  import opened Tree
  import opened Headers
  import opened Store
  import opened Growth

  function SelAt(s: Store, i: nat): (d: Sel)
    requires StoreInv(s) && i < |s| && s[i].TabRec?
    ensures d.Valid() && d.root.TabN? && d.Table() == TreeOf(s, i)
  {
    TreeAtAddr(s, i);
    Sel(TreeOf(s, 0), AddrOf(s, i))
  }

  /** Going down to a table that is there. */
  lemma IntoTable(s: Store, i: nat, x: nat, k: string)
    requires StoreInv(s) && i < x < |s| && s[i].TabRec? && s[x].TabRec? && s[x].parent == i && s[x].key == k
    ensures WalkStep(SelAt(s, i), k) == Some(SelAt(s, x))
  {
    ChildAddr(s, x);
    ChildOfParent(s, x);
  }

  lemma LastElement(s: Store, x: nat)
    requires StoreInv(s) && 0 < x < |s| && s[x].ArrRec? && s[x].kind == Tables
    ensures s[x].tabs != []
    ensures var y := s[x].tabs[|s[x].tabs| - 1];
            && x < y < |s| && s[y].TabRec? && s[y].parent == x
            && Crossable(TreeOf(s, x)) && StepTo(s, y) == Last(TreeOf(s, x))
  {
    assert NodeOk(s, x);
    var n := |s[x].tabs| - 1;
    var y := s[x].tabs[n];
    assert KidOk(s, x, y, false);
    var j := IndexOf(Siblings(s, y), y);
    ElementAt(s, x, false, n);
  }

  /** Crossing an array of tables: the last element is taken; an array of kind 't' has one. */
  lemma AcrossArray(s: Store, i: nat, x: nat, k: string)
    requires StoreInv(s) && i < x < |s| && s[i].TabRec? && s[x].ArrRec? && s[x].parent == i && s[x].key == k
    requires s[x].kind == Tables
    ensures s[x].tabs != []
    ensures var y := s[x].tabs[|s[x].tabs| - 1];
            y < |s| && s[y].TabRec? && WalkStep(SelAt(s, i), k) == Some(SelAt(s, y))
  {
    LastElement(s, x);
    var y := s[x].tabs[|s[x].tabs| - 1];
    ChildAddr(s, x);
    ChildAddr(s, y);
    ChildOfParent(s, x);
    assert (AddrOf(s, i) + [K(k)]) + [StepTo(s, y)] == AddrOf(s, i) + [K(k), StepTo(s, y)];
  }

  /** Growth at the table i that gives it the child x under the key k. */
  lemma NewChild(s: Store, u: Store, i: nat, x: nat, k: string)
    requires StoreInv(s) && StoreInv(u) && Grown(s, u, i) && i < |s| && s[i].TabRec?
    requires i < x < |u| && u[x].TabRec? && u[x].parent == i && u[x].key == k && u[i].TabRec?
    requires TreeOf(u, i) == SetKid(TreeOf(s, i), k, TreeOf(u, x))
    ensures Sel(Put(TreeOf(s, 0), SelAt(s, i).at, SetKid(TreeOf(s, i), k, TreeOf(u, x))), AddrOf(s, i) + [K(k)])
            == SelAt(u, x)
  {
    RootSeen(s, u, i);
    AddrSame(s, u, i);
    ChildAddr(u, x);
  }

  lemma RootSeen(s: Store, u: Store, i: nat)
    requires StoreInv(s) && StoreInv(u) && Grown(s, u, i) && i < |s|
    ensures Get(TreeOf(s, 0), AddrOf(s, i)).Some?
    ensures TreeOf(u, 0) == Put(TreeOf(s, 0), AddrOf(s, i), TreeOf(u, i))
  {
    assert InSub(s, i, i);
    RootAfterGrowth(s, u, i, i);
  }

  /** Growth at the current table itself. */
  lemma SameSel(s: Store, u: Store, i: nat)
    requires StoreInv(s) && StoreInv(u) && Grown(s, u, i) && i < |s| && s[i].TabRec? && u[i].TabRec?
    ensures Get(TreeOf(s, 0), AddrOf(s, i)).Some?
    ensures SelAt(u, i) == Sel(Put(TreeOf(s, 0), AddrOf(s, i), TreeOf(u, i)), AddrOf(s, i))
  {
    RootSeen(s, u, i);
    AddrSame(s, u, i);
  }

  /** A missing key: an implicit table is created and entered. */
  lemma IntoImplicit(s: Store, u: Store, i: nat, x: nat, k: string)
    requires StoreInv(s) && StoreInv(u) && Grown(s, u, i) && i < |s| && s[i].TabRec?
    requires i < x < |u| && u[x].TabRec? && u[x].parent == i && u[x].key == k && u[i].TabRec?
    requires Child(TreeOf(s, i), K(k)) == None && TreeOf(u, x) == IMPLICIT_TABLE
    requires TreeOf(u, i) == SetKid(TreeOf(s, i), k, IMPLICIT_TABLE)
    ensures WalkStep(SelAt(s, i), k) == Some(SelAt(u, x))
  {
    NewChild(s, u, i, x, k);
  }

  /** The end of [..k]. */
  lemma OpenedSingle(s: Store, u: Store, i: nat, x: nat, k: string)
    requires StoreInv(s) && StoreInv(u) && Grown(s, u, i) && i < |s| && s[i].TabRec?
    requires i < x < |u| && u[x].TabRec? && u[x].parent == i && u[x].key == k && u[i].TabRec?
    requires Some(TreeOf(u, x)) == OpenedTable(Child(TreeOf(s, i), K(k)))
    requires TreeOf(u, i) == SetKid(TreeOf(s, i), k, TreeOf(u, x))
    ensures Open(SelAt(s, i), false, k) == Some(SelAt(u, x))
  {
    NewChild(s, u, i, x, k);
  }

  /** The end of [[..k]]: the array a stands under the key k, and the table x is appended to it. */
  lemma OpenedDouble(s: Store, u: Store, w: Store, i: nat, a: nat, x: nat, k: string)
    requires StoreInv(s) && StoreInv(u) && StoreInv(w) && Grown(s, u, i) && Grown(u, w, a)
    requires i < |s| && s[i].TabRec? && i < a < |u| && u[a].ArrRec? && u[a].parent == i && u[a].key == k && u[i].TabRec?
    requires a < x < |w| && w[x].TabRec? && w[x].parent == a && w[a].ArrRec?
    requires TreeOf(u, i) == TreeOf(s, i) || TreeOf(u, i) == SetKid(TreeOf(s, i), k, NEW_ARRAY)
    requires OpenedArray(Child(TreeOf(s, i), K(k))) == Some(TreeOf(w, a)) && StepTo(w, x) == Last(TreeOf(w, a))
    ensures Open(SelAt(s, i), true, k) == Some(SelAt(w, x))
  {
    DoubleSel(s, u, w, i, a, x, k);
    OpenIs(SelAt(s, i), k, TreeOf(w, a));
  }

  /** The array after one more table, in terms of the child that was there. */
  lemma Appended(c: Option<Node>, e: Node, n: Node)
    requires e == (if c.None? then NEW_ARRAY else c.value) && e.ArrN? && (e.kind == Unset || e.kind == Tables)
    requires n == ArrN(Tables, e.typ, e.elems + [NEW_TABLE])
    ensures OpenedArray(c) == Some(n) && Last(n) == I(|e.elems|)
  {
    assert NEW_ARRAY.elems + [NEW_TABLE] == [NEW_TABLE];
  }

  /** [[..k]] fails on a child that is not an array, or an array of something else. */
  lemma OpenFails(d: Sel, k: string)
    requires d.Valid()
    ensures var c := Child(d.Table(), K(k));
            Open(d, true, k).None? <==> c.Some? && !(c.value.ArrN? && (c.value.kind == Unset || c.value.kind == Tables))
  {
  }

  lemma OpenIs(d: Sel, k: string, n: Node)
    requires d.Valid() && OpenedArray(Child(d.Table(), K(k))) == Some(n)
    ensures Open(d, true, k) == Some(Sel(Put(d.root, d.at, SetKid(d.Table(), k, n)), d.at + [K(k), Last(n)]))
  {
  }

  lemma DoubleSel(s: Store, u: Store, w: Store, i: nat, a: nat, x: nat, k: string)
    requires StoreInv(s) && StoreInv(u) && StoreInv(w) && Grown(s, u, i) && Grown(u, w, a)
    requires i < |s| && s[i].TabRec? && i < a < |u| && u[a].ArrRec? && u[a].parent == i && u[a].key == k && u[i].TabRec?
    requires a < x < |w| && w[x].TabRec? && w[x].parent == a && w[a].ArrRec?
    requires TreeOf(u, i) == TreeOf(s, i) || TreeOf(u, i) == SetKid(TreeOf(s, i), k, NEW_ARRAY)
    ensures SelAt(w, x) == Sel(Put(TreeOf(s, 0), SelAt(s, i).at, SetKid(TreeOf(s, i), k, TreeOf(w, a))),
                               AddrOf(s, i) + [K(k), StepTo(w, x)])
  {
    assert SameId(u[a], w[a]) && SameId(u[i], w[i]);
    DoubleParts(s, u, w, i, a, x, k);
  }

  lemma DoubleParts(s: Store, u: Store, w: Store, i: nat, a: nat, x: nat, k: string)
    requires StoreInv(s) && StoreInv(u) && StoreInv(w) && Grown(s, u, i) && Grown(u, w, a)
    requires i < |s| && s[i].TabRec? && i < a < |u| && u[a].ArrRec? && u[a].parent == i && u[a].key == k && u[i].TabRec?
    requires a < x < |w| && w[x].TabRec? && w[x].parent == a
    requires w[a].ArrRec? && w[a].parent == i && w[a].key == k && w[i].TabRec?
    requires TreeOf(u, i) == TreeOf(s, i) || TreeOf(u, i) == SetKid(TreeOf(s, i), k, NEW_ARRAY)
    ensures Get(TreeOf(s, 0), AddrOf(s, i)).Some?
    ensures TreeOf(w, 0) == Put(TreeOf(s, 0), AddrOf(s, i), SetKid(TreeOf(s, i), k, TreeOf(w, a)))
    ensures AddrOf(w, x) == AddrOf(s, i) + [K(k), StepTo(w, x)]
  {
    hide StoreInv, TreeOf, Grown;
    GrownThroughKid(s, u, w, i, a);
    ArrayFilled(u, w, a, TreeOf(s, i), k);
    RootSeen(s, w, i);
    DoubleAddr(s, w, i, a, x, k);
  }

  lemma ArrayFilled(u: Store, w: Store, a: nat, t: Node, k: string)
    requires StoreInv(u) && StoreInv(w) && Grown(u, w, a) && 0 < a < |u| && u[a].key == k && u[a].parent < a
    requires t.TabN? && u[u[a].parent].TabRec?
    requires TreeOf(u, u[a].parent) == t || TreeOf(u, u[a].parent) == SetKid(t, k, NEW_ARRAY)
    ensures TreeOf(w, u[a].parent) == SetKid(t, k, TreeOf(w, a))
  {
    KidReplaced(u, w, a);
    assert t.kids[k := NEW_ARRAY][k := TreeOf(w, a)] == t.kids[k := TreeOf(w, a)];
  }

  lemma DoubleAddr(s: Store, w: Store, i: nat, a: nat, x: nat, k: string)
    requires StoreInv(s) && StoreInv(w) && Grown(s, w, i) && i < |s|
    requires i < a < |w| && w[a].parent == i && w[a].key == k && w[i].TabRec?
    requires a < x < |w| && w[x].parent == a
    ensures AddrOf(w, x) == AddrOf(s, i) + [K(k), StepTo(w, x)]
  {
    AddrSame(s, w, i);
    ChildAddr(w, a);
    ChildAddr(w, x);
    assert (AddrOf(s, i) + [K(k)]) + [StepTo(w, x)] == AddrOf(s, i) + [K(k), StepTo(w, x)];
  }
}
