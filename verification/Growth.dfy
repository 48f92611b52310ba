/** What the builder steps do to the records, and to the tree they stand for
    (contrib/tomlc99/toml.c:585-758, 847-866, 1076-1100, 1155-1177). */
module Growth {
  import opened Text
  import opened Tree
  import opened Store

  // ---- places ----

  function IndexOf(ids: seq<nat>, c: nat): (j: nat)
    requires c in ids
    ensures j < |ids| && ids[j] == c
  {
    if ids[0] == c then 0 else 1 + IndexOf(ids[1..], c)
  }

  lemma {:induction false} IndexOfExtended(ids: seq<nat>, more: seq<nat>, c: nat)
    requires c in ids && ids <= more
    ensures IndexOf(more, c) == IndexOf(ids, c)
  {
    if ids[0] == c {
    } else {
      IndexOfExtended(ids[1..], more[1..], c);
    }
  }

  lemma {:induction false} IndexOfLast(ids: seq<nat>, c: nat)
    requires c !in ids
    ensures IndexOf(ids + [c], c) == |ids|
  {
    if ids == [] {
    } else {
      assert (ids + [c])[1..] == ids[1..] + [c];
      IndexOfLast(ids[1..], c);
    }
  }

  /** The list of its parent that a record stands in. */
  function Siblings(s: Store, i: nat): (ids: seq<nat>)
    requires StoreInv(s) && 0 < i < |s|
    ensures i in ids && s[i].parent < i
  {
    assert NodeOk(s, i);
    if s[i].ArrRec? then s[s[i].parent].arrs else s[s[i].parent].tabs
  }

  /** The step from its parent to a record. */
  function StepTo(s: Store, i: nat): Step
    requires StoreInv(s) && 0 < i < |s|
  {
    var ids := Siblings(s, i);
    if s[s[i].parent].TabRec? then K(s[i].key) else I(IndexOf(ids, i))
  }

  /** The address of a record in the tree of the root. */
  function AddrOf(s: Store, i: nat): Addr
    requires StoreInv(s) && i < |s|
    decreases i
  {
    if i == 0 then []
    else
      var ids := Siblings(s, i);
      AddrOf(s, s[i].parent) + [StepTo(s, i)]
  }

  lemma {:induction false} AddrSame(s: Store, u: Store, i: nat)
    requires StoreInv(s) && StoreInv(u) && i < |s| <= |u|
    requires forall j :: 0 <= j < |s| ==> SameId(s[j], u[j])
    ensures AddrOf(u, i) == AddrOf(s, i)
    decreases i
  {
    if i == 0 {
    } else {
      var ids := Siblings(s, i);
      var p := s[i].parent;
      assert SameId(s[i], u[i]) && SameId(s[p], u[p]);
      AddrSame(s, u, p);
      if s[p].ArrRec? { IndexOfExtended(ids, Siblings(u, i), i); }
    }
  }

  lemma ElementAt(s: Store, p: nat, isArr: bool, j: nat)
    requires StoreInv(s) && p < |s| && s[p].ArrRec? && NodeOk(s, p)
    requires j < |if isArr then s[p].arrs else s[p].tabs|
    ensures |TreeOf(s, p).elems| == |if isArr then s[p].arrs else s[p].tabs|
    ensures (if isArr then s[p].arrs else s[p].tabs)[j] < |s|
    ensures TreeOf(s, p).elems[j] == TreeOf(s, (if isArr then s[p].arrs else s[p].tabs)[j])
  {
    KidsAbove(s, p);
    if isArr { ElemsAt(s, p, s[p].arrs, j); } else { ElemsAt(s, p, s[p].tabs, j); }
  }

  lemma ChildOfParent(s: Store, i: nat)
    requires StoreInv(s) && 0 < i < |s| && s[i].parent < i
    ensures Child(TreeOf(s, s[i].parent), StepTo(s, i)) == Some(TreeOf(s, i))
  {
    var ids := Siblings(s, i);
    var p, j := s[i].parent, IndexOf(ids, i);
    assert NodeOk(s, p);
    if s[p].TabRec? { KidsOfTable(s, p, s[i].key); } else { ElementAt(s, p, s[i].ArrRec?, j); }
  }

  /** The tree of a record is what stands at its address. */
  lemma {:induction false} TreeAtAddr(s: Store, i: nat)
    requires StoreInv(s) && i < |s|
    ensures Get(TreeOf(s, 0), AddrOf(s, i)) == Some(TreeOf(s, i))
    decreases i
  {
    if i == 0 {
    } else {
      var ids := Siblings(s, i);
      var p := s[i].parent;
      TreeAtAddr(s, p);
      ChildOfParent(s, i);
      GetAppend(TreeOf(s, 0), AddrOf(s, p), [StepTo(s, i)]);
      assert Get(TreeOf(s, p), [StepTo(s, i)]) == Child(TreeOf(s, p), StepTo(s, i));
    }
  }

  // ---- growth below a record, seen from above ----

  lemma OtherKid(s: Store, u: Store, x: nat, c: nat)
    requires StoreInv(s) && StoreInv(u) && Grown(s, u, x) && 0 < x < |s| && 0 < c < |s| && c != x
    requires s[x].parent == s[c].parent && s[x].parent < x && s[c].parent < c
    ensures TreeOf(u, c) == TreeOf(s, c) && u[c].key == s[c].key
  {
    forall j | c <= j < |s| && InSub(s, j, c) ensures u[j] == s[j] { SiblingsDisjoint(s, j, c, x); }
    TreeSame(s, u, c);
    assert SameId(s[c], u[c]);
  }

  lemma ParentUnchanged(s: Store, u: Store, x: nat)
    requires StoreInv(s) && StoreInv(u) && Grown(s, u, x) && 0 < x < |s| && s[x].parent < x
    ensures u[s[x].parent] == s[s[x].parent]
  {
    if InSub(s, s[x].parent, x) { InSubAbove(s, s[x].parent, x); }
  }

  lemma KeysSame(s: Store, u: Store, p: nat)
    requires StoreInv(s) && StoreInv(u) && p < |s| <= |u| && s[p].TabRec? && u[p] == s[p]
    requires forall j :: 0 <= j < |s| ==> SameId(s[j], u[j])
    requires NodeOk(s, p) && NodeOk(u, p)
    ensures Keys(u, p) == Keys(s, p)
  {
    KidsAbove(s, p);
    assert IdKeys(u, s[p].arrs) == IdKeys(s, s[p].arrs);
    assert IdKeys(u, s[p].tabs) == IdKeys(s, s[p].tabs);
  }

  lemma TableKidReplaced(s: Store, u: Store, x: nat, k: string)
    requires StoreInv(s) && StoreInv(u) && Grown(s, u, x) && 0 < x < |s| && s[x].parent < x
    requires s[s[x].parent].TabRec?
    ensures var p := s[x].parent;
            Child(TreeOf(u, p), K(k)) == if k == s[x].key then Some(TreeOf(u, x)) else Child(TreeOf(s, p), K(k))
  {
    hide TreeOf;
    var p := s[x].parent;
    var ids := Siblings(s, x);
    ParentUnchanged(s, u, x);
    assert NodeOk(s, p) && NodeOk(u, p) && SameId(s[x], u[x]);
    KeysSame(s, u, p);
    KidsOfTable(s, p, k);
    KidsOfTable(u, p, k);
    KidsAbove(s, p);
    if k == s[x].key {
      var j := IndexOf(ids, x);
    } else if k in Keys(s, p) {
      KeyPlace(s, p, k);
      if j: nat :| j < |s[p].arrs| && s[s[p].arrs[j]].key == k {
        assert KidOk(s, p, s[p].arrs[j], true);
        OtherKid(s, u, x, s[p].arrs[j]);
      } else if j: nat :| j < |s[p].tabs| && s[s[p].tabs[j]].key == k {
        assert KidOk(s, p, s[p].tabs[j], false);
        OtherKid(s, u, x, s[p].tabs[j]);
      }
    }
  }

  lemma KeyPlace(s: Store, p: nat, k: string)
    requires StoreInv(s) && p < |s| && s[p].TabRec? && NodeOk(s, p) && k in Keys(s, p)
    ensures Above(s, p, s[p].arrs) && Above(s, p, s[p].tabs)
    ensures || (exists j: nat :: j < |s[p].kvals| && s[p].kvals[j].key == k)
            || (exists j: nat :: j < |s[p].arrs| && s[s[p].arrs[j]].key == k)
            || (exists j: nat :: j < |s[p].tabs| && s[s[p].tabs[j]].key == k)
  {
    KidsAbove(s, p);
    if k in KvKeys(s[p].kvals) {
      var j: nat :| j < |s[p].kvals| && KvKeys(s[p].kvals)[j] == k;
      assert s[p].kvals[j].key == k;
    } else if k in IdKeys(s, s[p].arrs) {
      var j: nat :| j < |s[p].arrs| && IdKeys(s, s[p].arrs)[j] == k;
      assert s[s[p].arrs[j]].key == k;
    } else {
      assert k in IdKeys(s, s[p].tabs);
      var j: nat :| j < |s[p].tabs| && IdKeys(s, s[p].tabs)[j] == k;
      assert s[s[p].tabs[j]].key == k;
    }
  }

  lemma ElementReplaced(s: Store, u: Store, x: nat)
    requires StoreInv(s) && StoreInv(u) && Grown(s, u, x) && 0 < x < |s| && s[x].parent < x
    requires s[s[x].parent].ArrRec?
    ensures var p := s[x].parent;
            TreeOf(u, p) == SetChild(TreeOf(s, p), StepTo(s, x), TreeOf(u, x))
  {
    var p := s[x].parent;
    var ids, isArr := Siblings(s, x), s[x].ArrRec?;
    var n := IndexOf(ids, x);
    ParentUnchanged(s, u, x);
    assert NodeOk(s, p) && NodeOk(u, p) && SameId(s[x], u[x]);
    KidsAbove(s, p);
    ElementAt(s, p, isArr, n);
    ElementAt(u, p, isArr, n);
    var goal := TreeOf(s, p).elems[n := TreeOf(u, x)];
    forall j | 0 <= j < |ids| ensures TreeOf(u, p).elems[j] == goal[j] {
      ElementAt(s, p, isArr, j);
      ElementAt(u, p, isArr, j);
      if j != n {
        assert KidOk(s, p, ids[j], isArr);
        OtherKid(s, u, x, ids[j]);
      }
    }
    assert TreeOf(u, p).elems == goal;
    ChildOfParent(s, x);
  }

  /** Growth inside a child replaces that child in the tree of the parent, and changes nothing else. */
  lemma KidReplaced(s: Store, u: Store, x: nat)
    requires StoreInv(s) && StoreInv(u) && Grown(s, u, x) && 0 < x < |s| && s[x].parent < x
    ensures Child(TreeOf(s, s[x].parent), StepTo(s, x)).Some?
    ensures TreeOf(u, s[x].parent) == SetChild(TreeOf(s, s[x].parent), StepTo(s, x), TreeOf(u, x))
  {
    var p := s[x].parent;
    ChildOfParent(s, x);
    if s[p].TabRec? {
      ParentUnchanged(s, u, x);
      var want := TreeOf(s, p).kids[s[x].key := TreeOf(u, x)];
      forall k ensures (k in TreeOf(u, p).kids <==> k in want) && (k in want ==> TreeOf(u, p).kids[k] == want[k]) {
        TableKidReplaced(s, u, x, k);
      }
      assert TreeOf(u, p).kids == want;
    } else {
      ElementReplaced(s, u, x);
    }
  }

  /** Growth at and below i replaces, in the whole tree, exactly what stands at the address of i. */
  lemma {:induction false} RootAfterGrowth(s: Store, u: Store, i: nat, x: nat)
    requires StoreInv(s) && StoreInv(u) && Grown(s, u, i) && i < |s| && x < |s| && InSub(s, i, x)
    ensures Get(TreeOf(s, 0), AddrOf(s, x)).Some?
    ensures TreeOf(u, 0) == Put(TreeOf(s, 0), AddrOf(s, x), TreeOf(u, x))
    decreases x
  {
    TreeAtAddr(s, x);
    if x == 0 {
    } else {
      var ids := Siblings(s, x);
      var p := s[x].parent;
      InSubOfKid(s, i, x, p);
      RootAfterGrowth(s, u, i, p);
      GrownAbove(s, u, i, x);
      KidReplaced(s, u, x);
      TreeAtAddr(s, p);
      PutChild(TreeOf(s, 0), AddrOf(s, p), StepTo(s, x), TreeOf(u, x));
    }
  }

  lemma GrownAbove(s: Store, u: Store, i: nat, x: nat)
    requires StoreInv(s) && Grown(s, u, i) && i < |s| && x < |s| && InSub(s, i, x)
    ensures Grown(s, u, x)
  {
    forall j | 0 <= j < |s| && !InSub(s, j, x) ensures u[j] == s[j] {
      if InSub(s, j, i) { InSubTrans(s, j, i, x); }
    }
  }

  // ---- filling a child after it has been created ----

  /** A new or opened child of a table is filled: the table has the filled child. */
  lemma KidFilled(s: Store, u: Store, x: nat, b: Node, k: string, n: Node)
    requires StoreInv(s) && StoreInv(u) && Grown(s, u, x) && 0 < x < |s| && s[x].parent < x
    requires s[s[x].parent].TabRec? && s[x].key == k && b.TabN? && TreeOf(s, s[x].parent) == SetKid(b, k, n)
    ensures TreeOf(u, s[x].parent) == SetKid(b, k, TreeOf(u, x))
  {
    KidReplaced(s, u, x);
    assert b.kids[k := n][k := TreeOf(u, x)] == b.kids[k := TreeOf(u, x)];
  }

  /** A new last element of an array is filled. */
  lemma ElementFilled(s: Store, u: Store, x: nat, kind: ArrKind, typ: char, es: seq<Node>, e: Node)
    requires StoreInv(s) && StoreInv(u) && Grown(s, u, x) && 0 < x < |s| && s[x].parent < x
    requires s[s[x].parent].ArrRec? && StepTo(s, x) == I(|es|)
    requires TreeOf(s, s[x].parent) == ArrN(kind, typ, es + [e])
    ensures TreeOf(u, s[x].parent) == ArrN(kind, typ, es + [TreeOf(u, x)])
  {
    KidReplaced(s, u, x);
    assert (es + [e])[|es| := TreeOf(u, x)] == es + [TreeOf(u, x)];
  }

  lemma ChildAddr(s: Store, x: nat)
    requires StoreInv(s) && 0 < x < |s|
    ensures s[x].parent < x && InSub(s, x, s[x].parent)
    ensures AddrOf(s, x) == AddrOf(s, s[x].parent) + [StepTo(s, x)]
  {
    var ids := Siblings(s, x);
    assert InSub(s, s[x].parent, s[x].parent);
  }

  /** Growth at p that made or opened the child x, then growth at x. */
  lemma GrownThroughKid(s: Store, u: Store, w: Store, p: nat, x: nat)
    requires StoreInv(s) && StoreInv(u) && StoreInv(w) && Grown(s, u, p) && Grown(u, w, x)
    requires p < x < |u| && u[x].parent == p
    ensures Grown(s, w, p)
  {
    assert InSub(u, p, p) && InSub(u, x, p);
    GrownTrans(s, u, w, p, x);
  }

  /** Growth at one record, step after step. */
  lemma GrownAgain(s: Store, u: Store, w: Store, p: nat)
    requires StoreInv(s) && StoreInv(u) && StoreInv(w) && Grown(s, u, p) && Grown(u, w, p) && p < |u|
    ensures Grown(s, w, p)
  {
    assert InSub(u, p, p);
    GrownTrans(s, u, w, p, p);
  }
}
