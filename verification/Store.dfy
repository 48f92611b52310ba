/** The tables and arrays of a parse as records numbered in the order of their creation: the shape of
    the heap that the builder grows (contrib/tomlc99/toml.c:227-263), the invariant every builder step
    keeps, and the tree it stands for. */
module Store {
  import opened Tree

  datatype KV = KV(key: string, raw: string)

  datatype Rec =
    | TabRec(parent: nat, key: string, implicit: bool, kvals: seq<KV>, arrs: seq<nat>, tabs: seq<nat>)
    | ArrRec(parent: nat, key: string, kind: ArrKind, typ: char, vals: seq<string>, arrs: seq<nat>, tabs: seq<nat>)

  type Store = seq<Rec>

  predicate NoDup<T(==)>(s: seq<T>) {
    forall i, j :: 0 <= i < j < |s| ==> s[i] != s[j]
  }

  /** c is a child of i: created later, of the right sort, and with i as its parent. */
  predicate KidOk(s: Store, i: nat, c: nat, isArr: bool)
    requires i < |s|
  {
    i < c < |s| && s[c].ArrRec? == isArr && s[c].parent == i
  }

  predicate KidsOk(s: Store, i: nat, ids: seq<nat>, isArr: bool)
    requires i < |s|
  {
    NoDup(ids) && forall j :: 0 <= j < |ids| ==> KidOk(s, i, ids[j], isArr)
  }

  /** Every record but the root stands in one child list of its parent. */
  predicate ParentOk(s: Store, i: nat)
    requires i < |s|
  {
    i > 0 ==> s[i].parent < i && i in if s[i].ArrRec? then s[s[i].parent].arrs else s[s[i].parent].tabs
  }

  function KvKeys(kvals: seq<KV>): (r: seq<string>)
    ensures |r| == |kvals| && forall j :: 0 <= j < |r| ==> r[j] == kvals[j].key
  {
    seq(|kvals|, j requires 0 <= j < |kvals| => kvals[j].key)
  }

  function IdKeys(s: Store, ids: seq<nat>): (r: seq<string>)
    requires forall j :: 0 <= j < |ids| ==> ids[j] < |s|
    ensures |r| == |ids| && forall j :: 0 <= j < |r| ==> r[j] == s[ids[j]].key
  {
    seq(|ids|, j requires 0 <= j < |ids| => s[ids[j]].key)
  }

  /** The keys of a table, in the order toml_key_in lists them. */
  function Keys(s: Store, i: nat): seq<string>
    requires i < |s| && s[i].TabRec? && KidsOk(s, i, s[i].arrs, true) && KidsOk(s, i, s[i].tabs, false)
  {
    KvKeys(s[i].kvals) + IdKeys(s, s[i].arrs) + IdKeys(s, s[i].tabs)
  }

  /** An array has elements of its kind only, and it has kind 0 exactly when it is empty. */
  predicate ArrayOk(r: Rec)
    requires r.ArrRec?
  {
    && (r.vals != [] <==> r.kind == Values)
    && (r.arrs != [] <==> r.kind == Arrays)
    && (r.tabs != [] <==> r.kind == Tables)
  }

  predicate NodeOk(s: Store, i: nat)
    requires i < |s|
  {
    && ParentOk(s, i)
    && KidsOk(s, i, s[i].arrs, true) && KidsOk(s, i, s[i].tabs, false)
    && (s[i].TabRec? ==> NoDup(Keys(s, i)))
    && (s[i].ArrRec? ==> ArrayOk(s[i]))
  }

  /** The invariant: one root, every other record has exactly one parent and one place in its lists, the
      keys of a table are pairwise distinct across its three lists, and arrays are of one kind. */
  predicate StoreInv(s: Store) {
    |s| > 0 && s[0].TabRec? && forall i :: 0 <= i < |s| ==> NodeOk(s, i)
  }

  // ---- the tree a record stands for ----

  function KvMap(kvals: seq<KV>): map<string, Node> {
    if kvals == [] then map[]
    else
      var n := |kvals| - 1;
      KvMap(kvals[..n])[kvals[n].key := Val(kvals[n].raw)]
  }

  function ValNodes(vals: seq<string>): (r: seq<Node>)
    ensures |r| == |vals|
  {
    if vals == [] then [] else ValNodes(vals[..|vals| - 1]) + [Val(vals[|vals| - 1])]
  }

  predicate Above(s: Store, i: nat, ids: seq<nat>) {
    forall j :: 0 <= j < |ids| ==> i < ids[j] < |s|
  }

  function KidMap(s: Store, i: nat, ids: seq<nat>): map<string, Node>
    requires StoreInv(s) && i < |s| && Above(s, i, ids)
    decreases |s| - i, 0, |ids|
  {
    if ids == [] then map[]
    else
      var n := |ids| - 1;
      KidMap(s, i, ids[..n])[s[ids[n]].key := TreeOf(s, ids[n])]
  }

  function Elems(s: Store, i: nat, ids: seq<nat>): (r: seq<Node>)
    requires StoreInv(s) && i < |s| && Above(s, i, ids)
    ensures |r| == |ids|
    decreases |s| - i, 0, |ids|
  {
    if ids == [] then []
    else
      var n := |ids| - 1;
      Elems(s, i, ids[..n]) + [TreeOf(s, ids[n])]
  }

  function TreeOf(s: Store, i: nat): (r: Node)
    requires StoreInv(s) && i < |s|
    ensures r.TabN? == s[i].TabRec? && r.ArrN? == s[i].ArrRec?
    decreases |s| - i, 1, 0
  {
    assert NodeOk(s, i);
    match s[i]
    case TabRec(_, _, implicit, kvals, arrs, tabs) =>
      assert forall j :: 0 <= j < |arrs| ==> KidOk(s, i, arrs[j], true);
      assert forall j :: 0 <= j < |tabs| ==> KidOk(s, i, tabs[j], false);
      TabN(implicit, KvMap(kvals) + KidMap(s, i, arrs) + KidMap(s, i, tabs))
    case ArrRec(_, _, kind, typ, vals, arrs, tabs) =>
      assert forall j :: 0 <= j < |arrs| ==> KidOk(s, i, arrs[j], true);
      assert forall j :: 0 <= j < |tabs| ==> KidOk(s, i, tabs[j], false);
      ArrN(kind, typ, ValNodes(vals) + Elems(s, i, arrs) + Elems(s, i, tabs))
  }

  lemma KidsAbove(s: Store, i: nat)
    requires StoreInv(s) && i < |s|
    ensures Above(s, i, s[i].arrs) && Above(s, i, s[i].tabs)
    ensures forall j :: 0 <= j < |s[i].arrs| ==> KidOk(s, i, s[i].arrs[j], true)
    ensures forall j :: 0 <= j < |s[i].tabs| ==> KidOk(s, i, s[i].tabs[j], false)
  {
    assert NodeOk(s, i);
    forall j | 0 <= j < |s[i].arrs| ensures i < s[i].arrs[j] < |s| { assert KidOk(s, i, s[i].arrs[j], true); }
    forall j | 0 <= j < |s[i].tabs| ensures i < s[i].tabs[j] < |s| { assert KidOk(s, i, s[i].tabs[j], false); }
  }

  // ---- maps and lists, key by key ----

  lemma {:induction false} KvMapAt(kvals: seq<KV>, k: string)
    ensures k in KvMap(kvals) <==> k in KvKeys(kvals)
    ensures NoDup(KvKeys(kvals)) ==> forall j :: 0 <= j < |kvals| && kvals[j].key == k ==>
            KvMap(kvals)[k] == Val(kvals[j].raw)
    decreases |kvals|
  {
    if kvals == [] {
    } else {
      var n := |kvals| - 1;
      KvMapAt(kvals[..n], k);
      assert KvKeys(kvals) == KvKeys(kvals[..n]) + [kvals[n].key];
      if NoDup(KvKeys(kvals)) {
        assert NoDup(KvKeys(kvals[..n]));
        forall j | 0 <= j < |kvals| && kvals[j].key == k ensures KvMap(kvals)[k] == Val(kvals[j].raw) {
          if j < n { assert KvKeys(kvals)[j] == k != KvKeys(kvals)[n]; assert kvals[..n][j] == kvals[j]; }
        }
      }
    }
  }

  lemma {:induction false} KidMapAt(s: Store, i: nat, ids: seq<nat>, k: string)
    requires StoreInv(s) && i < |s| && Above(s, i, ids)
    ensures k in KidMap(s, i, ids) <==> k in IdKeys(s, ids)
    ensures NoDup(IdKeys(s, ids)) ==>
              forall j :: 0 <= j < |ids| && s[ids[j]].key == k ==> KidMap(s, i, ids)[k] == TreeOf(s, ids[j])
    decreases |ids|
  {
    if ids == [] {
    } else {
      var n := |ids| - 1;
      KidMapAt(s, i, ids[..n], k);
      assert IdKeys(s, ids) == IdKeys(s, ids[..n]) + [s[ids[n]].key];
      if NoDup(IdKeys(s, ids)) {
        assert NoDup(IdKeys(s, ids[..n]));
        forall j | 0 <= j < |ids| && s[ids[j]].key == k ensures KidMap(s, i, ids)[k] == TreeOf(s, ids[j]) {
          if j < n { assert IdKeys(s, ids)[j] == k != IdKeys(s, ids)[n]; assert ids[..n][j] == ids[j]; }
        }
      }
    }
  }

  lemma {:induction false} ElemsAt(s: Store, i: nat, ids: seq<nat>, j: nat)
    requires StoreInv(s) && i < |s| && Above(s, i, ids) && j < |ids|
    ensures Elems(s, i, ids)[j] == TreeOf(s, ids[j])
    decreases |ids|
  {
    var n := |ids| - 1;
    if j >= n {
    } else {
      ElemsAt(s, i, ids[..n], j);
    }
  }

  lemma NoDupPair<T>(a: seq<T>, b: seq<T>)
    ensures NoDup(a + b) <==> NoDup(a) && NoDup(b) && forall x :: x in a ==> x !in b
  {
    var all := a + b;
    if NoDup(all) {
      forall i, j | 0 <= i < j < |a| ensures a[i] != a[j] { assert all[i] == a[i] && all[j] == a[j]; }
      forall i, j | 0 <= i < j < |b| ensures b[i] != b[j] { assert all[|a| + i] == b[i] && all[|a| + j] == b[j]; }
      forall i, j | 0 <= i < |a| && 0 <= j < |b| ensures a[i] != b[j] { assert all[i] == a[i] && all[|a| + j] == b[j]; }
    }
    if NoDup(a) && NoDup(b) && forall x :: x in a ==> x !in b {
      forall i, j | 0 <= i < j < |all| ensures all[i] != all[j] {
        if i < |a| <= j { assert all[i] in a && all[j] in b; }
      }
    }
  }

  lemma NoDupParts<T>(a: seq<T>, b: seq<T>, c: seq<T>)
    ensures NoDup(a + b + c) <==>
            && NoDup(a) && NoDup(b) && NoDup(c)
            && (forall x :: x in a ==> x !in b && x !in c) && (forall x :: x in b ==> x !in c)
  {
    NoDupPair(a, b);
    NoDupPair(a + b, c);
    assert forall x :: x in a + b <==> x in a || x in b;
  }

  /** The children of a table, key by key: exactly the listed keys have one. */
  lemma KidsOfTable(s: Store, i: nat, k: string)
    requires StoreInv(s) && i < |s| && s[i].TabRec? && NodeOk(s, i)
    ensures Above(s, i, s[i].arrs) && Above(s, i, s[i].tabs)
    ensures k in TreeOf(s, i).kids <==> k in Keys(s, i)
    ensures forall j :: 0 <= j < |s[i].kvals| && s[i].kvals[j].key == k ==>
              k in TreeOf(s, i).kids && TreeOf(s, i).kids[k] == Val(s[i].kvals[j].raw)
    ensures forall j :: 0 <= j < |s[i].arrs| && s[s[i].arrs[j]].key == k ==>
              k in TreeOf(s, i).kids && TreeOf(s, i).kids[k] == TreeOf(s, s[i].arrs[j])
    ensures forall j :: 0 <= j < |s[i].tabs| && s[s[i].tabs[j]].key == k ==>
              k in TreeOf(s, i).kids && TreeOf(s, i).kids[k] == TreeOf(s, s[i].tabs[j])
  {
    KidsAbove(s, i);
    NoDupParts(KvKeys(s[i].kvals), IdKeys(s, s[i].arrs), IdKeys(s, s[i].tabs));
    KvMapAt(s[i].kvals, k);
    KidMapAt(s, i, s[i].arrs, k);
    KidMapAt(s, i, s[i].tabs, k);
    forall j | 0 <= j < |s[i].kvals| && s[i].kvals[j].key == k ensures k in KvKeys(s[i].kvals) {
      assert KvKeys(s[i].kvals)[j] == k;
    }
    forall j | 0 <= j < |s[i].arrs| && s[s[i].arrs[j]].key == k ensures k in IdKeys(s, s[i].arrs) {
      assert IdKeys(s, s[i].arrs)[j] == k;
    }
    forall j | 0 <= j < |s[i].tabs| && s[s[i].tabs[j]].key == k ensures k in IdKeys(s, s[i].tabs) {
      assert IdKeys(s, s[i].tabs)[j] == k;
    }
  }

  // ---- subtrees ----

  /** j is i or stands below it. */
  predicate InSub(s: Store, j: nat, i: nat)
    requires StoreInv(s) && j < |s|
    decreases j
  {
    j == i || (j > i && (assert NodeOk(s, j); InSub(s, s[j].parent, i)))
  }

  lemma {:induction false} InSubAbove(s: Store, j: nat, i: nat)
    requires StoreInv(s) && j < |s| && InSub(s, j, i)
    ensures i <= j
  {
  }

  /** What is below a child of i is below i. */
  lemma {:induction false} InSubOfKid(s: Store, j: nat, c: nat, i: nat)
    requires StoreInv(s) && j < |s| && c < |s| && c > i && s[c].parent == i && InSub(s, j, c)
    ensures InSub(s, j, i)
    decreases j
  {
    assert NodeOk(s, j);
    if j == c {
    } else {
      InSubAbove(s, j, c);
      InSubOfKid(s, s[j].parent, c, i);
    }
  }

  lemma {:induction false} InSubTrans(s: Store, j: nat, i: nat, h: nat)
    requires StoreInv(s) && j < |s| && i < |s| && InSub(s, j, i) && InSub(s, i, h)
    ensures InSub(s, j, h)
    decreases j
  {
    if j == i {
    } else {
      assert NodeOk(s, j);
      InSubAbove(s, i, h);
      InSubTrans(s, s[j].parent, i, h);
    }
  }

  lemma InSubRoot(s: Store, j: nat)
    requires StoreInv(s) && j < |s|
    ensures InSub(s, j, 0)
    decreases j
  {
    if j > 0 {
      assert NodeOk(s, j);
      InSubRoot(s, s[j].parent);
    }
  }

  /** The subtrees of two children of one record are disjoint. */
  lemma {:induction false} SiblingsDisjoint(s: Store, j: nat, c: nat, d: nat)
    requires StoreInv(s) && j < |s| && 0 < c < |s| && 0 < d < |s| && c != d && s[c].parent == s[d].parent
    requires s[c].parent < c && s[d].parent < d
    ensures !(InSub(s, j, c) && InSub(s, j, d))
    decreases j
  {
    if InSub(s, j, c) && InSub(s, j, d) {
      InSubAbove(s, j, c);
      InSubAbove(s, j, d);
      assert NodeOk(s, j);
      if j != c && j != d { SiblingsDisjoint(s, s[j].parent, c, d); }
      if j == c { InSubAbove(s, s[j].parent, d); }
      if j == d { InSubAbove(s, s[j].parent, c); }
    }
  }

  // ---- growth ----

  predicate SameId(r: Rec, q: Rec) {
    r.TabRec? == q.TabRec? && r.parent == q.parent && r.key == q.key && r.arrs <= q.arrs && r.tabs <= q.tabs
  }

  /** u is s with new records, and with changes to old ones only at i and below it; old records keep
      their parent, key and place. */
  ghost predicate Grown(s: Store, u: Store, i: nat)
    requires StoreInv(s)
  {
    && |s| <= |u|
    && (forall j :: 0 <= j < |s| ==> SameId(s[j], u[j]))
    && (forall j :: 0 <= j < |s| && !InSub(s, j, i) ==> u[j] == s[j])
  }

  lemma {:induction false} InSubSame(s: Store, u: Store, j: nat, i: nat)
    requires StoreInv(s) && StoreInv(u) && |s| <= |u| && j < |s|
    requires forall j :: 0 <= j < |s| ==> SameId(s[j], u[j])
    ensures InSub(u, j, i) == InSub(s, j, i)
    decreases j
  {
    assert SameId(s[j], u[j]) && NodeOk(s, j) && NodeOk(u, j);
    if j <= i {
    } else {
      InSubSame(s, u, s[j].parent, i);
    }
  }

  lemma GrownRefl(s: Store, i: nat)
    requires StoreInv(s)
    ensures Grown(s, s, i)
  {
  }

  /** Growth at i, then growth at a record that is new or below i. */
  lemma GrownTrans(s: Store, u: Store, w: Store, i: nat, x: nat)
    requires StoreInv(s) && StoreInv(u) && StoreInv(w) && Grown(s, u, i) && Grown(u, w, x)
    requires x < |u| && InSub(u, x, i)
    ensures Grown(s, w, i)
  {
    forall j | 0 <= j < |s| ensures SameId(s[j], w[j]) && (!InSub(s, j, i) ==> w[j] == s[j]) {
      assert SameId(s[j], u[j]) && SameId(u[j], w[j]);
      if !InSub(s, j, i) {
        InSubSame(s, u, j, i);
        if InSub(u, j, x) { InSubTrans(u, j, x, i); }
      }
    }
  }

  /** A subtree in which nothing changed stands for the same tree. */
  lemma {:induction false} TreeSame(s: Store, u: Store, i: nat)
    requires StoreInv(s) && StoreInv(u) && i < |s| <= |u|
    requires forall j :: i <= j < |s| && InSub(s, j, i) ==> u[j] == s[j]
    ensures TreeOf(u, i) == TreeOf(s, i)
    decreases |s| - i, 1, 0
  {
    assert InSub(s, i, i);
    KidsAbove(s, i);
    KidsAbove(u, i);
    assert forall j :: 0 <= j < |s[i].arrs| ==> KidOk(s, i, s[i].arrs[j], true);
    if s[i].TabRec? {
      KidMapSame(s, u, i, s[i].arrs, true);
      KidMapSame(s, u, i, s[i].tabs, false);
    } else {
      ElemsSame(s, u, i, s[i].arrs, true);
      ElemsSame(s, u, i, s[i].tabs, false);
    }
  }

  lemma KidSame(s: Store, u: Store, i: nat, c: nat, isArr: bool)
    requires StoreInv(s) && StoreInv(u) && i < |s| <= |u| && KidOk(s, i, c, isArr)
    requires forall j :: i <= j < |s| && InSub(s, j, i) ==> u[j] == s[j]
    ensures u[c].key == s[c].key && TreeOf(u, c) == TreeOf(s, c)
    decreases |s| - i, 0, 0
  {
    assert InSub(s, c, i) by { InSubOfKid(s, c, c, i); }
    forall j | c <= j < |s| && InSub(s, j, c) ensures u[j] == s[j] { InSubOfKid(s, j, c, i); }
    TreeSame(s, u, c);
  }

  lemma {:induction false} KidMapSame(s: Store, u: Store, i: nat, ids: seq<nat>, isArr: bool)
    requires StoreInv(s) && StoreInv(u) && i < |s| <= |u| && Above(s, i, ids) && Above(u, i, ids)
    requires forall j :: 0 <= j < |ids| ==> KidOk(s, i, ids[j], isArr)
    requires forall j :: i <= j < |s| && InSub(s, j, i) ==> u[j] == s[j]
    ensures KidMap(u, i, ids) == KidMap(s, i, ids)
    decreases |s| - i, 0, 1 + |ids|
  {
    if ids == [] {
    } else {
      var n := |ids| - 1;
      KidMapSame(s, u, i, ids[..n], isArr);
      KidSame(s, u, i, ids[n], isArr);
    }
  }

  lemma {:induction false} ElemsSame(s: Store, u: Store, i: nat, ids: seq<nat>, isArr: bool)
    requires StoreInv(s) && StoreInv(u) && i < |s| <= |u| && Above(s, i, ids) && Above(u, i, ids)
    requires forall j :: 0 <= j < |ids| ==> KidOk(s, i, ids[j], isArr)
    requires forall j :: i <= j < |s| && InSub(s, j, i) ==> u[j] == s[j]
    ensures Elems(u, i, ids) == Elems(s, i, ids)
    decreases |s| - i, 0, 1 + |ids|
  {
    if ids == [] {
    } else {
      var n := |ids| - 1;
      ElemsSame(s, u, i, ids[..n], isArr);
      KidSame(s, u, i, ids[n], isArr);
    }
  }
}
