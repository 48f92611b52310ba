/** The builder steps on the records. Each keeps the invariant, changes only the record it is given and
    adds at most one, and has the effect on the tree that its name says
    (contrib/tomlc99/toml.c:585-758, 847-866, 1076-1100, 1155-1177). */
module Steps {
  import opened Tree
  import opened Store

  function AddKeyval(s: Store, i: nat, k: string, raw: string): Store
    requires i < |s| && s[i].TabRec?
  {
    s[i := s[i].(kvals := s[i].kvals + [KV(k, raw)])]
  }

  function AddArr(s: Store, i: nat, k: string): Store
    requires i < |s| && s[i].TabRec?
  {
    var r := s[i];
    s[i := TabRec(r.parent, r.key, r.implicit, r.kvals, r.arrs + [|s|], r.tabs)] +
        [ArrRec(i, k, Unset, '\0', [], [], [])]
  }

  function AddTab(s: Store, i: nat, k: string, implicit: bool): Store
    requires i < |s| && s[i].TabRec?
  {
    var r := s[i];
    s[i := TabRec(r.parent, r.key, r.implicit, r.kvals, r.arrs, r.tabs + [|s|])] + [TabRec(i, k, implicit, [], [], [])]
  }

  function MakeExplicit(s: Store, i: nat): Store
    requires i < |s| && s[i].TabRec?
  {
    s[i := s[i].(implicit := false)]
  }

  function PushVal(s: Store, i: nat, raw: string, typ: char): Store
    requires i < |s| && s[i].ArrRec?
  {
    s[i := s[i].(kind := Values, typ := typ, vals := s[i].vals + [raw])]
  }

  function PushArr(s: Store, i: nat): Store
    requires i < |s| && s[i].ArrRec?
  {
    s[i := s[i].(kind := Arrays, arrs := s[i].arrs + [|s|])] + [ArrRec(i, "", Unset, '\0', [], [], [])]
  }

  function PushTab(s: Store, i: nat, key: string): Store
    requires i < |s| && s[i].ArrRec?
  {
    s[i := s[i].(kind := Tables, tabs := s[i].tabs + [|s|])] + [TabRec(i, key, false, [], [], [])]
  }

  // ---- the invariant ----

  /** u comes from s by a change at i that keeps its identity, and new records. */
  ghost predicate StepAt(s: Store, u: Store, i: nat) {
    && i < |s| <= |u|
    && (forall j :: 0 <= j < |s| ==> SameId(s[j], u[j]))
    && (forall j :: 0 <= j < |s| && j != i ==> u[j] == s[j])
  }

  lemma StepGrows(s: Store, u: Store, i: nat)
    requires StoreInv(s) && StepAt(s, u, i)
    ensures Grown(s, u, i)
  {
    assert InSub(s, i, i);
  }

  lemma ListsKept(s: Store, u: Store, i: nat, j: nat)
    requires StoreInv(s) && StepAt(s, u, i) && j < |s|
    ensures KidsOk(u, j, s[j].arrs, true) && KidsOk(u, j, s[j].tabs, false) && ParentOk(u, j)
    ensures s[j].TabRec? && NodeOk(s, j) ==>
              IdKeys(u, s[j].arrs) == IdKeys(s, s[j].arrs) && IdKeys(u, s[j].tabs) == IdKeys(s, s[j].tabs)
  {
    assert NodeOk(s, j) && SameId(s[j], u[j]);
    forall n | 0 <= n < |s[j].arrs| ensures KidOk(u, j, s[j].arrs[n], true) {
      assert KidOk(s, j, s[j].arrs[n], true);
      assert SameId(s[s[j].arrs[n]], u[s[j].arrs[n]]);
    }
    forall n | 0 <= n < |s[j].tabs| ensures KidOk(u, j, s[j].tabs[n], false) {
      assert KidOk(s, j, s[j].tabs[n], false);
      assert SameId(s[s[j].tabs[n]], u[s[j].tabs[n]]);
    }
    if j > 0 { assert SameId(s[s[j].parent], u[s[j].parent]); }
  }

  lemma OthersOk(s: Store, u: Store, i: nat, j: nat)
    requires StoreInv(s) && StepAt(s, u, i) && j < |s| && j != i
    ensures NodeOk(u, j)
  {
    ListsKept(s, u, i, j);
    assert NodeOk(s, j);
  }

  lemma InvAfter(s: Store, u: Store, i: nat)
    requires StoreInv(s) && StepAt(s, u, i) && NodeOk(u, i)
    requires forall j :: |s| <= j < |u| ==> NodeOk(u, j)
    ensures StoreInv(u) && Grown(s, u, i)
  {
    assert SameId(s[0], u[0]);
    forall j | 0 <= j < |u| ensures NodeOk(u, j) {
      if j < |s| && j != i { OthersOk(s, u, i, j); }
    }
    StepGrows(s, u, i);
  }

  /** The list ids with the new record at its end. */
  lemma ListExtended(s: Store, u: Store, i: nat, ids: seq<nat>, isArr: bool)
    requires StoreInv(s) && StepAt(s, u, i) && |u| == |s| + 1 && KidsOk(s, i, ids, isArr) && KidsOk(u, i, ids, isArr)
    requires u[|s|].parent == i && u[|s|].ArrRec? == isArr
    ensures KidsOk(u, i, ids + [|s|], isArr)
  {
    var more := ids + [|s|];
    forall n | 0 <= n < |more| ensures KidOk(u, i, more[n], isArr) {
      if n < |ids| { assert KidOk(u, i, ids[n], isArr); }
    }
    forall a, b | 0 <= a < b < |more| ensures more[a] != more[b] {
      assert KidOk(s, i, ids[a], isArr);
    }
  }

  /** A fresh key goes to the end of one of the three lists of a table. */
  lemma FreshKey(a: seq<string>, b: seq<string>, c: seq<string>, k: string)
    requires NoDup(a + b + c) && k !in a + b + c
    ensures NoDup((a + [k]) + b + c) && NoDup(a + (b + [k]) + c) && NoDup(a + b + (c + [k]))
  {
    NoDupParts(a, b, c);
    NoDupPair(a, [k]);
    NoDupPair(b, [k]);
    NoDupPair(c, [k]);
    NoDupParts(a + [k], b, c);
    NoDupParts(a, b + [k], c);
    NoDupParts(a, b, c + [k]);
  }

  lemma AddKeyvalInv(s: Store, i: nat, k: string, raw: string)
    requires StoreInv(s) && i < |s| && s[i].TabRec? && NodeOk(s, i) && k !in Keys(s, i)
    ensures StoreInv(AddKeyval(s, i, k, raw)) && Grown(s, AddKeyval(s, i, k, raw), i)
  {
    var u := AddKeyval(s, i, k, raw);
    ListsKept(s, u, i, i);
    assert KvKeys(u[i].kvals) == KvKeys(s[i].kvals) + [k];
    FreshKey(KvKeys(s[i].kvals), IdKeys(s, s[i].arrs), IdKeys(s, s[i].tabs), k);
    InvAfter(s, u, i);
  }

  lemma MakeExplicitInv(s: Store, i: nat)
    requires StoreInv(s) && i < |s| && s[i].TabRec?
    ensures StoreInv(MakeExplicit(s, i)) && Grown(s, MakeExplicit(s, i), i)
  {
    var u := MakeExplicit(s, i);
    ListsKept(s, u, i, i);
    assert NodeOk(s, i);
    InvAfter(s, u, i);
  }

  lemma NewNodeOk(s: Store, u: Store, i: nat, isArr: bool)
    requires StoreInv(s) && StepAt(s, u, i) && |u| == |s| + 1 && u[|s|].ArrRec? == isArr && u[|s|].parent == i
    requires u[|s|].arrs == [] && u[|s|].tabs == []
    requires isArr ==> u[|s|].kind == Unset && u[|s|].vals == []
    requires !isArr ==> u[|s|].kvals == []
    requires |s| in if isArr then u[i].arrs else u[i].tabs
    ensures NodeOk(u, |s|)
  {
  }

  lemma AddArrInv(s: Store, i: nat, k: string)
    requires StoreInv(s) && i < |s| && s[i].TabRec? && NodeOk(s, i) && k !in Keys(s, i)
    ensures StoreInv(AddArr(s, i, k)) && Grown(s, AddArr(s, i, k), i)
  {
    var u := AddArr(s, i, k);
    assert u[i].arrs[|s[i].arrs|] == |s|;
    assert SameId(s[i], u[i]);
    ListsKept(s, u, i, i);
    NewNodeOk(s, u, i, true);
    ListExtended(s, u, i, s[i].arrs, true);
    assert IdKeys(u, u[i].arrs) == IdKeys(s, s[i].arrs) + [k];
    FreshKey(KvKeys(s[i].kvals), IdKeys(s, s[i].arrs), IdKeys(s, s[i].tabs), k);
    InvAfter(s, u, i);
  }

  lemma AddTabInv(s: Store, i: nat, k: string, implicit: bool)
    requires StoreInv(s) && i < |s| && s[i].TabRec? && NodeOk(s, i) && k !in Keys(s, i)
    ensures StoreInv(AddTab(s, i, k, implicit)) && Grown(s, AddTab(s, i, k, implicit), i)
  {
    var u := AddTab(s, i, k, implicit);
    assert u[i].tabs[|s[i].tabs|] == |s|;
    assert SameId(s[i], u[i]);
    ListsKept(s, u, i, i);
    NewNodeOk(s, u, i, false);
    ListExtended(s, u, i, s[i].tabs, false);
    assert IdKeys(u, u[i].tabs) == IdKeys(s, s[i].tabs) + [k];
    FreshKey(KvKeys(s[i].kvals), IdKeys(s, s[i].arrs), IdKeys(s, s[i].tabs), k);
    InvAfter(s, u, i);
  }

  lemma PushValInv(s: Store, i: nat, raw: string, typ: char)
    requires StoreInv(s) && i < |s| && s[i].ArrRec? && (s[i].kind == Unset || s[i].kind == Values)
    ensures StoreInv(PushVal(s, i, raw, typ)) && Grown(s, PushVal(s, i, raw, typ), i)
  {
    var u := PushVal(s, i, raw, typ);
    ListsKept(s, u, i, i);
    assert NodeOk(s, i);
    InvAfter(s, u, i);
  }

  lemma PushArrInv(s: Store, i: nat)
    requires StoreInv(s) && i < |s| && s[i].ArrRec? && (s[i].kind == Unset || s[i].kind == Arrays)
    ensures StoreInv(PushArr(s, i)) && Grown(s, PushArr(s, i), i)
  {
    var u := PushArr(s, i);
    assert u[i].arrs[|s[i].arrs|] == |s|;
    assert SameId(s[i], u[i]) && NodeOk(s, i);
    ListsKept(s, u, i, i);
    NewNodeOk(s, u, i, true);
    ListExtended(s, u, i, s[i].arrs, true);
    InvAfter(s, u, i);
  }

  lemma PushTabInv(s: Store, i: nat, key: string)
    requires StoreInv(s) && i < |s| && s[i].ArrRec? && (s[i].kind == Unset || s[i].kind == Tables)
    ensures StoreInv(PushTab(s, i, key)) && Grown(s, PushTab(s, i, key), i)
  {
    var u := PushTab(s, i, key);
    assert u[i].tabs[|s[i].tabs|] == |s|;
    assert SameId(s[i], u[i]) && NodeOk(s, i);
    ListsKept(s, u, i, i);
    NewNodeOk(s, u, i, false);
    ListExtended(s, u, i, s[i].tabs, false);
    InvAfter(s, u, i);
  }

  // ---- the tree ----

  lemma KidKept(s: Store, u: Store, i: nat, c: nat, isArr: bool)
    requires StoreInv(s) && StoreInv(u) && StepAt(s, u, i) && KidOk(s, i, c, isArr)
    ensures TreeOf(u, c) == TreeOf(s, c) && u[c].key == s[c].key
  {
    assert SameId(s[c], u[c]);
    TreeSame(s, u, c);
  }

  lemma {:induction false} KidMapKept(s: Store, u: Store, i: nat, ids: seq<nat>, isArr: bool)
    requires StoreInv(s) && StoreInv(u) && StepAt(s, u, i) && Above(s, i, ids) && Above(u, i, ids)
    requires forall j :: 0 <= j < |ids| ==> KidOk(s, i, ids[j], isArr)
    ensures KidMap(u, i, ids) == KidMap(s, i, ids)
    decreases |ids|
  {
    if ids == [] {
    } else {
      KidMapKept(s, u, i, ids[..|ids| - 1], isArr);
      KidKept(s, u, i, ids[|ids| - 1], isArr);
    }
  }

  lemma {:induction false} ElemsKept(s: Store, u: Store, i: nat, ids: seq<nat>, isArr: bool)
    requires StoreInv(s) && StoreInv(u) && StepAt(s, u, i) && Above(s, i, ids) && Above(u, i, ids)
    requires forall j :: 0 <= j < |ids| ==> KidOk(s, i, ids[j], isArr)
    ensures Elems(u, i, ids) == Elems(s, i, ids)
    decreases |ids|
  {
    if ids == [] {
    } else {
      ElemsKept(s, u, i, ids[..|ids| - 1], isArr);
      KidKept(s, u, i, ids[|ids| - 1], isArr);
    }
  }

  /** The maps of the old children lists, seen in the new records. */
  lemma MapsKept(s: Store, u: Store, i: nat)
    requires StoreInv(s) && StoreInv(u) && StepAt(s, u, i)
    ensures Above(s, i, s[i].arrs) && Above(s, i, s[i].tabs) && Above(u, i, s[i].arrs) && Above(u, i, s[i].tabs)
    ensures KidMap(u, i, s[i].arrs) == KidMap(s, i, s[i].arrs) && KidMap(u, i, s[i].tabs) == KidMap(s, i, s[i].tabs)
    ensures Elems(u, i, s[i].arrs) == Elems(s, i, s[i].arrs) && Elems(u, i, s[i].tabs) == Elems(s, i, s[i].tabs)
  {
    KidsAbove(s, i);
    KidMapKept(s, u, i, s[i].arrs, true);
    KidMapKept(s, u, i, s[i].tabs, false);
    ElemsKept(s, u, i, s[i].arrs, true);
    ElemsKept(s, u, i, s[i].tabs, false);
  }

  /** A fresh key is in none of the three maps of a table. */
  lemma FreshInMaps(s: Store, i: nat, k: string)
    requires StoreInv(s) && i < |s| && s[i].TabRec? && NodeOk(s, i) && k !in Keys(s, i)
    ensures Above(s, i, s[i].arrs) && Above(s, i, s[i].tabs)
    ensures k !in KvMap(s[i].kvals) && k !in KidMap(s, i, s[i].arrs) && k !in KidMap(s, i, s[i].tabs)
  {
    KidsAbove(s, i);
    KvMapAt(s[i].kvals, k);
    KidMapAt(s, i, s[i].arrs, k);
    KidMapAt(s, i, s[i].tabs, k);
  }

  lemma MapsPlus(a: map<string, Node>, b: map<string, Node>, c: map<string, Node>, k: string, v: Node)
    requires k !in b && k !in c
    ensures a[k := v] + b + c == (a + b + c)[k := v]
    ensures k !in a ==> a + b[k := v] + c == (a + b + c)[k := v]
    ensures a + b + c[k := v] == (a + b + c)[k := v]
  {
  }

  lemma KvMapSnoc(kvals: seq<KV>, k: string, raw: string)
    ensures KvMap(kvals + [KV(k, raw)]) == KvMap(kvals)[k := Val(raw)]
  {
    assert (kvals + [KV(k, raw)])[..|kvals|] == kvals;
  }

  lemma KidMapSnoc(u: Store, i: nat, ids: seq<nat>, c: nat)
    requires StoreInv(u) && i < c < |u| && Above(u, i, ids)
    ensures Above(u, i, ids + [c])
    ensures KidMap(u, i, ids + [c]) == KidMap(u, i, ids)[u[c].key := TreeOf(u, c)]
  {
    assert (ids + [c])[..|ids|] == ids;
  }

  lemma ElemsSnoc(u: Store, i: nat, ids: seq<nat>, c: nat)
    requires StoreInv(u) && i < c < |u| && Above(u, i, ids)
    ensures Above(u, i, ids + [c])
    ensures Elems(u, i, ids + [c]) == Elems(u, i, ids) + [TreeOf(u, c)]
  {
    assert (ids + [c])[..|ids|] == ids;
  }

  lemma AddKeyvalTree(s: Store, i: nat, k: string, raw: string)
    requires StoreInv(s) && i < |s| && s[i].TabRec? && NodeOk(s, i) && k !in Keys(s, i)
    ensures var u := AddKeyval(s, i, k, raw);
            StoreInv(u) && TreeOf(u, i) == SetKid(TreeOf(s, i), k, Val(raw))
  {
    var u := AddKeyval(s, i, k, raw);
    AddKeyvalInv(s, i, k, raw);
    MapsKept(s, u, i);
    FreshInMaps(s, i, k);
    KvMapSnoc(s[i].kvals, k, raw);
    MapsPlus(KvMap(s[i].kvals), KidMap(s, i, s[i].arrs), KidMap(s, i, s[i].tabs), k, Val(raw));
  }

  lemma MakeExplicitTree(s: Store, i: nat)
    requires StoreInv(s) && i < |s| && s[i].TabRec?
    ensures var u := MakeExplicit(s, i);
            StoreInv(u) && TreeOf(u, i) == TreeOf(s, i).(implicit := false)
  {
    MakeExplicitInv(s, i);
    MapsKept(s, MakeExplicit(s, i), i);
  }

  lemma NewArrayTree(u: Store, n: nat)
    requires StoreInv(u) && n < |u| && u[n].ArrRec? && u[n].kind == Unset && u[n].typ == '\0'
    ensures TreeOf(u, n) == NEW_ARRAY
  {
    assert NodeOk(u, n);
  }

  lemma NewTableTree(u: Store, n: nat)
    requires StoreInv(u) && n < |u| && u[n].TabRec? && u[n].kvals == [] && u[n].arrs == [] && u[n].tabs == []
    ensures TreeOf(u, n) == TabN(u[n].implicit, map[])
  {
  }

  lemma AddArrTree(s: Store, i: nat, k: string)
    requires StoreInv(s) && i < |s| && s[i].TabRec? && NodeOk(s, i) && k !in Keys(s, i)
    ensures var u := AddArr(s, i, k);
            StoreInv(u) && TreeOf(u, i) == SetKid(TreeOf(s, i), k, NEW_ARRAY) && TreeOf(u, |s|) == NEW_ARRAY
  {
    var u := AddArr(s, i, k);
    AddArrInv(s, i, k);
    MapsKept(s, u, i);
    FreshInMaps(s, i, k);
    NewArrayTree(u, |s|);
    KidMapSnoc(u, i, s[i].arrs, |s|);
    MapsPlus(KvMap(s[i].kvals), KidMap(s, i, s[i].arrs), KidMap(s, i, s[i].tabs), k, NEW_ARRAY);
  }

  lemma AddTabTree(s: Store, i: nat, k: string, implicit: bool)
    requires StoreInv(s) && i < |s| && s[i].TabRec? && NodeOk(s, i) && k !in Keys(s, i)
    ensures var u := AddTab(s, i, k, implicit);
            && StoreInv(u) && TreeOf(u, |s|) == TabN(implicit, map[])
            && TreeOf(u, i) == SetKid(TreeOf(s, i), k, TabN(implicit, map[]))
  {
    var u := AddTab(s, i, k, implicit);
    AddTabInv(s, i, k, implicit);
    MapsKept(s, u, i);
    FreshInMaps(s, i, k);
    NewTableTree(u, |s|);
    KidMapSnoc(u, i, s[i].tabs, |s|);
    MapsPlus(KvMap(s[i].kvals), KidMap(s, i, s[i].arrs), KidMap(s, i, s[i].tabs), k, TabN(implicit, map[]));
  }

  lemma PushValTree(s: Store, i: nat, raw: string, typ: char)
    requires StoreInv(s) && i < |s| && s[i].ArrRec? && (s[i].kind == Unset || s[i].kind == Values)
    ensures var u := PushVal(s, i, raw, typ);
            StoreInv(u) && TreeOf(u, i) == ArrN(Values, typ, TreeOf(s, i).elems + [Val(raw)])
  {
    var u := PushVal(s, i, raw, typ);
    PushValInv(s, i, raw, typ);
    ValuesTree(s, i);
    ValuesTree(u, i);
    assert u[i].vals[..|s[i].vals|] == s[i].vals;
  }

  lemma ValuesTree(s: Store, i: nat)
    requires StoreInv(s) && i < |s| && s[i].ArrRec? && (s[i].kind == Unset || s[i].kind == Values)
    ensures TreeOf(s, i) == ArrN(s[i].kind, s[i].typ, ValNodes(s[i].vals))
  {
    assert NodeOk(s, i);
    assert s[i].arrs == [] && s[i].tabs == [];
    assert Elems(s, i, []) == [];
  }

  /** An array that holds no values shows its element arrays or tables. */
  lemma ArrayElems(s: Store, i: nat)
    requires StoreInv(s) && i < |s| && s[i].ArrRec? && s[i].vals == []
    ensures Above(s, i, s[i].arrs) && Above(s, i, s[i].tabs)
    ensures s[i].tabs == [] ==> TreeOf(s, i).elems == Elems(s, i, s[i].arrs)
    ensures s[i].arrs == [] ==> TreeOf(s, i).elems == Elems(s, i, s[i].tabs)
  {
    KidsAbove(s, i);
    assert ValNodes([]) == [];
  }

  lemma PushArrTree(s: Store, i: nat)
    requires StoreInv(s) && i < |s| && s[i].ArrRec? && (s[i].kind == Unset || s[i].kind == Arrays)
    ensures var u := PushArr(s, i);
            && StoreInv(u) && TreeOf(u, |s|) == NEW_ARRAY
            && TreeOf(u, i) == ArrN(Arrays, s[i].typ, TreeOf(s, i).elems + [NEW_ARRAY])
  {
    var u := PushArr(s, i);
    PushArrInv(s, i);
    assert NodeOk(s, i);
    MapsKept(s, u, i);
    NewArrayTree(u, |s|);
    ElemsSnoc(u, i, s[i].arrs, |s|);
    assert s[i].vals == [] && s[i].tabs == [];
    ArrayElems(s, i);
    ArrayElems(u, i);
  }

  lemma PushTabTree(s: Store, i: nat, key: string)
    requires StoreInv(s) && i < |s| && s[i].ArrRec? && (s[i].kind == Unset || s[i].kind == Tables)
    ensures var u := PushTab(s, i, key);
            && StoreInv(u) && TreeOf(u, |s|) == NEW_TABLE
            && TreeOf(u, i) == ArrN(Tables, s[i].typ, TreeOf(s, i).elems + [NEW_TABLE])
  {
    var u := PushTab(s, i, key);
    PushTabInv(s, i, key);
    assert NodeOk(s, i);
    MapsKept(s, u, i);
    NewTableTree(u, |s|);
    ElemsSnoc(u, i, s[i].tabs, |s|);
    assert s[i].vals == [] && s[i].arrs == [];
    ArrayElems(s, i);
    ArrayElems(u, i);
  }
}
