/** Every state the builder can reach. The steps are those of Steps, with the tests the builder makes
    before it takes them (contrib/tomlc99/toml.c:550-758, 847-866, 1076-1100, 1155-1177). */
module Reachable {
  import opened Text
  import opened Tree
  import opened Store
  import opened Steps

  datatype BStep =
    | Keyval(i: nat, key: string, raw: string)
    | KeyArray(i: nat, key: string)
    | KeyTable(i: nat, key: string, implicit: bool)
    | Explicit(i: nat)
    | ElemVal(i: nat, raw: string, typ: char)
    | ElemArray(i: nat)
    | ElemTable(i: nat, key: string)

  /** A key may be created in the table i: check_key does not find it. */
  predicate FreeKey(s: Store, i: nat, key: string) {
    i < |s| && s[i].TabRec? && NodeOk(s, i) && key !in Keys(s, i)
  }

  predicate Takes(s: Store, i: nat, kind: ArrKind) {
    i < |s| && s[i].ArrRec? && (s[i].kind == Unset || s[i].kind == kind)
  }

  predicate Allowed(s: Store, b: BStep) {
    match b
    case Keyval(i, key, _) => FreeKey(s, i, key)
    case KeyArray(i, key) => FreeKey(s, i, key)
    case KeyTable(i, key, _) => FreeKey(s, i, key)
    case Explicit(i) => i < |s| && s[i].TabRec?
    case ElemVal(i, _, _) => Takes(s, i, Values)
    case ElemArray(i) => Takes(s, i, Arrays)
    case ElemTable(i, _) => Takes(s, i, Tables)
  }

  function Take(s: Store, b: BStep): Store
    requires Allowed(s, b)
  {
    match b
    case Keyval(i, key, raw) => AddKeyval(s, i, key, raw)
    case KeyArray(i, key) => AddArr(s, i, key)
    case KeyTable(i, key, implicit) => AddTab(s, i, key, implicit)
    case Explicit(i) => MakeExplicit(s, i)
    case ElemVal(i, raw, typ) => PushVal(s, i, raw, typ)
    case ElemArray(i) => PushArr(s, i)
    case ElemTable(i, key) => PushTab(s, i, key)
  }

  /** The state after the steps, if each of them is allowed when its turn comes. */
  function After(s: Store, bs: seq<BStep>): Option<Store>
    decreases |bs|
  {
    if bs == [] then Some(s)
    else if Allowed(s, bs[0]) then After(Take(s, bs[0]), bs[1..])
    else None
  }

  const EMPTY: Store := [TabRec(0, "", false, [], [], [])]

  lemma TakeKeepsInv(s: Store, b: BStep)
    requires StoreInv(s) && Allowed(s, b)
    ensures StoreInv(Take(s, b))
  {
    match b
    case Keyval(i, key, raw) => AddKeyvalInv(s, i, key, raw);
    case KeyArray(i, key) => AddArrInv(s, i, key);
    case KeyTable(i, key, implicit) => AddTabInv(s, i, key, implicit);
    case Explicit(i) => MakeExplicitInv(s, i);
    case ElemVal(i, raw, typ) => PushValInv(s, i, raw, typ);
    case ElemArray(i) => PushArrInv(s, i);
    case ElemTable(i, key) => PushTabInv(s, i, key);
  }

  lemma {:induction false} AfterKeepsInv(s: Store, bs: seq<BStep>)
    requires StoreInv(s) && After(s, bs).Some?
    ensures StoreInv(After(s, bs).value)
    decreases |bs|
  {
    if bs == [] {
    } else {
      TakeKeepsInv(s, bs[0]);
      AfterKeepsInv(Take(s, bs[0]), bs[1..]);
    }
  }

  /** The child arrays and child tables of a record, in the order of its lists. */
  function Kids(s: Store, p: nat): seq<nat>
    requires p < |s|
  {
    s[p].arrs + s[p].tabs
  }

  /** c stands exactly once in the lists of its parent and in no other list. */
  lemma OneParent(s: Store, c: nat, p: nat)
    requires StoreInv(s) && 0 < c < |s| && p < |s|
    ensures c in Kids(s, p) <==> p == s[c].parent
    ensures NoDup(Kids(s, p))
  {
    assert NodeOk(s, c);
    KidsAbove(s, p);
    assert NodeOk(s, p);
    forall x | x in s[p].arrs ensures x !in s[p].tabs {
      var j :| 0 <= j < |s[p].arrs| && s[p].arrs[j] == x;
      assert KidOk(s, p, x, true);
    }
    NoDupPair(s[p].arrs, s[p].tabs);
    if c in s[p].arrs { var j :| 0 <= j < |s[p].arrs| && s[p].arrs[j] == c; }
    if c in s[p].tabs { var j :| 0 <= j < |s[p].tabs| && s[p].tabs[j] == c; }
  }

  lemma KindZeroIffEmpty(s: Store, i: nat)
    requires StoreInv(s) && i < |s| && s[i].ArrRec?
    ensures s[i].kind == Unset <==> TreeOf(s, i).elems == []
  {
    KidsAbove(s, i);
    assert NodeOk(s, i);
    var r := s[i];
    assert |TreeOf(s, i).elems| == |ValNodes(r.vals)| + |Elems(s, i, r.arrs)| + |Elems(s, i, r.tabs)|;
  }

  /** The records are one tree: keys are pairwise distinct across the three lists of a table, every record
      but the root has one parent and one place in its lists, every record is below the root, and an array
      has kind 0 exactly when it has no element. */
  ghost predicate OneTree(s: Store)
    requires StoreInv(s)
  {
    && (forall i :: 0 <= i < |s| ==> NodeOk(s, i) && InSub(s, i, 0))
    && (forall i :: 0 <= i < |s| && s[i].TabRec? && NodeOk(s, i) ==> NoDup(Keys(s, i)))
    && (forall c, p :: 0 < c < |s| && 0 <= p < |s| ==> (c in Kids(s, p) <==> p == s[c].parent) && NoDup(Kids(s, p)))
    && (forall i :: 0 <= i < |s| && s[i].ArrRec? ==> (s[i].kind == Unset <==> TreeOf(s, i).elems == []))
  }

  /** The invariant says so, in whatever state it holds. */
  lemma {:induction false} InvariantMeans(s: Store)
    requires StoreInv(s)
    ensures OneTree(s)
  {
    forall i | 0 <= i < |s| ensures InSub(s, i, 0) { InSubRoot(s, i); }
    forall c, p | 0 < c < |s| && 0 <= p < |s| ensures (c in Kids(s, p) <==> p == s[c].parent) && NoDup(Kids(s, p)) {
      OneParent(s, c, p);
    }
    forall i | 0 <= i < |s| && s[i].ArrRec? ensures s[i].kind == Unset <==> TreeOf(s, i).elems == [] {
      KindZeroIffEmpty(s, i);
    }
  }

  /** In every reachable state the records are one tree. */
  lemma {:induction false} EveryReachableState(bs: seq<BStep>)
    requires After(EMPTY, bs).Some?
    ensures StoreInv(After(EMPTY, bs).value) && OneTree(After(EMPTY, bs).value)
  {
    assert NodeOk(EMPTY, 0);
    AfterKeepsInv(EMPTY, bs);
    InvariantMeans(After(EMPTY, bs).value);
  }
}
