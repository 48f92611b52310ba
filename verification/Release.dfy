/** toml_free (contrib/tomlc99/toml.c:1328-1388): the records in the order in which their memory is given
    back. An array looks at its kind, a table at all its lists. */
module Release {
  import opened Tree
  import opened Store

  function FreedAll(s: Store, i: nat, ids: seq<nat>): seq<nat>
    requires StoreInv(s) && i < |s| && Above(s, i, ids)
    decreases |s| - i, 0, |ids|
  {
    if ids == [] then []
    else
      var n := |ids| - 1;
      FreedAll(s, i, ids[..n]) + Freed(s, ids[n])
  }

  /** xfree_tab and xfree_arr. */
  function Freed(s: Store, i: nat): seq<nat>
    requires StoreInv(s) && i < |s|
    decreases |s| - i, 1, 0
  {
    KidsAbove(s, i);
    match s[i]
    case TabRec(_, _, _, _, arrs, tabs) => FreedAll(s, i, arrs) + FreedAll(s, i, tabs) + [i]
    case ArrRec(_, _, kind, _, _, arrs, tabs) =>
      (match kind
       case Arrays => FreedAll(s, i, arrs) + [i]
       case Tables => FreedAll(s, i, tabs) + [i]
       case _ => [i])
  }

  /** j stands at or below one of the records ids. */
  ghost predicate Below(s: Store, j: nat, ids: seq<nat>)
    requires StoreInv(s) && j < |s|
  {
    exists k :: 0 <= k < |ids| && InSub(s, j, ids[k])
  }

  /** Everything at and below the children ids of i is freed once, and nothing else. */
  lemma {:induction false} FreedAllExactly(s: Store, i: nat, ids: seq<nat>, isArr: bool)
    requires StoreInv(s) && i < |s| && Above(s, i, ids) && KidsOk(s, i, ids, isArr)
    ensures NoDup(FreedAll(s, i, ids))
    ensures forall j :: j in FreedAll(s, i, ids) ==> j < |s|
    ensures forall j :: 0 <= j < |s| ==> (j in FreedAll(s, i, ids) <==> Below(s, j, ids))
    decreases |s| - i, 0, |ids|
  {
    if ids == [] {
    } else {
      var n := |ids| - 1;
      var front, last := ids[..n], ids[n];
      assert KidOk(s, i, last, isArr);
      assert KidsOk(s, i, front, isArr);
      FreedAllExactly(s, i, front, isArr);
      FreedExactly(s, last);
      forall j | 0 <= j < |s| ensures Below(s, j, ids) <==>
          Below(s, j, front) || InSub(s, j, last) { BelowSnoc(s, j, ids); }
      forall j | j in FreedAll(s, i, front) ensures j !in Freed(s, last) { OneChild(s, i, ids, isArr, j); }
      NoDupPair(FreedAll(s, i, front), Freed(s, last));
    }
  }

  lemma BelowSnoc(s: Store, j: nat, ids: seq<nat>)
    requires StoreInv(s) && j < |s| && ids != []
    ensures Below(s, j, ids) <==> Below(s, j, ids[..|ids| - 1]) || InSub(s, j, ids[|ids| - 1])
  {
    if k :| 0 <= k < |ids| && InSub(s, j, ids[k]) {
      if k < |ids| - 1 { assert ids[..|ids| - 1][k] == ids[k]; }
    }
    var front := ids[..|ids| - 1];
    if k :| 0 <= k < |front| && InSub(s, j, front[k]) { assert ids[k] == front[k]; }
  }

  lemma OneChild(s: Store, i: nat, ids: seq<nat>, isArr: bool, j: nat)
    requires StoreInv(s) && i < |s| && KidsOk(s, i, ids, isArr) && ids != [] && j < |s| && Below(s, j, ids[..|ids| - 1])
    ensures !InSub(s, j, ids[|ids| - 1])
  {
    var n := |ids| - 1;
    var k :| 0 <= k < n && InSub(s, j, ids[..n][k]);
    assert KidOk(s, i, ids[k], isArr) && KidOk(s, i, ids[n], isArr) && ids[k] != ids[n];
    SiblingsDisjoint(s, j, ids[k], ids[n]);
  }

  /** What is below i is at or below one of its children. */
  lemma {:induction false} ThroughChild(s: Store, j: nat, i: nat) returns (c: nat)
    requires StoreInv(s) && j < |s| && i < |s| && j != i && InSub(s, j, i)
    ensures i < c < |s| && s[c].parent == i && InSub(s, j, c) && (c in if s[c].ArrRec? then s[i].arrs else s[i].tabs)
    decreases j
  {
    assert NodeOk(s, j);
    if s[j].parent == i {
      c := j;
    } else {
      InSubAbove(s, s[j].parent, i);
      c := ThroughChild(s, s[j].parent, i);
      InSubAbove(s, s[j].parent, c);
    }
  }

  lemma BelowChildren(s: Store, j: nat, i: nat)
    requires StoreInv(s) && j < |s| && i < |s|
    ensures InSub(s, j, i) <==> j == i || Below(s, j, s[i].arrs) || Below(s, j, s[i].tabs)
    ensures Below(s, j, s[i].arrs) || Below(s, j, s[i].tabs) ==> j > i
    ensures !(Below(s, j, s[i].arrs) && Below(s, j, s[i].tabs))
  {
    KidsAbove(s, i);
    if InSub(s, j, i) && j != i {
      var c := ThroughChild(s, j, i);
      var ids := if s[c].ArrRec? then s[i].arrs else s[i].tabs;
      var k :| 0 <= k < |ids| && ids[k] == c;
    }
    if k: nat :| k < |s[i].arrs| && InSub(s, j, s[i].arrs[k]) {
      assert KidOk(s, i, s[i].arrs[k], true);
      InSubAbove(s, j, s[i].arrs[k]);
      InSubOfKid(s, j, s[i].arrs[k], i);
      if l: nat :| l < |s[i].tabs| && InSub(s, j, s[i].tabs[l]) {
        assert KidOk(s, i, s[i].tabs[l], false);
        SiblingsDisjoint(s, j, s[i].arrs[k], s[i].tabs[l]);
      }
    }
    if k: nat :| k < |s[i].tabs| && InSub(s, j, s[i].tabs[k]) {
      assert KidOk(s, i, s[i].tabs[k], false);
      InSubAbove(s, j, s[i].tabs[k]);
      InSubOfKid(s, j, s[i].tabs[k], i);
    }
  }

  /** Freeing i frees each record at and below i exactly once, and no other record. */
  lemma {:induction false} FreedExactly(s: Store, i: nat)
    requires StoreInv(s) && i < |s|
    ensures NoDup(Freed(s, i))
    ensures forall j :: j in Freed(s, i) ==> j < |s|
    ensures forall j :: 0 <= j < |s| ==> (j in Freed(s, i) <==> InSub(s, j, i))
    decreases |s| - i, 1, 0
  {
    KidsAbove(s, i);
    assert NodeOk(s, i);
    var a, t := FreedAll(s, i, s[i].arrs), FreedAll(s, i, s[i].tabs);
    FreedAllExactly(s, i, s[i].arrs, true);
    FreedAllExactly(s, i, s[i].tabs, false);
    forall j | 0 <= j < |s|
      ensures InSub(s, j, i) <==> j == i || j in a || j in t
      ensures !(j in a && j in t) && (j in a || j in t ==> j > i)
    {
      BelowChildren(s, j, i);
    }
    assert i !in a && i !in t;
    NoDupPair(a, t);
    NoDupPair(a + t, [i]);
    FreedIs(s, i);
  }

  /** An array of one kind has nothing in the lists that its kind does not name. */
  lemma FreedIs(s: Store, i: nat)
    requires StoreInv(s) && i < |s| && Above(s, i, s[i].arrs) && Above(s, i, s[i].tabs)
    ensures Freed(s, i) == FreedAll(s, i, s[i].arrs) + FreedAll(s, i, s[i].tabs) + [i]
  {
    hide InSub, TreeOf, KidsOk, ParentOk, Keys, NoDup;
    assert NodeOk(s, i);
    assert FreedAll(s, i, []) == [];
    if s[i].ArrRec? {
      assert s[i].kind != Arrays ==> s[i].arrs == [];
      assert s[i].kind != Tables ==> s[i].tabs == [];
    }
  }

  /** toml_free on the root visits every record of the tree exactly once. */
  lemma FreeVisitsOnce(s: Store)
    requires StoreInv(s)
    ensures NoDup(Freed(s, 0)) && forall j :: 0 <= j < |s| <==> j in Freed(s, 0)
  {
    FreedExactly(s, 0);
    forall j | 0 <= j < |s| ensures InSub(s, j, 0) { InSubRoot(s, j); }
  }
}
