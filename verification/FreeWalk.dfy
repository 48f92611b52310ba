/** toml_free as the walk over the objects that it is (contrib/tomlc99/toml.c:1328-1388). */
module FreeWalk {
  import opened Store
  import opened Release
  import opened Builder

  /** What is given back to the allocator. */
  datatype Obj = TableObj(t: Table) | ArrayObj(a: Array)

  ghost function IdOf(o: Obj): nat {
    match o case TableObj(t) => t.id case ArrayObj(a) => a.id
  }

  /** The object belongs to the tree of the context. */
  ghost predicate Owned(c: Context, o: Obj)
    reads c
  {
    match o case TableObj(t) => t in c.tabs case ArrayObj(a) => a in c.arrs
  }

  /** The log lists objects of the tree, with the records ids. */
  ghost predicate Logs(c: Context, log: seq<Obj>, ids: seq<nat>)
    reads c
  {
    |log| == |ids| && forall i :: 0 <= i < |log| ==> Owned(c, log[i]) && IdOf(log[i]) == ids[i]
  }

  lemma LogsAppend(c: Context, log: seq<Obj>, ids: seq<nat>, more: seq<Obj>, moreIds: seq<nat>)
    requires Logs(c, log, ids) && Logs(c, more, moreIds)
    ensures Logs(c, log + more, ids + moreIds)
  {
  }

  lemma FreedAllSnoc(s: Store, i: nat, ids: seq<nat>, n: nat)
    requires StoreInv(s) && i < |s| && Above(s, i, ids) && n < |ids|
    ensures Above(s, i, ids[..n]) && Above(s, i, ids[..n + 1])
    ensures FreedAll(s, i, ids[..n + 1]) == FreedAll(s, i, ids[..n]) + Freed(s, ids[n])
  {
    assert ids[..n + 1][..n] == ids[..n];
  }

  /** What a member of an array list is. */
  lemma ArrAt(c: Context, i: nat, arr: seq<Array>, ids: seq<nat>, n: nat)
    requires c.TreeValid() && i < |c.store| && Above(c.store, i, ids) && ids == ArrIds(arr) && n < |arr|
    requires forall a :: a in arr ==> a in c.arrs
    ensures arr[n] in c.arrs && arr[n].id == ids[n] && i < ids[n] < |c.store|
  {
    assert arr[n] in arr;
  }

  lemma TabAt(c: Context, i: nat, tab: seq<Table>, ids: seq<nat>, n: nat)
    requires c.TreeValid() && i < |c.store| && Above(c.store, i, ids) && ids == TabIds(tab) && n < |tab|
    requires forall t :: t in tab ==> t in c.tabs
    ensures tab[n] in c.tabs && tab[n].id == ids[n] && i < ids[n] < |c.store|
  {
    assert tab[n] in tab;
  }

  /** The loops over lists of arrays. */
  method FreeArrays(c: Context, ghost i: nat, arr: seq<Array>, ghost ids: seq<nat>) returns (log: seq<Obj>)
    requires c.TreeValid() && i < |c.store| && Above(c.store, i, ids) && ids == ArrIds(arr)
    requires forall a :: a in arr ==> a in c.arrs
    ensures Logs(c, log, FreedAll(c.store, i, ids))
    decreases |c.store| - i, 0
  {
    hide StoreInv, Context.Rep, Freed;
    log := [];
    var n := 0;
    while n < |arr|
      invariant n <= |arr| && Logs(c, log, FreedAll(c.store, i, ids[..n]))
    {
      ArrAt(c, i, arr, ids, n);
      FreedAllSnoc(c.store, i, ids, n);
      var more := FreeArray(c, arr[n]);
      LogsAppend(c, log, FreedAll(c.store, i, ids[..n]), more, Freed(c.store, ids[n]));
      log := log + more;
      n := n + 1;
    }
    assert ids[..n] == ids;
  }

  method FreeTables(c: Context, ghost i: nat, tab: seq<Table>, ghost ids: seq<nat>) returns (log: seq<Obj>)
    requires c.TreeValid() && i < |c.store| && Above(c.store, i, ids) && ids == TabIds(tab)
    requires forall t :: t in tab ==> t in c.tabs
    ensures Logs(c, log, FreedAll(c.store, i, ids))
    decreases |c.store| - i, 0
  {
    hide StoreInv, Context.Rep, Freed;
    log := [];
    var n := 0;
    while n < |tab|
      invariant n <= |tab| && Logs(c, log, FreedAll(c.store, i, ids[..n]))
    {
      TabAt(c, i, tab, ids, n);
      FreedAllSnoc(c.store, i, ids, n);
      var more := FreeTable(c, tab[n]);
      LogsAppend(c, log, FreedAll(c.store, i, ids[..n]), more, Freed(c.store, ids[n]));
      log := log + more;
      n := n + 1;
    }
    assert ids[..n] == ids;
  }

  /** xfree_arr */
  method FreeArray(c: Context, a: Array) returns (log: seq<Obj>)
    requires c.TreeValid() && a in c.arrs && a.id < |c.store|
    ensures Logs(c, log, Freed(c.store, a.id))
    decreases |c.store| - a.id, 1
  {
    hide StoreInv, Context.Rep, FreedAll;
    c.ArrFacts(a);
    KidsAbove(c.store, a.id);
    log := [];
    match a.kind {
      case Arrays => log := FreeArrays(c, a.id, a.arr, c.store[a.id].arrs);
      case Tables => log := FreeTables(c, a.id, a.tab, c.store[a.id].tabs);
      case _ =>
    }
    log := log + [ArrayObj(a)];
  }

  /** xfree_tab */
  method FreeTable(c: Context, t: Table) returns (log: seq<Obj>)
    requires c.TreeValid() && t in c.tabs && t.id < |c.store|
    ensures Logs(c, log, Freed(c.store, t.id))
    decreases |c.store| - t.id, 1
  {
    hide StoreInv, Context.Rep, FreedAll;
    c.TabFacts(t);
    KidsAbove(c.store, t.id);
    var arrs := FreeArrays(c, t.id, t.arr, c.store[t.id].arrs);
    var tabs := FreeTables(c, t.id, t.tab, c.store[t.id].tabs);
    log := arrs + tabs + [TableObj(t)];
  }

  /** toml_free on the root: every object of the tree is freed exactly once, and nothing else is. */
  method Free(c: Context) returns (log: seq<Obj>)
    requires c.TreeValid() && c.root in c.tabs && c.root.id == 0
    ensures NoDup(log) && forall o :: o in log <==> Owned(c, o)
  {
    hide StoreInv, Context.Rep, Freed;
    c.TabFacts(c.root);
    log := FreeTable(c, c.root);
    OnceEach(c, log);
  }

  lemma OwnedRecord(c: Context, o: Obj)
    requires c.TreeValid() && Owned(c, o)
    ensures IdOf(o) < |c.store| && c.store[IdOf(o)].TabRec? == o.TableObj?
  {
    match o
    case TableObj(t) => c.TabFacts(t);
    case ArrayObj(a) => c.ArrFacts(a);
  }

  lemma OnceEach(c: Context, log: seq<Obj>)
    requires c.TreeValid() && Logs(c, log, Freed(c.store, 0))
    ensures NoDup(log) && forall o :: o in log <==> Owned(c, o)
  {
    var ids := Freed(c.store, 0);
    FreeVisitsOnce(c.store);
    forall o | Owned(c, o) ensures o in log {
      OwnedRecord(c, o);
      assert IdOf(o) in ids;
      var i :| 0 <= i < |ids| && ids[i] == IdOf(o);
      OwnedRecord(c, log[i]);
      assert log[i] == o;
    }
    forall i, j | 0 <= i < j < |log| ensures log[i] != log[j] { assert ids[i] != ids[j]; }
  }
}
