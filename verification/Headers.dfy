/** What [p] and [[p]] select (contrib/tomlc99/toml.c:1040-1199), as functions on the tree, and
    their effect at every address. */
module Headers {
  import opened Text
  import opened Tree

  /** The tree being built and the address of its current table. */
  datatype Sel = Sel(root: Node, at: Addr) {
    predicate Valid() { TableAt(root, at) }

    function Table(): (t: Node)
      requires Valid()
      ensures t.TabN?
    {
      Get(root, at).value
    }
  }

  /** An array that a path may cross: its last element is a table. */
  predicate Crossable(n: Node) {
    n.ArrN? && n.kind == Tables && n.elems != [] && n.elems[|n.elems| - 1].TabN?
  }

  function Last(n: Node): Step
    requires n.ArrN? && n.elems != []
  {
    I(|n.elems| - 1)
  }

  /** One round of walk_tabpath: a missing key becomes an implicit table. */
  function WalkStep(d: Sel, k: string): (r: Option<Sel>)
    requires d.Valid()
  {
    var t := d.Table();
    if k !in t.kids then Some(Sel(Put(d.root, d.at, SetKid(t, k, IMPLICIT_TABLE)), d.at + [K(k)]))
    else if t.kids[k].TabN? then Some(Sel(d.root, d.at + [K(k)]))
    else if Crossable(t.kids[k]) then Some(Sel(d.root, d.at + [K(k), Last(t.kids[k])]))
    else None
  }

  lemma WalkStepValid(d: Sel, k: string)
    requires d.Valid() && WalkStep(d, k).Some?
    ensures WalkStep(d, k).value.Valid()
  {
    var t := d.Table();
    if k !in t.kids {
      GetPut(d.root, d.at, SetKid(t, k, IMPLICIT_TABLE));
      GetAppend(Put(d.root, d.at, SetKid(t, k, IMPLICIT_TABLE)), d.at, [K(k)]);
      assert Get(SetKid(t, k, IMPLICIT_TABLE), [K(k)]) == Some(IMPLICIT_TABLE);
    } else if t.kids[k].TabN? {
      GetAppend(d.root, d.at, [K(k)]);
      assert Get(t, [K(k)]) == Some(t.kids[k]);
    } else {
      var last := Last(t.kids[k]);
      GetAppend(d.root, d.at, [K(k), last]);
      assert [K(k), last][1..] == [last];
      assert Get(t, [K(k), last]) == Get(t.kids[k], [last]) == Child(t.kids[k], last);
    }
  }

  /** walk_tabpath from d. */
  function Walk(d: Sel, keys: seq<string>): (r: Option<Sel>)
    requires d.Valid()
    ensures r.Some? ==> r.value.Valid()
    decreases |keys|
  {
    if keys == [] then Some(d)
    else match WalkStep(d, keys[0])
      case None => None
      case Some(e) => WalkStepValid(d, keys[0]); Walk(e, keys[1..])
  }

  /** What a header [..k] makes of the child named k: an implicit table becomes explicit. */
  function OpenedTable(was: Option<Node>): Option<Node> {
    match was
    case None => Some(NEW_TABLE)
    case Some(TabN(true, kids)) => Some(TabN(false, kids))
    case Some(_) => None
  }

  /** What a header [[..k]] makes of the child named k: an array with one more table. */
  function OpenedArray(was: Option<Node>): (r: Option<Node>)
    ensures r.Some? ==> r.value.ArrN? && r.value.elems != []
  {
    match was
    case None => Some(ArrN(Tables, '\0', [NEW_TABLE]))
    case Some(ArrN(kind, typ, elems)) =>
      if kind == Unset || kind == Tables then Some(ArrN(Tables, typ, elems + [NEW_TABLE])) else None
    case Some(_) => None
  }

  function Open(d: Sel, double: bool, k: string): (r: Option<Sel>)
    requires d.Valid()
  {
    var t := d.Table();
    var c := if double then OpenedArray(Child(t, K(k))) else OpenedTable(Child(t, K(k)));
    match c
    case None => None
    case Some(n) =>
      Some(Sel(Put(d.root, d.at, SetKid(t, k, n)), d.at + if double then [K(k), Last(n)] else [K(k)]))
  }

  /** parse_select on a path of normalised keys. */
  function Select(root: Node, double: bool, keys: seq<string>): (r: Option<Sel>)
    requires root.TabN? && keys != []
  {
    var n := |keys| - 1;
    match Walk(Sel(root, []), keys[..n])
    case None => None
    case Some(d) => Open(d, double, keys[n])
  }

  lemma GetOpened(d: Sel, k: string, n: Node)
    requires d.Valid()
    ensures Get(Put(d.root, d.at, SetKid(d.Table(), k, n)), d.at + [K(k)]) == Some(n)
  {
    var t := SetKid(d.Table(), k, n);
    GetPut(d.root, d.at, t);
    GetAppend(Put(d.root, d.at, t), d.at, [K(k)]);
    assert Get(t, [K(k)]) == Some(n);
  }

  lemma OpenValid(d: Sel, double: bool, k: string)
    requires d.Valid() && Open(d, double, k).Some?
    ensures Open(d, double, k).value.Valid()
    ensures !Open(d, double, k).value.Table().implicit
    ensures double ==> Open(d, double, k).value.Table() == NEW_TABLE
  {
    var was := Child(d.Table(), K(k));
    var n := if double then OpenedArray(was).value else OpenedTable(was).value;
    GetOpened(d, k, n);
    if double {
      var e := Open(d, double, k).value;
      assert d.at + [K(k), Last(n)] == (d.at + [K(k)]) + [Last(n)];
      GetAppend(e.root, d.at + [K(k)], [Last(n)]);
      assert Get(n, [Last(n)]) == Child(n, Last(n));
    }
  }

  lemma SelectValid(root: Node, double: bool, keys: seq<string>)
    requires root.TabN? && keys != [] && Select(root, double, keys).Some?
    ensures Select(root, double, keys).value.Valid()
    ensures !Select(root, double, keys).value.Table().implicit
  {
    var n := |keys| - 1;
    OpenValid(Walk(Sel(root, []), keys[..n]).value, double, keys[n]);
  }

  // ---- path semantics ----

  /** The address a path names, found by following it from n with every array step taking the last
      element; from the first missing key on it is the path itself. */
  function PathOf(n: Option<Node>, keys: seq<string>): Addr
    decreases |keys|
  {
    if keys == [] then []
    else
      var c := match n case None => None case Some(t) => Child(t, K(keys[0]));
      if c.Some? && c.value.ArrN? && c.value.elems != [] then
        [K(keys[0]), Last(c.value)] + PathOf(Child(c.value, Last(c.value)), keys[1..])
      else [K(keys[0])] + PathOf(c, keys[1..])
  }

  /** The tree m is n with the missing addresses on the way to at filled by implicit tables. */
  ghost predicate FilledTo(n: Node, m: Node, at: Addr) {
    forall b :: Obs(m, b) == if Obs(n, b).None? && b <= at then Some(ITab(true)) else Obs(n, b)
  }

  lemma {:induction false} PrefixExists(n: Node, a: Addr, b: Addr)
    requires Get(n, a).Some? && b <= a
    ensures Obs(n, b).Some?
    decreases |a|
  {
    if b == [] {
    } else {
      PrefixExists(Child(n, a[0]).value, a[1..], b[1..]);
    }
  }

  lemma {:induction false} BelowMissing(n: Node, a: Addr, b: Addr)
    requires Get(n, a).None? && a <= b
    ensures Obs(n, b).None?
    decreases |a|
  {
    if a == [] || Child(n, a[0]).None? {
    } else {
      BelowMissing(Child(n, a[0]).value, a[1..], b[1..]);
    }
  }

  /** Setting one child of the table at d changes what is seen at that child and below only. */
  lemma ObsSetKid(d: Sel, k: string, c: Node, b: Addr)
    requires d.Valid()
    ensures Obs(Put(d.root, d.at, SetKid(d.Table(), k, c)), b) ==
            if d.at + [K(k)] <= b then Obs(c, b[|d.at| + 1..]) else Obs(d.root, b)
  {
    var t := SetKid(d.Table(), k, c);
    ObsPut(d.root, d.at, t, b);
    if d.at <= b {
      var r := b[|d.at|..];
      assert b == d.at + r;
      GetAppend(d.root, d.at, r);
      if r != [] {
        assert (d.at + [K(k)] <= b) == (r[0] == K(k));
        assert r[1..] == b[|d.at| + 1..];
      }
    }
  }

  /** One step of the walk fills at most one address. */
  lemma WalkStepFills(d: Sel, k: string)
    requires d.Valid() && WalkStep(d, k).Some?
    ensures d.at <= WalkStep(d, k).value.at
    ensures FilledTo(d.root, WalkStep(d, k).value.root, WalkStep(d, k).value.at)
  {
    var e := WalkStep(d, k).value;
    var t := d.Table();
    var a := d.at + [K(k)];
    GetAppend(d.root, d.at, [K(k)]);
    assert Get(t, [K(k)]) == Child(t, K(k));
    forall b ensures Obs(e.root, b) == if Obs(d.root, b).None? && b <= e.at then Some(ITab(true)) else Obs(d.root, b) {
      if k !in t.kids {
        ObsSetKid(d, k, IMPLICIT_TABLE, b);
        if a <= b {
          BelowMissing(d.root, a, b);
          EmptyTableObs(IMPLICIT_TABLE, b[|a|..]);
        } else if b <= a {
          assert b <= d.at;
          PrefixExists(d.root, d.at, b);
        }
      } else if b <= e.at {
        WalkStepValid(d, k);
        PrefixExists(d.root, e.at, b);
      }
    }
  }

  lemma EmptyTableObs(t: Node, b: Addr)
    requires t.TabN? && t.kids == map[]
    ensures Obs(t, b) == if b == [] then Some(Shape(t)) else None
  {
  }

  lemma FilledCompose(l: Node, m: Node, n: Node, at: Addr, at': Addr)
    requires FilledTo(l, m, at) && FilledTo(m, n, at') && at <= at'
    ensures FilledTo(l, n, at')
  {
    forall b ensures Obs(n, b) == if Obs(l, b).None? && b <= at' then Some(ITab(true)) else Obs(l, b) {
      assert b <= at ==> b <= at';
    }
  }

  lemma WalkStepFollows(d: Sel, k: string, rest: seq<string>)
    requires d.Valid() && WalkStep(d, k).Some? && WalkStep(d, k).value.Valid()
    ensures WalkStep(d, k).value.at + PathOf(Some(WalkStep(d, k).value.Table()), rest)
            == d.at + PathOf(Some(d.Table()), [k] + rest)
  {
    var e := WalkStep(d, k).value;
    var t := d.Table();
    assert ([k] + rest)[1..] == rest;
    GetAppend(d.root, d.at, [K(k)]);
    assert Get(t, [K(k)]) == Child(t, K(k));
    if k !in t.kids {
      GetOpened(d, k, IMPLICIT_TABLE);
      PathOfMissing(rest);
      assert (d.at + [K(k)]) + PathOf(None, rest) == d.at + ([K(k)] + PathOf(None, rest));
    } else if t.kids[k].TabN? {
      var p := PathOf(Some(t.kids[k]), rest);
      assert (d.at + [K(k)]) + p == d.at + ([K(k)] + p);
    } else {
      var c, last := t.kids[k], Last(t.kids[k]);
      GetAppend(d.root, d.at, [K(k), last]);
      assert [K(k), last][1..] == [last];
      assert Get(t, [K(k), last]) == Get(c, [last]) == Child(c, last);
      var p := PathOf(Child(c, last), rest);
      assert (d.at + [K(k), last]) + p == d.at + ([K(k), last] + p);
    }
  }

  lemma PathOfMissing(keys: seq<string>)
    ensures PathOf(Some(IMPLICIT_TABLE), keys) == PathOf(None, keys)
  {
  }

  /** walk_tabpath ends at the address the path names, and all it does is fill the missing addresses
      on the way with implicit tables. */
  lemma {:induction false} WalkFollowsPath(d: Sel, keys: seq<string>)
    requires d.Valid() && Walk(d, keys).Some?
    ensures Walk(d, keys).value.at == d.at + PathOf(Some(d.Table()), keys)
    ensures d.at <= Walk(d, keys).value.at
    ensures FilledTo(d.root, Walk(d, keys).value.root, Walk(d, keys).value.at)
    decreases |keys|
  {
    if keys == [] {
      assert d.at + [] == d.at;
      forall b | b <= d.at ensures Obs(d.root, b).Some? { PrefixExists(d.root, d.at, b); }
    } else {
      var e := WalkStep(d, keys[0]).value;
      WalkStepValid(d, keys[0]);
      WalkStepFills(d, keys[0]);
      WalkStepFollows(d, keys[0], keys[1..]);
      assert keys == [keys[0]] + keys[1..];
      WalkFollowsPath(e, keys[1..]);
      FilledCompose(d.root, e.root, Walk(d, keys).value.root, e.at, Walk(d, keys).value.at);
    }
  }

  // ---- the two headers, address by address ----

  /** The address of the table or array a header [p] or [[p]] names. */
  function Target(root: Node, keys: seq<string>): Addr
    requires keys != []
  {
    PathOf(Some(root), keys[..|keys| - 1]) + [K(keys[|keys| - 1])]
  }

  lemma ProperPrefix(b: Addr, a: Addr, s: Step)
    ensures b <= a + [s] <==> b <= a || b == a + [s]
  {
    if b <= a + [s] && |b| <= |a| { assert b == (a + [s])[..|b|] == a[..|b|]; }
    if b <= a { assert b == (a + [s])[..|b|]; }
  }

  /** What is at d's child k before the header is applied, in the walked tree and in the first one. */
  lemma UntouchedBelow(root: Node, d: Sel, k: string, b: Addr)
    requires FilledTo(root, d.root, d.at) && d.at + [K(k)] <= b
    ensures Obs(d.root, b) == Obs(root, b)
  {
  }

  lemma ChildObs(d: Sel, k: string)
    requires d.Valid()
    ensures Get(d.root, d.at + [K(k)]) == Child(d.Table(), K(k))
  {
    GetAppend(d.root, d.at, [K(k)]);
    assert Get(d.Table(), [K(k)]) == Child(d.Table(), K(k));
  }

  /** After [p]: the current table is where the path leads; it is there, explicit; missing tables on the
      way are there, implicit; and every other address shows what it showed before. */
  lemma SingleHeaderSelects(root: Node, keys: seq<string>)
    requires root.TabN? && keys != [] && Select(root, false, keys).Some?
    ensures var s, target := Select(root, false, keys).value, Target(root, keys);
            && s.at == target
            && forall b :: Obs(s.root, b) ==
                 if b == target then Some(ITab(false))
                 else if Obs(root, b).None? && b <= target then Some(ITab(true))
                 else Obs(root, b)
  {
    var n := |keys| - 1;
    var d := Walk(Sel(root, []), keys[..n]).value;
    var s, target, k := Select(root, false, keys).value, Target(root, keys), keys[n];
    WalkFollowsPath(Sel(root, []), keys[..n]);
    assert [] + PathOf(Some(root), keys[..n]) == PathOf(Some(root), keys[..n]);
    var c := OpenedTable(Child(d.Table(), K(k))).value;
    ChildObs(d, k);
    forall b ensures Obs(s.root, b) ==
        if b == target then Some(ITab(false))
        else if Obs(root, b).None? && b <= target then Some(ITab(true)) else Obs(root, b)
    {
      ObsSetKid(d, k, c, b);
      ProperPrefix(b, d.at, K(k));
      if target <= b {
        UntouchedBelow(root, d, k, b);
        OpenedTableObs(d, k, b);
      }
    }
  }

  lemma OpenedTableObs(d: Sel, k: string, b: Addr)
    requires d.Valid() && d.at + [K(k)] <= b && OpenedTable(Child(d.Table(), K(k))).Some?
    ensures Obs(OpenedTable(Child(d.Table(), K(k))).value, b[|d.at| + 1..]) ==
            if b == d.at + [K(k)] then Some(ITab(false)) else Obs(d.root, b)
  {
    var a := d.at + [K(k)];
    var r := b[|a|..];
    ChildObs(d, k);
    assert b == a + r;
    if Child(d.Table(), K(k)).None? {
      BelowMissing(d.root, a, b);
      EmptyTableObs(NEW_TABLE, r);
    } else {
      GetAppend(d.root, a, r);
    }
  }

  /** The number of elements a [[p]] finds at its target, and their type byte. */
  function LenAt(n: Node, a: Addr): nat {
    match Obs(n, a) case Some(IArr(_, _, len)) => len case _ => 0
  }

  function TypAt(n: Node, a: Addr): char {
    match Obs(n, a) case Some(IArr(_, typ, _)) => typ case _ => '\0'
  }

  /** What [[p]] leaves at b, when target is the address the path names: the array there is one longer,
      its new last element is an explicit table, and missing tables on the way are implicit. */
  function AfterDouble(root: Node, target: Addr, b: Addr): Option<Info> {
    if b == target then Some(IArr(Tables, TypAt(root, target), LenAt(root, target) + 1))
    else if b == target + [I(LenAt(root, target))] then Some(ITab(false))
    else if Obs(root, b).None? && b <= target then Some(ITab(true))
    else Obs(root, b)
  }

  lemma DoubleHeaderAt(root: Node, d: Sel, k: string, b: Addr)
    requires d.Valid() && FilledTo(root, d.root, d.at) && OpenedArray(Child(d.Table(), K(k))).Some?
    ensures var c := OpenedArray(Child(d.Table(), K(k))).value;
            Obs(Put(d.root, d.at, SetKid(d.Table(), k, c)), b) == AfterDouble(root, d.at + [K(k)], b)
  {
    var c := OpenedArray(Child(d.Table(), K(k))).value;
    var target := d.at + [K(k)];
    ObsSetKid(d, k, c, b);
    ProperPrefix(b, d.at, K(k));
    UntouchedBelow(root, d, k, target);
    if target <= b {
      UntouchedBelow(root, d, k, b);
      OpenedArrayObs(d, k, b);
    }
  }

  /** After [[p]]: the current table is a fresh, empty, explicit one, the new last element of the array
      the path names, and the tree is as AfterDouble says at every address. */
  lemma DoubleHeaderSelects(root: Node, keys: seq<string>)
    requires root.TabN? && keys != [] && Select(root, true, keys).Some?
    ensures var s, target := Select(root, true, keys).value, Target(root, keys);
            && s.at == target + [I(LenAt(root, target))]
            && s.Valid() && s.Table() == NEW_TABLE
            && forall b :: Obs(s.root, b) == AfterDouble(root, target, b)
  {
    var n := |keys| - 1;
    var d := Walk(Sel(root, []), keys[..n]).value;
    var s, target, k := Select(root, true, keys).value, Target(root, keys), keys[n];
    WalkFollowsPath(Sel(root, []), keys[..n]);
    assert [] + PathOf(Some(root), keys[..n]) == PathOf(Some(root), keys[..n]);
    OpenValid(d, true, k);
    ChildObs(d, k);
    UntouchedBelow(root, d, k, target);
    var c := OpenedArray(Child(d.Table(), K(k))).value;
    assert d.at + [K(k), Last(c)] == target + [Last(c)];
    forall b ensures Obs(s.root, b) == AfterDouble(root, target, b) { DoubleHeaderAt(root, d, k, b); }
  }

  lemma OpenedArrayObs(d: Sel, k: string, b: Addr)
    requires d.Valid() && d.at + [K(k)] <= b && OpenedArray(Child(d.Table(), K(k))).Some?
    ensures var a := d.at + [K(k)];
            var len := LenAt(d.root, a);
            Obs(OpenedArray(Child(d.Table(), K(k))).value, b[|a|..]) ==
            if b == a then Some(IArr(Tables, TypAt(d.root, a), len + 1))
            else if b == a + [I(len)] then Some(ITab(false))
            else Obs(d.root, b)
  {
    var a := d.at + [K(k)];
    var r := b[|a|..];
    var c := OpenedArray(Child(d.Table(), K(k))).value;
    ChildObs(d, k);
    assert b == a + r;
    if Child(d.Table(), K(k)).None? {
      BelowMissing(d.root, a, b);
    } else {
      GetAppend(d.root, a, r);
    }
    if r != [] {
      assert (b == a + [I(LenAt(d.root, a))]) == (r == [I(LenAt(d.root, a))]);
      if r[0] == Last(c) {
        EmptyTableObs(NEW_TABLE, r[1..]);
        assert r == [r[0]] + r[1..];
      }
    }
  }

  // ---- when a header is refused ----

  /** A walk can go through what stands at a: nothing, a table, or an array whose last element is a table. */
  predicate PassableAt(n: Node, a: Addr) {
    match Obs(n, a)
    case None => true
    case Some(ITab(_)) => true
    case Some(IArr(kind, _, len)) => kind == Tables && len > 0 && TableAt(n, a + [I(len - 1)])
    case Some(IVal(_)) => false
  }

  /** The address of the i-th key of the path. */
  function KeyAt(n: Node, at: Addr, keys: seq<string>, i: nat): Addr
    requires i < |keys|
  {
    at + PathOf(Some(n), keys[..i]) + [K(keys[i])]
  }

  lemma FirstKeyPassable(d: Sel, k: string)
    requires d.Valid()
    ensures WalkStep(d, k).Some? <==> PassableAt(d.root, d.at + [K(k)])
  {
    ChildObs(d, k);
    var c := Child(d.Table(), K(k));
    if c.Some? && c.value.ArrN? && c.value.elems != [] {
      var a := d.at + [K(k)];
      GetAppend(d.root, a, [Last(c.value)]);
      assert Get(c.value, [Last(c.value)]) == Child(c.value, Last(c.value));
    }
  }

  lemma FilledKeepsPassable(n: Node, m: Node, at: Addr, a: Addr)
    requires FilledTo(n, m, at)
    ensures PassableAt(n, a) == PassableAt(m, a)
  {
    assert Obs(m, a) == if Obs(n, a).None? && a <= at then Some(ITab(true)) else Obs(n, a);
    if Obs(n, a).Some? {
      match Obs(n, a).value
      case IArr(_, _, len) =>
        if len > 0 {
          var e := a + [I(len - 1)];
          assert Obs(m, e) == if Obs(n, e).None? && e <= at then Some(ITab(true)) else Obs(n, e);
          LastElementExists(n, a, len);
        }
      case _ =>
    }
  }

  lemma LastElementExists(n: Node, a: Addr, len: nat)
    requires Get(n, a).Some? && Get(n, a).value.ArrN? && |Get(n, a).value.elems| == len > 0
    ensures Obs(n, a + [I(len - 1)]).Some?
  {
    GetAppend(n, a, [I(len - 1)]);
    assert Get(Get(n, a).value, [I(len - 1)]) == Child(Get(n, a).value, I(len - 1));
  }

  /** Every key of the path is passable where the path finds it. */
  ghost predicate AllPassable(n: Node, t: Node, at: Addr, keys: seq<string>) {
    forall i :: 0 <= i < |keys| ==> PassableAt(n, KeyAt(t, at, keys, i))
  }

  lemma RestPassable(d: Sel, k: string, rest: seq<string>, i: nat)
    requires d.Valid() && WalkStep(d, k).Some? && WalkStep(d, k).value.Valid() && i < |rest|
    ensures var e := WalkStep(d, k).value;
            PassableAt(d.root, KeyAt(d.Table(), d.at, [k] + rest, i + 1))
            <==> PassableAt(e.root, KeyAt(e.Table(), e.at, rest, i))
  {
    var e := WalkStep(d, k).value;
    WalkStepFills(d, k);
    WalkStepFollows(d, k, rest[..i]);
    assert [k] + rest[..i] == ([k] + rest)[..i + 1];
    FilledKeepsPassable(d.root, e.root, e.at, KeyAt(e.Table(), e.at, rest, i));
  }

  lemma AllPassableStep(d: Sel, k: string, rest: seq<string>)
    requires d.Valid() && WalkStep(d, k).Some? && WalkStep(d, k).value.Valid()
    ensures AllPassable(d.root, d.Table(), d.at, [k] + rest) <==>
            AllPassable(WalkStep(d, k).value.root, WalkStep(d, k).value.Table(), WalkStep(d, k).value.at, rest)
  {
    var e := WalkStep(d, k).value;
    FirstKeyPassable(d, k);
    assert KeyAt(d.Table(), d.at, [k] + rest, 0) == d.at + [K(k)];
    if AllPassable(e.root, e.Table(), e.at, rest) {
      forall i | 0 <= i < |rest| + 1 ensures PassableAt(d.root, KeyAt(d.Table(), d.at, [k] + rest, i)) {
        if i > 0 { RestPassable(d, k, rest, i - 1); }
      }
    }
    if AllPassable(d.root, d.Table(), d.at, [k] + rest) {
      forall i | 0 <= i < |rest| ensures PassableAt(e.root, KeyAt(e.Table(), e.at, rest, i)) {
        RestPassable(d, k, rest, i);
      }
    }
  }

  /** A walk succeeds exactly when every key of the path is passable where the path finds it. */
  lemma {:induction false} WalkSucceedsIff(d: Sel, keys: seq<string>)
    requires d.Valid()
    ensures Walk(d, keys).Some? <==> AllPassable(d.root, d.Table(), d.at, keys)
    decreases |keys|
  {
    if keys == [] {
    } else {
      assert keys == [keys[0]] + keys[1..];
      assert KeyAt(d.Table(), d.at, keys, 0) == d.at + [K(keys[0])];
      FirstKeyPassable(d, keys[0]);
      if WalkStep(d, keys[0]).Some? {
        WalkStepValid(d, keys[0]);
        AllPassableStep(d, keys[0], keys[1..]);
        WalkSucceedsIff(WalkStep(d, keys[0]).value, keys[1..]);
      }
    }
  }

  /** What may stand at the target of a header. */
  predicate Openable(o: Option<Info>, double: bool) {
    match o
    case None => true
    case Some(ITab(implicit)) => !double && implicit
    case Some(IArr(kind, _, _)) => double && (kind == Unset || kind == Tables)
    case Some(IVal(_)) => false
  }

  /** A header is accepted exactly when the way to its target is passable and the target is free, or an
      implicit table for [p], or an empty array or an array of tables for [[p]]. */
  lemma HeaderAcceptedIff(root: Node, double: bool, keys: seq<string>)
    requires root.TabN? && keys != []
    ensures Select(root, double, keys).Some? <==>
            && AllPassable(root, root, [], keys[..|keys| - 1])
            && Openable(Obs(root, Target(root, keys)), double)
  {
    var n := |keys| - 1;
    var start := Sel(root, []);
    WalkSucceedsIff(start, keys[..n]);
    if Walk(start, keys[..n]).Some? {
      var d := Walk(start, keys[..n]).value;
      WalkFollowsPath(start, keys[..n]);
      assert [] + PathOf(Some(root), keys[..n]) == PathOf(Some(root), keys[..n]);
      UntouchedBelow(root, d, keys[n], Target(root, keys));
      ChildObs(d, keys[n]);
    }
  }
}
