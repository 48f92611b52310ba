/** The parsed tree as a value: toml_keyval_t, toml_array_t and toml_table_t
    (contrib/tomlc99/toml.c:227-263) with child order forgotten, addresses into it, and
    what can be observed at an address. */
module Tree {
  import opened Text

  /** The kind byte of an array: 0, 'v', 'a', 't'. */
  datatype ArrKind = Unset | Values | Arrays | Tables

  datatype Node =
    | Val(raw: string)
    | ArrN(kind: ArrKind, typ: char, elems: seq<Node>)
    | TabN(implicit: bool, kids: map<string, Node>)

  const NEW_TABLE := TabN(false, map[])
  const IMPLICIT_TABLE := TabN(true, map[])
  const NEW_ARRAY := ArrN(Unset, '\0', [])

  /** One step down: to a key of a table, or to an element of an array. */
  datatype Step = K(key: string) | I(idx: nat)

  type Addr = seq<Step>

  function Child(n: Node, s: Step): Option<Node> {
    match s
    case K(k) => if n.TabN? && k in n.kids then Some(n.kids[k]) else None
    case I(i) => if n.ArrN? && i < |n.elems| then Some(n.elems[i]) else None
  }

  function SetChild(n: Node, s: Step, c: Node): Node
    requires Child(n, s).Some?
  {
    match s
    case K(k) => n.(kids := n.kids[k := c])
    case I(i) => n.(elems := n.elems[i := c])
  }

  function SetKid(t: Node, k: string, c: Node): Node
    requires t.TabN?
  {
    t.(kids := t.kids[k := c])
  }

  function Get(n: Node, a: Addr): Option<Node> {
    if a == [] then Some(n)
    else match Child(n, a[0]) case None => None case Some(c) => Get(c, a[1..])
  }

  /** n with the node at a replaced. */
  function Put(n: Node, a: Addr, m: Node): Node
    requires Get(n, a).Some?
    decreases |a|
  {
    if a == [] then m
    else SetChild(n, a[0], Put(Child(n, a[0]).value, a[1..], m))
  }

  /** There is a table at a. */
  predicate TableAt(n: Node, a: Addr) {
    Get(n, a).Some? && Get(n, a).value.TabN?
  }

  // ---- observations ----

  /** What a reader sees at an address, without going further down. */
  datatype Info = IVal(raw: string) | IArr(kind: ArrKind, typ: char, len: nat) | ITab(implicit: bool)

  function Shape(n: Node): Info {
    match n
    case Val(raw) => IVal(raw)
    case ArrN(kind, typ, elems) => IArr(kind, typ, |elems|)
    case TabN(implicit, _) => ITab(implicit)
  }

  function Obs(n: Node, a: Addr): Option<Info> {
    match Get(n, a) case None => None case Some(m) => Some(Shape(m))
  }

  /** Observations at every address determine the tree. */
  lemma {:induction false} ObsDetermines(m: Node, n: Node)
    requires forall a :: Obs(m, a) == Obs(n, a)
    ensures m == n
    decreases m
  {
    assert Obs(m, []) == Obs(n, []);
    match m
    case Val(_) =>
    case ArrN(_, _, elems) =>
      assert n.ArrN? && |n.elems| == |elems|;
      forall i | 0 <= i < |elems| ensures elems[i] == n.elems[i] {
        ObsOfChild(m, n, I(i));
        ObsDetermines(elems[i], n.elems[i]);
      }
    case TabN(_, kids) =>
      forall k ensures k in kids <==> k in n.kids {
        assert Obs(m, [K(k)]) == Obs(n, [K(k)]);
        assert Get(m, [K(k)]) == Child(m, K(k)) && Get(n, [K(k)]) == Child(n, K(k));
      }
      forall k | k in kids ensures kids[k] == n.kids[k] {
        ObsOfChild(m, n, K(k));
        ObsDetermines(kids[k], n.kids[k]);
      }
  }

  lemma ObsOfChild(m: Node, n: Node, s: Step)
    requires forall a :: Obs(m, a) == Obs(n, a)
    requires Child(m, s).Some? && Child(n, s).Some?
    ensures forall a :: Obs(Child(m, s).value, a) == Obs(Child(n, s).value, a)
  {
    forall a ensures Obs(Child(m, s).value, a) == Obs(Child(n, s).value, a) {
      assert Obs(m, [s] + a) == Obs(n, [s] + a);
      assert ([s] + a)[1..] == a;
    }
  }

  // ---- laws of Get and Put ----

  lemma {:induction false} GetAppend(n: Node, a: Addr, b: Addr)
    requires Get(n, a).Some?
    ensures Get(n, a + b) == Get(Get(n, a).value, b)
    decreases |a|
  {
    if a == [] {
      assert a + b == b;
    } else {
      GetAppend(Child(n, a[0]).value, a[1..], b);
      assert (a + b)[1..] == a[1..] + b;
    }
  }

  lemma ChildOfSetChild(n: Node, s: Step, c: Node, r: Step)
    requires Child(n, s).Some?
    ensures Child(SetChild(n, s, c), r) == if r == s then Some(c) else Child(n, r)
  {
  }

  lemma {:induction false} GetPut(n: Node, a: Addr, m: Node)
    requires Get(n, a).Some?
    ensures Get(Put(n, a, m), a) == Some(m)
    decreases |a|
  {
    if a == [] {
    } else {
      GetPut(Child(n, a[0]).value, a[1..], m);
    }
  }

  /** A replacement at a is seen at a and below, and nowhere else. */
  lemma {:induction false} ObsPut(n: Node, a: Addr, m: Node, b: Addr)
    requires Get(n, a).Some?
    ensures Obs(Put(n, a, m), b) == if a <= b then Obs(m, b[|a|..]) else Obs(n, b)
    decreases |a|
  {
    if a == [] {
      assert b[0..] == b;
    } else if b != [] {
      var c := Child(n, a[0]).value;
      ChildOfSetChild(n, a[0], Put(c, a[1..], m), b[0]);
      if b[0] == a[0] {
        ObsPut(c, a[1..], m, b[1..]);
        assert a <= b <==> a[1..] <= b[1..];
        if a <= b { assert b[1..][|a[1..]|..] == b[|a|..]; }
      }
    }
  }

  lemma {:induction false} PutPut(n: Node, a: Addr, l: Node, m: Node)
    requires Get(n, a).Some?
    ensures Get(Put(n, a, l), a).Some?
    ensures Put(Put(n, a, l), a, m) == Put(n, a, m)
    decreases |a|
  {
    GetPut(n, a, l);
    if a == [] {
    } else {
      var c := Child(n, a[0]).value;
      PutPut(c, a[1..], l, m);
      ChildOfSetChild(n, a[0], Put(c, a[1..], l), a[0]);
    }
  }

  lemma {:induction false} PutSame(n: Node, a: Addr)
    requires Get(n, a).Some?
    ensures Put(n, a, Get(n, a).value) == n
    decreases |a|
  {
    if a == [] {
    } else {
      PutSame(Child(n, a[0]).value, a[1..]);
    }
  }

  lemma {:induction false} PutAppend(n: Node, a: Addr, b: Addr, m: Node)
    requires Get(n, a).Some? && Get(Get(n, a).value, b).Some?
    ensures Get(n, a + b).Some?
    ensures Put(n, a + b, m) == Put(n, a, Put(Get(n, a).value, b, m))
    decreases |a|
  {
    GetAppend(n, a, b);
    if a == [] {
      assert a + b == b;
    } else {
      assert (a + b)[1..] == a[1..] + b;
      PutAppend(Child(n, a[0]).value, a[1..], b, m);
    }
  }

  /** A replacement one step below a. */
  lemma PutChild(n: Node, a: Addr, s: Step, m: Node)
    requires Get(n, a).Some? && Child(Get(n, a).value, s).Some?
    ensures Get(n, a + [s]) == Child(Get(n, a).value, s)
    ensures Put(n, a + [s], m) == Put(n, a, SetChild(Get(n, a).value, s, m))
  {
    var t := Get(n, a).value;
    assert Get(t, [s]) == Child(t, s);
    GetAppend(n, a, [s]);
    PutAppend(n, a, [s], m);
    assert Put(t, [s], m) == SetChild(t, s, m);
  }
}
