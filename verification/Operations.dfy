/** Operations on a table, as sections and entries do them (contrib/tomlc99/toml.c:587-669, 1043-1140), and
    exactly when their order matters. Two operations commute on every tree unless one enters an array of
    tables that a value of the other makes; and then the entering one, run first, makes the other fail. */
module Operations {
  import opened Text
  import opened Tree
  import opened Headers
  import opened Syntax
  import opened Strings

  /** An operation on a table acts on one child: it makes it from a value, or goes into it, creating it
      as an implicit table if it is missing. */
  datatype Op = Op(key: string, act: Act)
  datatype Act = MakeIt(val: Value) | Into(op: Op)

  function Apply(vt: ValType, c: Option<Node>, a: Act): (r: Option<Node>)
    decreases a, 1
  {
    match a
    case MakeIt(v) => Make(vt, c, v)
    case Into(op) =>
      match c
      case None => Do(vt, IMPLICIT_TABLE, op)
      case Some(n) =>
        if n.TabN? then Do(vt, n, op)
        else if Crossable(n) then
          (match Do(vt, n.elems[|n.elems| - 1], op)
           case None => None
           case Some(e) => Some(SetChild(n, Last(n), e)))
        else None
  }

  function Do(vt: ValType, t: Node, op: Op): (r: Option<Node>)
    requires t.TabN?
    ensures r.Some? ==> r.value.TabN? && r.value.implicit == t.implicit
    decreases op, 0
  {
    match Apply(vt, Child(t, K(op.key)), op.act)
    case None => None
    case Some(n) => Some(SetKid(t, op.key, n))
  }

  /** o goes into an array of tables that v makes, at the same child of a table. */
  predicate Enters(o: Op, v: Value)
    decreases v, 0
  {
    match v
    case Scalar(_) => false
    case List(items) => KindOf(items) == Tables
    case Inline(entries) => exists e :: e in entries && NormalizeKey(e.key) == Some(o.key) && EntersBelow(o.act, e.val)
  }

  predicate EntersBelow(a: Act, v: Value)
    decreases v, 1
  {
    a.Into? && Enters(a.op, v)
  }

  /** Run first, o1 takes a place where o2 has to make an array of tables. */
  predicate Blocks(o1: Op, o2: Op) {
    o1.key == o2.key && BlocksAct(o1.act, o2.act)
  }

  predicate BlocksAct(a: Act, b: Act) {
    match b
    case MakeIt(v) => EntersBelow(a, v)
    case Into(o) => a.Into? && Blocks(a.op, o)
  }

  /** The order of the two can matter. */
  predicate Crosses(o1: Op, o2: Op) {
    Blocks(o1, o2) || Blocks(o2, o1)
  }

  function SizeV(v: Value): nat {
    match v
    case Scalar(_) => 1
    case List(_) => 1
    case Inline(entries) => 2 + SizeE(entries)
  }

  function SizeE(entries: seq<Entry>): nat {
    if entries == [] then 0 else 2 + SizeV(entries[0].val) + SizeE(entries[1..])
  }

  function SizeAct(a: Act): nat {
    match a case MakeIt(v) => SizeV(v) case Into(o) => 1 + Size(o)
  }

  function Size(op: Op): nat { 1 + SizeAct(op.act) }

  function Then(vt: ValType, t: Option<Node>, op: Op): Option<Node>
    requires t.Some? ==> t.value.TabN?
  {
    match t case None => None case Some(u) => Do(vt, u, op)
  }

  function ThenApply(vt: ValType, c: Option<Node>, a: Act): Option<Node> {
    if c.None? then None else Apply(vt, c, a)
  }

  function ThenAll(vt: ValType, t: Option<Node>, es: seq<Entry>): Option<Node>
    requires t.Some? ==> t.value.TabN?
  {
    match t case None => None case Some(u) => InsertAll(vt, u, es)
  }

  // ---- two acts on one child ----

  /** What a value has made is closed: no value can be made there again. */
  lemma MadeIsClosed(vt: ValType, c: Option<Node>, v: Value, w: Value)
    requires Make(vt, c, v).Some?
    ensures Make(vt, Make(vt, c, v), w).None?
  {
  }

  /** What is done below a table does not depend on how it was created. */
  lemma DoIgnoresFlag(vt: ValType, t: Node, op: Op, flag: bool)
    requires t.TabN?
    ensures Do(vt, t.(implicit := flag), op) ==
            match Do(vt, t, op) case None => None case Some(u) => Some(u.(implicit := flag))
  {
    assert Child(t.(implicit := flag), K(op.key)) == Child(t, K(op.key));
  }

  /** An inline table and an operation that goes into the same child. */
  lemma InlineAndInto(vt: ValType, c: Option<Node>, es: seq<Entry>, op: Op)
    requires !Enters(op, Inline(es))
    ensures var mk, into := MakeIt(Inline(es)), Into(op);
            ThenApply(vt, Apply(vt, c, mk), into) == ThenApply(vt, Apply(vt, c, into), mk)
    decreases SizeE(es) + Size(op), 1
  {
    if c.None? {
      InsertAllCommutes(vt, NEW_TABLE, es, op);
      DoIgnoresFlag(vt, IMPLICIT_TABLE, op, false);
      assert IMPLICIT_TABLE.(implicit := false) == NEW_TABLE;
    } else if c.value.TabN? && c.value.implicit {
      InsertAllCommutes(vt, c.value.(implicit := false), es, op);
      DoIgnoresFlag(vt, c.value, op, false);
    }
  }

  lemma ScalarOrListAndInto(vt: ValType, c: Option<Node>, v: Value, op: Op)
    requires !v.Inline? && !Enters(op, v)
    ensures ThenApply(vt, Apply(vt, c, MakeIt(v)), Into(op)) == ThenApply(vt, Apply(vt, c, Into(op)), MakeIt(v))
  {
  }

  lemma IntoAndInto(vt: ValType, c: Option<Node>, o1: Op, o2: Op)
    requires !Crosses(o1, o2)
    ensures ThenApply(vt, Apply(vt, c, Into(o1)), Into(o2)) == ThenApply(vt, Apply(vt, c, Into(o2)), Into(o1))
    decreases Size(o1) + Size(o2), 2
  {
    if c.None? {
      OpsCommute(vt, IMPLICIT_TABLE, o1, o2);
    } else if c.value.TabN? {
      OpsCommute(vt, c.value, o1, o2);
    } else if Crossable(c.value) {
      var last := c.value.elems[|c.value.elems| - 1];
      OpsCommute(vt, last, o1, o2);
      IntoLast(vt, c.value, o1, o2);
      IntoLast(vt, c.value, o2, o1);
    }
  }

  lemma IntoLast(vt: ValType, n: Node, o1: Op, o2: Op)
    requires Crossable(n)
    ensures ThenApply(vt, Apply(vt, Some(n), Into(o1)), Into(o2)) ==
            match Then(vt, Do(vt, n.elems[|n.elems| - 1], o1), o2)
            case None => None
            case Some(e) => Some(SetChild(n, Last(n), e))
  {
    var i := |n.elems| - 1;
    match Do(vt, n.elems[i], o1)
    case None =>
    case Some(e) =>
      assert n.elems[i := e][i] == e;
      match Do(vt, e, o2)
      case None =>
      case Some(f) => assert n.elems[i := e][i := f] == n.elems[i := f];
  }

  lemma ActsCommute(vt: ValType, c: Option<Node>, a: Act, b: Act)
    requires !BlocksAct(a, b) && !BlocksAct(b, a)
    ensures ThenApply(vt, Apply(vt, c, a), b) == ThenApply(vt, Apply(vt, c, b), a)
    decreases SizeAct(a) + SizeAct(b), 3
  {
    if a.Into? && b.Into? {
      IntoAndInto(vt, c, a.op, b.op);
    } else if a.Into? {
      MakeAndInto(vt, c, b.val, a.op);
    } else if b.Into? {
      MakeAndInto(vt, c, a.val, b.op);
    } else {
      if Make(vt, c, a.val).Some? { MadeIsClosed(vt, c, a.val, b.val); }
      if Make(vt, c, b.val).Some? { MadeIsClosed(vt, c, b.val, a.val); }
    }
  }

  lemma MakeAndInto(vt: ValType, c: Option<Node>, v: Value, op: Op)
    requires !Enters(op, v)
    ensures ThenApply(vt, Apply(vt, c, MakeIt(v)), Into(op)) == ThenApply(vt, Apply(vt, c, Into(op)), MakeIt(v))
    decreases SizeV(v) + Size(op), 2
  {
    if v.Inline? { InlineAndInto(vt, c, v.entries, op); } else { ScalarOrListAndInto(vt, c, v, op); }
  }

  /** Two operations that do not cross commute: both orders fail, or both give the same table. */
  lemma OpsCommute(vt: ValType, t: Node, o1: Op, o2: Op)
    requires t.TabN? && !Crosses(o1, o2)
    ensures Then(vt, Do(vt, t, o1), o2) == Then(vt, Do(vt, t, o2), o1)
    decreases Size(o1) + Size(o2), 0
  {
    if o1.key == o2.key {
      var c := Child(t, K(o1.key));
      ActsCommute(vt, c, o1.act, o2.act);
      SameChild(vt, t, o1, o2);
      SameChild(vt, t, o2, o1);
    } else {
      OtherChild(vt, t, o1, o2);
      OtherChild(vt, t, o2, o1);
      DifferentKids(vt, t, o1, o2);
    }
  }

  lemma SameChild(vt: ValType, t: Node, o1: Op, o2: Op)
    requires t.TabN? && o1.key == o2.key
    ensures Then(vt, Do(vt, t, o1), o2) ==
            match ThenApply(vt, Apply(vt, Child(t, K(o1.key)), o1.act), o2.act)
            case None => None
            case Some(n) => Some(SetKid(t, o1.key, n))
  {
    var k := o1.key;
    match Apply(vt, Child(t, K(k)), o1.act)
    case None =>
    case Some(n) =>
      assert Child(SetKid(t, k, n), K(k)) == Some(n);
      match Apply(vt, Some(n), o2.act)
      case None =>
      case Some(m) => assert t.kids[k := n][k := m] == t.kids[k := m];
  }

  lemma OtherChild(vt: ValType, t: Node, o1: Op, o2: Op)
    requires t.TabN? && o1.key != o2.key
    ensures Then(vt, Do(vt, t, o1), o2) ==
            match Apply(vt, Child(t, K(o1.key)), o1.act)
            case None => None
            case Some(n) =>
              match Apply(vt, Child(t, K(o2.key)), o2.act)
              case None => None
              case Some(m) => Some(SetKid(SetKid(t, o1.key, n), o2.key, m))
  {
    match Apply(vt, Child(t, K(o1.key)), o1.act)
    case None =>
    case Some(n) => assert Child(SetKid(t, o1.key, n), K(o2.key)) == Child(t, K(o2.key));
  }

  lemma DifferentKids(vt: ValType, t: Node, o1: Op, o2: Op)
    requires t.TabN? && o1.key != o2.key
    ensures forall n, m :: SetKid(SetKid(t, o1.key, n), o2.key, m) == SetKid(SetKid(t, o2.key, m), o1.key, n)
  {
    forall n, m ensures SetKid(SetKid(t, o1.key, n), o2.key, m) == SetKid(SetKid(t, o2.key, m), o1.key, n) {
      assert t.kids[o1.key := n][o2.key := m] == t.kids[o2.key := m][o1.key := n];
    }
  }

  lemma InsertIsDo(vt: ValType, t: Node, e: Entry)
    requires t.TabN?
    ensures Insert(vt, t, e) == match NormalizeKey(e.key) case None => None
            case Some(k) => Do(vt, t, Op(k, MakeIt(e.val)))
  {
  }

  lemma EntryCrosses(make: Op, op: Op)
    requires make.act.MakeIt?
    ensures Blocks(op, make) <==> make.key == op.key && EntersBelow(op.act, make.act.val)
    ensures !Blocks(make, op)
  {
    assert !BlocksAct(make.act, op.act);
    assert BlocksAct(op.act, make.act) == EntersBelow(op.act, make.act.val);
  }

  /** A list of entries and an operation on the same table. */
  lemma {:induction false} InsertAllCommutes(vt: ValType, t: Node, es: seq<Entry>, op: Op)
    requires t.TabN? && !Enters(op, Inline(es))
    ensures Then(vt, InsertAll(vt, t, es), op) == ThenAll(vt, Do(vt, t, op), es)
    decreases SizeE(es) + Size(op), 0
  {
    if es == [] {
    } else {
      var e := es[0];
      InsertIsDo(vt, t, e);
      var k := NormalizeKey(e.key);
      if Do(vt, t, op).Some? { InsertIsDo(vt, Do(vt, t, op).value, e); }
      if k.Some? {
        assert Size(Op(k.value, MakeIt(e.val))) == 1 + SizeV(e.val);
        EntryCrosses(Op(k.value, MakeIt(e.val)), op);
        OpsCommute(vt, t, Op(k.value, MakeIt(e.val)), op);
        if Insert(vt, t, e).Some? { InsertAllCommutes(vt, Insert(vt, t, e).value, es[1..], op); }
      }
    }
  }

  // ---- the entering operation first: the other one fails for ever ----

  /** Some entry of es can make nothing at its key in t. */
  ghost predicate Stopped(vt: ValType, t: Node, es: seq<Entry>, e: Entry)
    requires t.TabN?
  {
    e in es && NormalizeKey(e.key).Some? && Make(vt, Child(t, K(NormalizeKey(e.key).value)), e.val).None?
  }

  /** Then the entries cannot be inserted: those before it leave the place as it is, or close it. */
  lemma {:induction false} StoppedFails(vt: ValType, t: Node, es: seq<Entry>, e: Entry)
    requires t.TabN? && Stopped(vt, t, es, e)
    ensures InsertAll(vt, t, es) == None
    decreases |es|
  {
    if es[0] == e {
    } else if Insert(vt, t, es[0]).Some? {
      var k := NormalizeKey(e.key).value;
      InsertIsDo(vt, t, es[0]);
      if NormalizeKey(es[0].key) == Some(k) { MadeIsClosed(vt, Child(t, K(k)), es[0].val, e.val); }
      StoppedFails(vt, Insert(vt, t, es[0]).value, es[1..], e);
    }
  }

  lemma {:induction false} EntersTable(vt: ValType, t: Node, o: Op, es: seq<Entry>)
    requires t.TabN? && Enters(o, Inline(es))
    ensures ThenApply(vt, Do(vt, t, o), MakeIt(Inline(es))) == None
    decreases o, 0
  {
    var e :| e in es && NormalizeKey(e.key) == Some(o.key) && EntersBelow(o.act, e.val);
    var n := Do(vt, t, o);
    if n.Some? && OpenedTable(n).Some? {
      EntersFails(vt, Child(t, K(o.key)), o.act.op, e.val);
      var below := Apply(vt, Child(t, K(o.key)), o.act);
      assert o.act == Into(o.act.op);
      assert Child(OpenedTable(n).value, K(o.key)) == below;
      assert Make(vt, below, e.val) == Apply(vt, below, MakeIt(e.val)) == None;
      StoppedFails(vt, OpenedTable(n).value, es, e);
    }
  }

  lemma {:induction false} EntersFails(vt: ValType, c: Option<Node>, o: Op, v: Value)
    requires Enters(o, v)
    ensures ThenApply(vt, Apply(vt, c, Into(o)), MakeIt(v)) == None
    decreases o, 1
  {
    match v
    case List(_) =>
    case Inline(es) =>
      if c.None? || c.value.TabN? {
        var t := if c.None? then IMPLICIT_TABLE else c.value;
        EntersTable(vt, t, o, es);
      }
  }

  /** Run first, the entering operation makes the other one fail, on every table. */
  lemma {:induction false} BlocksFails(vt: ValType, t: Node, o1: Op, o2: Op)
    requires t.TabN? && Blocks(o1, o2)
    ensures Then(vt, Do(vt, t, o1), o2) == None
    decreases o2
  {
    var c := Child(t, K(o1.key));
    SameChild(vt, t, o1, o2);
    match o2.act
    case MakeIt(v) =>
      EntersFails(vt, c, o1.act.op, v);
    case Into(below) =>
      if c.None? {
        BlocksFails(vt, IMPLICIT_TABLE, o1.act.op, below);
      } else if c.value.TabN? {
        BlocksFails(vt, c.value, o1.act.op, below);
      } else if Crossable(c.value) {
        BlocksFails(vt, c.value.elems[|c.value.elems| - 1], o1.act.op, below);
        IntoLast(vt, c.value, o1.act.op, below);
      }
  }

  /** Exactly when two operations may be swapped: when they do not cross, or when both orders fail. */
  lemma {:induction false} SwapExactly(vt: ValType, t: Node, o1: Op, o2: Op)
    requires t.TabN?
    ensures Then(vt, Do(vt, t, o1), o2) == Then(vt, Do(vt, t, o2), o1) <==>
            !Crosses(o1, o2) || (Then(vt, Do(vt, t, o1), o2) == None && Then(vt, Do(vt, t, o2), o1) == None)
  {
    if Blocks(o1, o2) { BlocksFails(vt, t, o1, o2); }
    if Blocks(o2, o1) { BlocksFails(vt, t, o2, o1); }
    if !Crosses(o1, o2) { OpsCommute(vt, t, o1, o2); }
  }

  // ---- what fails goes on failing ----

  predicate Closed(n: Node) {
    !(n.TabN? && n.implicit)
  }

  /** Every child of s is closed in t. */
  ghost predicate ClosedIn(s: Node, t: Node) {
    s.TabN? && t.TabN? && forall k :: k in s.kids ==> k in t.kids && Closed(t.kids[k])
  }

  /** Entries that cannot be inserted one after the other into an empty table cannot be inserted anywhere. */
  lemma {:induction false} EntriesNeverFit(vt: ValType, s: Node, t: Node, es: seq<Entry>)
    requires ClosedIn(s, t) && InsertAll(vt, s, es).None?
    ensures InsertAll(vt, t, es).None?
    decreases es, 0
  {
    var e := es[0];
    if NormalizeKey(e.key).Some? {
      var k := NormalizeKey(e.key).value;
      if k in s.kids {
        assert Make(vt, Child(t, K(k)), e.val).None?;
      } else if Make(vt, None, e.val).None? {
        NeverMade(vt, Child(t, K(k)), e.val);
      } else if Insert(vt, t, e).Some? {
        assert Insert(vt, s, e).Some?;
        EntriesNeverFit(vt, Insert(vt, s, e).value, Insert(vt, t, e).value, es[1..]);
      }
    }
  }

  /** A value that cannot be made at a free key cannot be made at any. */
  lemma {:induction false} NeverMade(vt: ValType, c: Option<Node>, v: Value)
    requires Make(vt, None, v).None?
    ensures Make(vt, c, v).None?
    decreases v, 1
  {
    if v.Inline? && OpenedTable(c).Some? { EntriesNeverFit(vt, NEW_TABLE, OpenedTable(c).value, v.entries); }
  }

  /** An operation that fails on an empty table fails on every table. */
  lemma {:induction false} NeverDone(vt: ValType, t: Node, o: Op)
    requires t.TabN? && Do(vt, IMPLICIT_TABLE, o).None?
    ensures Do(vt, t, o).None?
    decreases o
  {
    var c := Child(t, K(o.key));
    match o.act
    case MakeIt(v) => NeverMade(vt, c, v);
    case Into(below) =>
      if c.Some? && c.value.TabN? {
        NeverDone(vt, c.value, below);
      } else if c.Some? && Crossable(c.value) {
        NeverDone(vt, c.value.elems[|c.value.elems| - 1], below);
      }
  }

  /** An operation that fails on a table still fails after any other. */
  lemma {:induction false} FailsForever(vt: ValType, t: Node, o: Op, lost: Op)
    requires t.TabN? && Do(vt, t, lost).None?
    ensures Then(vt, Do(vt, t, o), lost) == None
    decreases Size(o) + Size(lost), 0
  {
    if o.key == lost.key {
      SameChild(vt, t, o, lost);
      ActFailsForever(vt, Child(t, K(o.key)), o.act, lost.act);
    } else {
      OtherChild(vt, t, o, lost);
    }
  }

  lemma {:induction false} ActFailsForever(vt: ValType, c: Option<Node>, a: Act, lost: Act)
    requires Apply(vt, c, lost).None?
    ensures ThenApply(vt, Apply(vt, c, a), lost) == None
    decreases SizeAct(a) + SizeAct(lost), 2
  {
    if a.MakeIt? && lost.MakeIt? {
      if Make(vt, c, a.val).Some? { MadeIsClosed(vt, c, a.val, lost.val); }
    } else if a.MakeIt? {
      MakeThenInto(vt, c, a.val, lost.op);
    } else if lost.MakeIt? {
      IntoThenMake(vt, c, a.op, lost.val);
    } else {
      IntoThenInto(vt, c, a.op, lost.op);
    }
  }

  lemma {:induction false} IntoThenInto(vt: ValType, c: Option<Node>, o: Op, lost: Op)
    requires Apply(vt, c, Into(lost)).None?
    ensures ThenApply(vt, Apply(vt, c, Into(o)), Into(lost)) == None
    decreases Size(o) + Size(lost), 1
  {
    if c.None? {
      FailsForever(vt, IMPLICIT_TABLE, o, lost);
    } else if c.value.TabN? {
      FailsForever(vt, c.value, o, lost);
    } else if Crossable(c.value) {
      FailsForever(vt, c.value.elems[|c.value.elems| - 1], o, lost);
      IntoLast(vt, c.value, o, lost);
    }
  }

  /** Entries inserted before lost leave it failing. */
  lemma {:induction false} EntriesThenLost(vt: ValType, t: Node, es: seq<Entry>, lost: Op)
    requires t.TabN? && Do(vt, t, lost).None?
    ensures Then(vt, InsertAll(vt, t, es), lost) == None
    decreases SizeE(es) + Size(lost), 0
  {
    if es == [] || Insert(vt, t, es[0]).None? {
    } else {
      var o := Op(NormalizeKey(es[0].key).value, MakeIt(es[0].val));
      InsertIsDo(vt, t, es[0]);
      assert Size(o) == 1 + SizeV(es[0].val);
      FailsForever(vt, t, o, lost);
      EntriesThenLost(vt, Insert(vt, t, es[0]).value, es[1..], lost);
    }
  }

  lemma {:induction false} MakeThenInto(vt: ValType, c: Option<Node>, v: Value, lost: Op)
    requires Apply(vt, c, Into(lost)).None?
    ensures ThenApply(vt, Apply(vt, c, MakeIt(v)), Into(lost)) == None
    decreases SizeV(v) + Size(lost), 1
  {
    match v
    case Scalar(_) =>
    case List(_) =>
      if Make(vt, c, v).Some? && Crossable(Make(vt, c, v).value) {
        var n := Make(vt, c, v).value;
        NeverDone(vt, n.elems[|n.elems| - 1], lost);
      }
    case Inline(es) =>
      if OpenedTable(c).Some? {
        DoIgnoresFlag(vt, if c.None? then IMPLICIT_TABLE else c.value, lost, false);
        EntriesThenLost(vt, OpenedTable(c).value, es, lost);
      }
  }

  /** Entries that could not be inserted still cannot. */
  lemma {:induction false} LostEntries(vt: ValType, t: Node, o: Op, es: seq<Entry>)
    requires t.TabN? && InsertAll(vt, t, es).None?
    ensures ThenAll(vt, Do(vt, t, o), es) == None
    decreases Size(o) + SizeE(es), 1
  {
    var e := es[0];
    if Do(vt, t, o).Some? {
      var u := Do(vt, t, o).value;
      if Insert(vt, u, e).Some? { LostEntry(vt, t, o, es, u); }
      assert InsertAll(vt, u, es) == match Insert(vt, u, e) case None => None case Some(w) => InsertAll(vt, w, es[1..]);
    }
  }

  lemma {:induction false} LostEntry(vt: ValType, t: Node, o: Op, es: seq<Entry>, u: Node)
    requires t.TabN? && InsertAll(vt, t, es).None? && Do(vt, t, o) == Some(u) && Insert(vt, u, es[0]).Some?
    ensures InsertAll(vt, Insert(vt, u, es[0]).value, es[1..]) == None
    decreases Size(o) + SizeE(es), 0
  {
    var e := es[0];
    var make := Op(NormalizeKey(e.key).value, MakeIt(e.val));
    assert Size(make) == 1 + SizeV(e.val);
    InsertIsDo(vt, t, e);
    InsertIsDo(vt, u, e);
    if Do(vt, t, make).None? { FailsForever(vt, t, o, make); }
    if Blocks(o, make) { BlocksFails(vt, t, o, make); }
    EntryCrosses(make, o);
    OpsCommute(vt, t, o, make);
    LostEntries(vt, Do(vt, t, make).value, o, es[1..]);
  }

  lemma {:induction false} IntoThenMake(vt: ValType, c: Option<Node>, o: Op, lost: Value)
    requires Make(vt, c, lost).None?
    ensures ThenApply(vt, Apply(vt, c, Into(o)), MakeIt(lost)) == None
    decreases Size(o) + SizeV(lost), 2
  {
    if lost.Inline? && OpenedTable(c).Some? {
      LostEntries(vt, OpenedTable(c).value, o, lost.entries);
      DoIgnoresFlag(vt, if c.None? then IMPLICIT_TABLE else c.value, o, false);
    }
  }
}
