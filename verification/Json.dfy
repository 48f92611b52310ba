/** What the walk over a tree prints (contrib/tomlc99/toml_json.c:54-165): its nesting, its bytes, and what
    they tell. */
module Json {
  import opened Text
  import opened Tree
  import opened Store
  import opened Scalars

  /** The nesting of what is printed. */
  datatype Json = JRaw(shown: Shown) | JList(items: seq<Json>) | JTables(items: seq<Json>) | JObj(members: seq<Member>)

  datatype Member = Member(key: string, val: Json)

  type Doubles = string -> bool

  // ---- the bytes ----

  /** One member of a table: the key goes out as it is. */
  function RenderMember(m: Member, first: bool): string
    decreases m, 1
  {
    (if first then "" else ",") + ("\"" + (m.key + ("\":" + Render(m.val))))
  }

  function RenderMembers(ms: seq<Member>, first: bool): string
    decreases ms, 2
  {
    if ms == [] then "" else RenderMember(ms[0], first) + RenderMembers(ms[1..], false)
  }

  function RenderItem(j: Json, first: bool): string
    decreases j, 3
  {
    (if first then "" else ",") + Render(j)
  }

  function RenderItems(js: seq<Json>, first: bool): string
    decreases js, 4
  {
    if js == [] then "" else RenderItem(js[0], first) + RenderItems(js[1..], false)
  }

  const TYPE := "{\"type\":\""
  const VALUE := "\",\"value\":"

  /** print_raw */
  function RenderRaw(s: Shown): string {
    if s.typ == "" then "" else TYPE + (s.typ + (VALUE + ("\"" + (s.value + "\"}"))))
  }

  /** print_table, print_array and print_table_array */
  function Render(j: Json): string
    decreases j, 0
  {
    match j
    case JRaw(s) => RenderRaw(s)
    case JList(items) => TYPE + ("array" + (VALUE + ("[" + (RenderItems(items, true) + "]}"))))
    case JTables(items) => "[" + (RenderItems(items, true) + "]")
    case JObj(members) => "{" + (RenderMembers(members, true) + "}")
  }

  lemma {:induction false} RenderMembersSnoc(ms: seq<Member>, m: Member, first: bool)
    ensures RenderMembers(ms + [m], first) == RenderMembers(ms, first) + RenderMember(m, first && ms == [])
    decreases |ms|
  {
    if ms == [] {
      assert ms + [m] == [m] && [m][1..] == [];
      assert RenderMember(m, first) + "" == RenderMember(m, first) &&
          "" + RenderMember(m, first) == RenderMember(m, first);
    } else {
      assert (ms + [m])[1..] == ms[1..] + [m];
      RenderMembersSnoc(ms[1..], m, false);
      assert RenderMember(ms[0], first) + (RenderMembers(ms[1..], false) + RenderMember(m, false))
          == (RenderMember(ms[0], first) + RenderMembers(ms[1..], false)) + RenderMember(m, false);
    }
  }

  lemma {:induction false} RenderItemsSnoc(js: seq<Json>, j: Json, first: bool)
    ensures RenderItems(js + [j], first) == RenderItems(js, first) + RenderItem(j, first && js == [])
    decreases |js|
  {
    if js == [] {
      assert js + [j] == [j] && [j][1..] == [];
      assert RenderItem(j, first) + "" == RenderItem(j, first) && "" + RenderItem(j, first) == RenderItem(j, first);
    } else {
      assert (js + [j])[1..] == js[1..] + [j];
      RenderItemsSnoc(js[1..], j, false);
      assert RenderItem(js[0], first) + (RenderItems(js[1..], false) + RenderItem(j, false))
          == (RenderItem(js[0], first) + RenderItems(js[1..], false)) + RenderItem(j, false);
    }
  }

  // ---- what the nesting shows ----

  /** print_raw has something to print for every scalar in the tree. */
  predicate Readable(dbl: Doubles, n: Node) {
    match n
    case Val(raw) => PrintRaw(dbl, raw).Some?
    case ArrN(_, _, elems) => forall i :: 0 <= i < |elems| ==> Readable(dbl, elems[i])
    case TabN(_, kids) => forall k :: k in kids ==> Readable(dbl, kids[k])
  }

  /** j shows n: every child once under its key, every element at its place, and nothing else. */
  ghost predicate Denotes(dbl: Doubles, j: Json, n: Node)
    decreases j, 1
  {
    match j
    case JRaw(shown) => n.Val? && PrintRaw(dbl, n.raw) == Some(shown)
    case JList(items) => n.ArrN? && n.kind != Tables && ItemsDenote(dbl, items, n.elems)
    case JTables(items) => n.ArrN? && n.kind == Tables && ItemsDenote(dbl, items, n.elems)
    case JObj(members) =>
      && n.TabN? && NoDup(MemberKeys(members)) && (forall k :: k in n.kids <==> k in MemberKeys(members))
      && MembersDenote(dbl, members, n)
  }

  ghost predicate ItemsDenote(dbl: Doubles, items: seq<Json>, elems: seq<Node>)
    decreases items, 0
  {
    |items| == |elems| && forall i :: 0 <= i < |items| ==> Denotes(dbl, items[i], elems[i])
  }

  ghost predicate MembersDenote(dbl: Doubles, members: seq<Member>, n: Node)
    requires n.TabN?
    decreases members, 0
  {
    forall i :: 0 <= i < |members| ==> members[i].key in n.kids && Denotes(dbl, members[i].val, n.kids[members[i].key])
  }

  function MemberKeys(members: seq<Member>): (r: seq<string>)
    ensures |r| == |members| && forall i :: 0 <= i < |r| ==> r[i] == members[i].key
  {
    seq(|members|, i requires 0 <= i < |members| => members[i].key)
  }

  /** What is shown is readable. */
  lemma {:induction false} DenotesReadable(dbl: Doubles, j: Json, n: Node)
    requires Denotes(dbl, j, n)
    ensures Readable(dbl, n)
    decreases j
  {
    match j
    case JRaw(_) =>
    case JList(items) =>
      forall i | 0 <= i < |items| ensures Readable(dbl, n.elems[i]) { DenotesReadable(dbl, items[i], n.elems[i]); }
    case JTables(items) =>
      forall i | 0 <= i < |items| ensures Readable(dbl, n.elems[i]) { DenotesReadable(dbl, items[i], n.elems[i]); }
    case JObj(members) =>
      forall k | k in n.kids ensures Readable(dbl, n.kids[k]) {
        var i :| 0 <= i < |members| && MemberKeys(members)[i] == k;
        DenotesReadable(dbl, members[i].val, n.kids[k]);
      }
  }

  lemma NoMembers(dbl: Doubles, n: Node)
    requires n.TabN?
    ensures MembersDenote(dbl, [], n)
  {
  }

  lemma MoreMembers(dbl: Doubles, members: seq<Member>, m: Member, n: Node)
    requires n.TabN? && MembersDenote(dbl, members, n) && m.key in n.kids && Denotes(dbl, m.val, n.kids[m.key])
    ensures MembersDenote(dbl, members + [m], n) && MemberKeys(members + [m]) == MemberKeys(members) + [m.key]
  {
  }

  lemma ObjDenotes(dbl: Doubles, members: seq<Member>, n: Node)
    requires n.TabN? && MembersDenote(dbl, members, n) && NoDup(MemberKeys(members))
    requires forall k :: k in n.kids <==> k in MemberKeys(members)
    ensures Denotes(dbl, JObj(members), n)
  {
  }

  lemma MemberUnreadable(dbl: Doubles, n: Node, k: string)
    requires n.TabN? && k in n.kids && !Readable(dbl, n.kids[k])
    ensures !Readable(dbl, n)
  {
  }

  /** out is what is printed for n. */
  ghost predicate IsOutput(dbl: Doubles, out: string, n: Node) {
    exists j :: Denotes(dbl, j, n) && out == Render(j)
  }

  // ---- what the nesting tells ----

  /** What the output shows of a tree: scalars as they are printed, no implicit flags, no element types, and
      the kind of an array only as far as an array of tables is printed differently. */
  datatype Bare = BVal(shown: Option<Shown>) | BArr(tables: bool, elems: seq<Bare>) | BTab(kids: map<string, Bare>)

  function View(dbl: Doubles, n: Node): Bare {
    match n
    case Val(raw) => BVal(PrintRaw(dbl, raw))
    case ArrN(kind, _, elems) => BArr(kind == Tables, seq(|elems|, i requires 0 <= i < |elems| => View(dbl, elems[i])))
    case TabN(_, kids) => BTab(map k | k in kids :: View(dbl, kids[k]))
  }

  /** Two trees have an output in common exactly when the output shows the same of both. */
  lemma {:induction false} NestingDetermines(dbl: Doubles, j: Json, m: Node, n: Node)
    requires Denotes(dbl, j, m)
    ensures Denotes(dbl, j, n) <==> View(dbl, m) == View(dbl, n)
    decreases j
  {
    match j
    case JRaw(_) =>
    case JList(items) => ItemsDetermine(dbl, items, m, n);
    case JTables(items) => ItemsDetermine(dbl, items, m, n);
    case JObj(members) =>
      if n.TabN? && (forall k :: k in m.kids <==> k in n.kids) { MembersDetermine(dbl, members, m, n); }
      if View(dbl, m) == View(dbl, n) {
        assert forall k :: k in View(dbl, m).kids <==> k in m.kids;
        assert forall k :: k in View(dbl, n).kids <==> k in n.kids;
      }
  }

  lemma {:induction false} ItemsDetermine(dbl: Doubles, items: seq<Json>, m: Node, n: Node)
    requires m.ArrN? && ItemsDenote(dbl, items, m.elems)
    ensures n.ArrN? && (m.kind == Tables <==> n.kind == Tables) ==>
              (ItemsDenote(dbl, items, n.elems) <==> View(dbl, m) == View(dbl, n))
    decreases items
  {
    if n.ArrN? && (m.kind == Tables <==> n.kind == Tables) {
      var a, b := View(dbl, m).elems, View(dbl, n).elems;
      assert |a| == |items| && |b| == |n.elems|;
      if |a| == |b| {
        forall i | 0 <= i < |items| ensures Denotes(dbl, items[i], n.elems[i]) <==> a[i] == b[i] {
          NestingDetermines(dbl, items[i], m.elems[i], n.elems[i]);
        }
        if ItemsDenote(dbl, items, n.elems) { assert a == b; }
      }
    }
  }

  lemma {:induction false} MembersDetermine(dbl: Doubles, members: seq<Member>, m: Node, n: Node)
    requires m.TabN? && MembersDenote(dbl, members, m) && n.TabN?
    requires forall k :: k in m.kids <==> k in MemberKeys(members)
    requires forall k :: k in m.kids <==> k in n.kids
    ensures MembersDenote(dbl, members, n) <==> View(dbl, m) == View(dbl, n)
    decreases members
  {
    forall i | 0 <= i < |members|
      ensures members[i].key in m.kids && members[i].key in n.kids
      ensures Denotes(dbl, members[i].val, n.kids[members[i].key]) <==>
              View(dbl, m.kids[members[i].key]) == View(dbl, n.kids[members[i].key])
    {
      assert MemberKeys(members)[i] == members[i].key;
      NestingDetermines(dbl, members[i].val, m.kids[members[i].key], n.kids[members[i].key]);
    }
    var a, b := View(dbl, m).kids, View(dbl, n).kids;
    if MembersDenote(dbl, members, n) {
      forall k | k in m.kids ensures a[k] == b[k] {
        var i :| 0 <= i < |members| && MemberKeys(members)[i] == k;
        assert members[i].key == k;
      }
      assert a == b;
    }
    if a == b {
      forall i | 0 <= i < |members| ensures a[members[i].key] == b[members[i].key] { assert members[i].key in a; }
    }
  }
}
