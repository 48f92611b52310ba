/** The walk that prints a tree: print_table, print_table_array, print_array and print_raw
    (contrib/tomlc99/toml_json.c:54-165). The bytes are collected in the order in which they are printed. */
module Printing {
  import opened Text
  import opened Tree
  import opened Store
  import opened Scalars
  import opened Json
  import opened Builder
  import opened Accessors

  /** print_raw: false where it ends the program. */
  method PrintScalar(dbl: Doubles, raw: string) returns (ok: bool, out: string, ghost j: Json)
    ensures ok <==> Readable(dbl, Val(raw))
    ensures ok ==> Denotes(dbl, j, Val(raw)) && out == Render(j)
  {
    out, j := "", JObj([]);
    var shown := PrintRaw(dbl, raw);
    ok := shown.Some?;
    if ok {
      out := RenderRaw(shown.value);
      j := JRaw(shown.value);
    }
  }

  lemma KeysAreKids(c: Context, t: Table)
    requires c.TreeValid() && t in c.tabs && NodeOk(c.store, t.id) && c.TabOk(t)
    ensures NoDup(Keys(c.store, t.id)) && forall k :: k in c.TabTree(t).kids <==> k in Keys(c.store, t.id)
  {
    forall k ensures k in c.TabTree(t).kids <==> k in Keys(c.store, t.id) { c.TableFacts(t, k); }
  }

  /** print_table; j lists the members in the order of toml_key_in. */
  method PrintTable(c: Context, dbl: Doubles, t: Table) returns (ok: bool, out: string, ghost j: Json)
    requires c.TreeValid() && t in c.tabs && c.TabOk(t)
    ensures ok <==> Readable(dbl, c.TabTree(t))
    ensures ok ==> Denotes(dbl, j, c.TabTree(t)) && out == Render(j)
    ensures ok ==> j.JObj? && NodeOk(c.store, t.id) && MemberKeys(j.members) == Keys(c.store, t.id)
    decreases |c.store| - t.id, 1
  {
    hide StoreInv, TreeOf, Context.Rep, Context.TreeValid, Table.KeyIn, Denotes, MembersDenote, Readable;
    hide RenderMember, Render, NodeOk;
    j := JObj([]);
    KeysInOrder(c, t);
    ghost var keys := Keys(c.store, t.id);
    ghost var members: seq<Member> := [];
    var i := 0;
    NoMembers(dbl, c.TabTree(t));
    out := "{";
    var key := t.KeyIn(i);
    while key.Some?
      invariant i <= |keys| && key == t.KeyIn(i) && MemberKeys(members) == keys[..i]
      invariant MembersDenote(dbl, members, c.TabTree(t)) && out == "{" + RenderMembers(members, true)
      decreases |keys| - i
    {
      assert keys[..i + 1] == keys[..i] + [keys[i]];
      ghost var m;
      ok, out, m := NextMember(c, dbl, t, out, members, i, key.value);
      if !ok { return; }
      members := members + [m];
      i := i + 1;
      key := t.KeyIn(i);
    }
    assert keys[..i] == keys;
    KeysAreKids(c, t);
    TablePrinted(dbl, members, c.TabTree(t));
    ok, out, j := true, out + "}", JObj(members);
  }

  lemma TablePrinted(dbl: Doubles, members: seq<Member>, n: Node)
    requires n.TabN? && MembersDenote(dbl, members, n) && NoDup(MemberKeys(members))
    requires forall k :: k in n.kids <==> k in MemberKeys(members)
    ensures Denotes(dbl, JObj(members), n) && Readable(dbl, n)
    ensures Render(JObj(members)) == "{" + RenderMembers(members, true) + "}"
  {
    ObjDenotes(dbl, members, n);
    DenotesReadable(dbl, JObj(members), n);
    assert "{" + RenderMembers(members, true) + "}" == "{" + (RenderMembers(members, true) + "}");
  }

  /** One round of the loop of print_table. */
  method NextMember(c: Context, dbl: Doubles, t: Table, before: string, ghost ms: seq<Member>, i: nat, key: string)
    returns (ok: bool, out: string, ghost m: Member)
    requires c.TreeValid() && t in c.tabs && c.TabOk(t) && NodeOk(c.store, t.id) && key in Keys(c.store, t.id)
    requires MembersDenote(dbl, ms, c.TabTree(t)) && before == "{" + RenderMembers(ms, true) && i == |ms|
    ensures !ok ==> !Readable(dbl, c.TabTree(t))
    ensures ok ==> m.key == key && MembersDenote(dbl, ms + [m], c.TabTree(t))
    ensures ok ==> out == "{" + RenderMembers(ms + [m], true)
    ensures ok ==> MemberKeys(ms + [m]) == MemberKeys(ms) + [key]
    decreases |c.store| - t.id, 0, 1
  {
    hide StoreInv, TreeOf, Context.Rep, Context.TreeValid, Denotes, MembersDenote, Readable, RenderMembers, Render;
    var text;
    ghost var val;
    ok, text, val := PrintMember(c, dbl, t, key);
    m := Member(key, val);
    if !ok {
      MemberUnreadable(dbl, c.TabTree(t), key);
      return false, before, m;
    }
    MoreMembers(dbl, ms, m, c.TabTree(t));
    out := MemberPrinted(before, ms, m, i, key, text);
  }

  /** The two printf calls of a round. */
  method MemberPrinted(before: string, ghost ms: seq<Member>, ghost m: Member, i: nat, key: string, text: string)
    returns (out: string)
    requires before == "{" + RenderMembers(ms, true) && i == |ms| && m.key == key && text == Render(m.val)
    ensures out == "{" + RenderMembers(ms + [m], true)
  {
    out := before + (if i > 0 then "," else "") + "\"" + key + "\":" + text;
    RenderMembersSnoc(ms, m, true);
    assert RenderMember(m, i == 0) == (if i > 0 then "," else "") + "\"" + key + "\":" + text;
  }

  /** The body of the loop of print_table. */
  method PrintMember(c: Context, dbl: Doubles, t: Table, key: string) returns (ok: bool, out: string, ghost j: Json)
    requires c.TreeValid() && t in c.tabs && c.TabOk(t) && NodeOk(c.store, t.id) && key in Keys(c.store, t.id)
    ensures key in c.TabTree(t).kids
    ensures ok <==> Readable(dbl, c.TabTree(t).kids[key])
    ensures ok ==> Denotes(dbl, j, c.TabTree(t).kids[key]) && out == Render(j)
    decreases |c.store| - t.id, 0, 0
  {
    hide StoreInv, TreeOf, Context.Rep, Denotes, Readable, Render;
    c.TableFacts(t, key);
    var raw := RawIn(c, t, key);
    if raw.Some? {
      ok, out, j := PrintScalar(dbl, raw.value);
      return;
    }
    var a := ArrayIn(c, t, key);
    if a != null {
      c.ArrFacts(a);
      ok, out, j := PrintArray(c, dbl, a);
      return;
    }
    var u := TableIn(c, t, key);
    if u == null {
      // abort()
      assert false;
    }
    c.TabFacts(u);
    ok, out, j := PrintTable(c, dbl, u);
  }

  /** print_array, and print_table_array for an array of tables. */
  method PrintArray(c: Context, dbl: Doubles, a: Array) returns (ok: bool, out: string, ghost j: Json)
    requires c.TreeValid() && a in c.arrs && c.ArrOk(a)
    ensures ok <==> Readable(dbl, c.ArrTree(a))
    ensures ok ==> Denotes(dbl, j, c.ArrTree(a)) && out == Render(j)
    decreases |c.store| - a.id, 1
  {
    hide StoreInv, TreeOf, Context.Rep, Denotes, Readable, Render;
    ArrayShape(c, a);
    j := JObj([]);
    ghost var items: seq<Json> := [];
    ghost var elems := c.ArrTree(a).elems;
    var text, i := "", 0;
    assert ItemsDenote(dbl, items, elems[..0]);
    while true
      invariant i <= |elems| && ItemsDenote(dbl, items, elems[..i]) && text == RenderItems(items, true)
      decreases |elems| - i
    {
      var item;
      ghost var shown;
      item, shown := PrintElement(c, dbl, a, i);
      if item.PastEnd? { break; }
      if item.NotReadable? {
        ElementUnreadable(dbl, c.ArrTree(a), i);
        return false, text, j;
      }
      assert elems[..i + 1] == elems[..i] + [elems[i]];
      RenderItemsSnoc(items, shown, true);
      text := text + ((if i > 0 then "," else "") + item.text);
      items := items + [shown];
      i := i + 1;
    }
    assert elems[..i] == elems;
    ok := true;
    if a.kind == Tables {
      out, j := "[" + (text + "]"), JTables(items);
    } else {
      out, j := TYPE + ("array" + (VALUE + ("[" + (text + "]}")))), JList(items);
    }
    ArrayPrinted(dbl, items, c.ArrTree(a));
    DenotesReadable(dbl, j, c.ArrTree(a));
  }

  lemma ElementUnreadable(dbl: Doubles, n: Node, i: nat)
    requires n.ArrN? && i < |n.elems| && !Readable(dbl, n.elems[i])
    ensures !Readable(dbl, n)
  {
  }

  lemma ArrayPrinted(dbl: Doubles, items: seq<Json>, n: Node)
    requires n.ArrN? && ItemsDenote(dbl, items, n.elems)
    ensures n.kind == Tables ==> Denotes(dbl, JTables(items), n)
    ensures n.kind != Tables ==> Denotes(dbl, JList(items), n)
    ensures Render(JTables(items)) == "[" + (RenderItems(items, true) + "]")
    ensures Render(JList(items)) == TYPE + ("array" + (VALUE + ("[" + (RenderItems(items, true) + "]}"))))
  {
  }

  datatype Item = PastEnd | NotReadable | Item(text: string)

  /** The element at i, printed as the kind of the array says. */
  method PrintElement(c: Context, dbl: Doubles, a: Array, i: nat) returns (r: Item, ghost j: Json)
    requires c.TreeValid() && a in c.arrs && c.ArrOk(a)
    ensures r.PastEnd? <==> i >= |c.ArrTree(a).elems|
    ensures r.NotReadable? ==> !Readable(dbl, c.ArrTree(a).elems[i])
    ensures r.Item? ==> Denotes(dbl, j, c.ArrTree(a).elems[i]) && r.text == Render(j)
    decreases |c.store| - a.id, 0
  {
    hide StoreInv, TreeOf, Context.Rep, Denotes, Readable, Render;
    ArrayShape(c, a);
    j := JObj([]);
    var ok, text := false, "";
    match a.kind {
      case Values =>
        var raw := RawAt(c, a, i);
        if raw.None? { return PastEnd, j; }
        ok, text, j := PrintScalar(dbl, raw.value);
      case Arrays =>
        var b := ArrayAt(c, a, i);
        if b == null { return PastEnd, j; }
        c.ArrFacts(b);
        ok, text, j := PrintArray(c, dbl, b);
      case Tables =>
        var u := Accessors.TableAt(c, a, i);
        if u == null { return PastEnd, j; }
        c.TabFacts(u);
        ok, text, j := PrintTable(c, dbl, u);
      case Unset =>
        return PastEnd, j;
    }
    r := if ok then Item(text) else NotReadable;
  }
}
