/** What the printed bytes tell (contrib/tomlc99/toml_json.c:37-165). Keys are printed without escapes, so a
    key with a quote in it can look like several members; where no key has one, the bytes determine what is
    shown. */
module Output {
  import opened Text
  import opened Lexer
  import opened Tree
  import opened Store
  import opened Strings
  import opened EscapePrinter
  import Numbers
  import Timestamps
  import opened Scalars
  import opened Json
  import opened Reader

  // ---- equal bytes, equal nesting ----

  /** Equal bytes are read alike. */
  lemma SameBytes(i: Json, j: Json, x: string, y: string)
    requires Clean(i) && Clean(j) && Render(i) + x == Render(j) + y
    ensures i == j && x == y
  {
    hide Render, Clean, ReadJson;
    ReadsExactly(Render(i) + x, i, x);
    ReadsExactly(Render(j) + y, j, y);
  }

  // ---- trees ----

  /** No key at any depth holds a quote, and no text that is printed as a double does. */
  predicate QuoteFree(dbl: Doubles, n: Node) {
    match n
    case Val(raw) => PrintRaw(dbl, raw).Some? && PrintRaw(dbl, raw).value.typ == "float" ==> '"' !in raw
    case ArrN(_, _, elems) => forall i :: 0 <= i < |elems| ==> QuoteFree(dbl, elems[i])
    case TabN(_, kids) => forall k :: k in kids ==> '"' !in k && QuoteFree(dbl, kids[k])
  }

  lemma IntHasNoQuote(v: int)
    ensures '"' !in Numbers.PrintInt(v)
  {
    var n: nat := if v < 0 then -v else v;
    Numbers.PrintedLiteral(n);
  }

  lemma FieldHasNoQuote(n: nat, w: nat)
    requires w > 0
    ensures '"' !in Timestamps.Pad(n, w)
  {
    Timestamps.PadDigits(n, w);
  }

  lemma ZoneHasNoQuote(z: string)
    requires Timestamps.ZoneShape(z)
    ensures '"' !in z
  {
  }

  lemma DateHasNoQuote(d: Timestamps.Date)
    ensures '"' !in Timestamps.PrintDate(d)
  {
    FieldHasNoQuote(d.year, 4);
    FieldHasNoQuote(d.month, 2);
    FieldHasNoQuote(d.day, 2);
  }

  lemma TimeHasNoQuote(t: Timestamps.Time)
    ensures '"' !in Timestamps.PrintTime(t)
  {
    FieldHasNoQuote(t.hour, 2);
    FieldHasNoQuote(t.minute, 2);
    FieldHasNoQuote(t.second, 2);
  }

  lemma StampHasNoQuote(raw: string)
    requires Timestamps.Rtots(raw).Some?
    ensures '"' !in Timestamps.Print(Timestamps.Rtots(raw).value)
  {
    hide Timestamps.Rtots, Timestamps.PrintDate, Timestamps.PrintTime, Timestamps.ZoneShape;
    var t := Timestamps.Rtots(raw).value;
    Timestamps.ZoneOfRead(raw);
    if t.date.Some? { DateHasNoQuote(t.date.value); }
    if t.time.Some? { TimeHasNoQuote(t.time.value); }
    if t.zone.Some? { ZoneHasNoQuote(t.zone.value); }
  }

  /** What print_raw prints ends at its quotes. */
  lemma ShownIsGood(dbl: Doubles, raw: string)
    requires PrintRaw(dbl, raw).Some? && QuoteFree(dbl, Val(raw))
    ensures GoodScalar(PrintRaw(dbl, raw).value)
  {
    hide Rtos, Escape, Numbers.Rtoi, Numbers.PrintInt, Timestamps.Rtots, Timestamps.Print;
    if Rtos(raw).Some? {
      assert PrintRaw(dbl, raw).value.value == Escape(Rtos(raw).value);
    } else if Numbers.Rtoi(raw).Some? {
      IntHasNoQuote(Numbers.Rtoi(raw).value);
    } else if Rtob(raw).Some? || dbl(raw) {
    } else {
      var t := Timestamps.Rtots(raw).value;
      StampHasNoQuote(raw);
      if t.date.None? && t.time.None? { NoPartIsEmpty(raw); }
    }
  }

  lemma {:induction false} DenotedIsClean(dbl: Doubles, j: Json, n: Node)
    requires Denotes(dbl, j, n) && QuoteFree(dbl, n)
    ensures Clean(j)
    decreases j
  {
    match j
    case JRaw(_) => ShownIsGood(dbl, n.raw);
    case JList(items) =>
      forall i | 0 <= i < |items| ensures Clean(items[i]) { DenotedIsClean(dbl, items[i], n.elems[i]); }
    case JTables(items) =>
      forall i | 0 <= i < |items| ensures Clean(items[i]) { DenotedIsClean(dbl, items[i], n.elems[i]); }
    case JObj(members) =>
      forall i | 0 <= i < |members| ensures '"' !in members[i].key && Clean(members[i].val) {
        DenotedIsClean(dbl, members[i].val, n.kids[members[i].key]);
      }
  }

  /** Two outputs of trees without quotes in their keys (and doubles) are the same bytes exactly when they are
      the same nesting; then the two trees show the same. */
  lemma {:induction false} OutputDetermines(dbl: Doubles, i: Json, m: Node, j: Json, n: Node)
    requires Denotes(dbl, i, m) && Denotes(dbl, j, n) && QuoteFree(dbl, m) && QuoteFree(dbl, n)
    ensures Render(i) == Render(j) <==> i == j
    ensures Render(i) == Render(j) ==> View(dbl, m) == View(dbl, n)
  {
    hide Denotes, QuoteFree, Render, Clean, View;
    if Render(i) == Render(j) {
      DenotedIsClean(dbl, i, m);
      DenotedIsClean(dbl, j, n);
      assert Render(i) + "" == Render(j) + "";
      SameBytes(i, j, "", "");
      NestingDetermines(dbl, i, m, n);
    }
  }

  // ---- every readable tree has an output ----

  lemma {:induction false} HasOutput(dbl: Doubles, n: Node) returns (j: Json)
    requires Readable(dbl, n)
    ensures Denotes(dbl, j, n)
    decreases n, 1, 0
  {
    match n {
      case Val(raw) =>
        j := JRaw(PrintRaw(dbl, raw).value);
      case ArrN(kind, _, elems) =>
        var items := ItemsOf(dbl, n, elems, |elems|);
        assert elems[..|elems|] == elems;
        j := if kind == Tables then JTables(items) else JList(items);
      case TabN(_, kids) =>
        var members := MembersOf(dbl, n, kids.Keys);
        j := JObj(members);
    }
  }

  lemma {:induction false} ItemsOf(dbl: Doubles, n: Node, elems: seq<Node>, k: nat) returns (items: seq<Json>)
    requires n.ArrN? && elems == n.elems && k <= |elems| && Readable(dbl, n)
    ensures ItemsDenote(dbl, items, elems[..k])
    decreases n, 0, k
  {
    if k == 0 {
      items := [];
    } else {
      var front := ItemsOf(dbl, n, elems, k - 1);
      var last := HasOutput(dbl, elems[k - 1]);
      items := front + [last];
      assert elems[..k] == elems[..k - 1] + [elems[k - 1]];
    }
  }

  lemma {:induction false} MembersOf(dbl: Doubles, n: Node, keys: set<string>) returns (ms: seq<Member>)
    requires n.TabN? && keys <= n.kids.Keys && Readable(dbl, n)
    ensures NoDup(MemberKeys(ms)) && (forall k :: k in keys <==> k in MemberKeys(ms)) && MembersDenote(dbl, ms, n)
    decreases n, 0, |keys|
  {
    if keys == {} {
      ms := [];
    } else {
      var k :| k in keys;
      var front := MembersOf(dbl, n, keys - {k});
      var val := HasOutput(dbl, n.kids[k]);
      ms := front + [Member(k, val)];
      MoreMembers(dbl, front, Member(k, val), n);
      NoDupPair(MemberKeys(front), [k]);
      assert forall x :: x in MemberKeys(ms) <==> x in MemberKeys(front) || x == k;
    }
  }

  /** Two trees without quotes in their keys (and doubles) can be printed as the same bytes exactly when one of
      them can be printed and the output shows the same of both. */
  lemma {:induction false} SameOutputExactly(dbl: Doubles, m: Node, n: Node)
    requires QuoteFree(dbl, m) && QuoteFree(dbl, n)
    ensures (exists out :: IsOutput(dbl, out, m) && IsOutput(dbl, out, n)) <==>
            Readable(dbl, m) && View(dbl, m) == View(dbl, n)
  {
    hide Denotes, QuoteFree, Render, View, Readable;
    if out :| IsOutput(dbl, out, m) && IsOutput(dbl, out, n) {
      var i :| Denotes(dbl, i, m) && out == Render(i);
      var j :| Denotes(dbl, j, n) && out == Render(j);
      OutputDetermines(dbl, i, m, j, n);
      DenotesReadable(dbl, i, m);
    }
    if Readable(dbl, m) && View(dbl, m) == View(dbl, n) {
      var j := HasOutput(dbl, m);
      NestingDetermines(dbl, j, m, n);
      assert IsOutput(dbl, Render(j), m) && IsOutput(dbl, Render(j), n);
    }
  }

  // ---- reading an output ----

  /** The reader takes out apart, with rest left over, and what it finds shows n. */
  ghost predicate ReadsAs(dbl: Doubles, out: string, rest: string, n: Node) {
    ReadJson(out).Some? && ReadJson(out).value.1 == rest && Denotes(dbl, ReadJson(out).value.0, n)
  }

  /** Of a tree without quotes in its keys (and doubles), the outputs are the texts that read as that tree. */
  lemma {:induction false} OutputReads(dbl: Doubles, out: string, rest: string, n: Node)
    requires QuoteFree(dbl, n)
    ensures (exists text :: IsOutput(dbl, text, n) && out == text + rest) <==> ReadsAs(dbl, out, rest, n)
  {
    hide Denotes, QuoteFree, Render, Clean, ReadJson;
    if text :| IsOutput(dbl, text, n) && out == text + rest {
      var j :| Denotes(dbl, j, n) && text == Render(j);
      DenotedIsClean(dbl, j, n);
      ReadsExactly(out, j, rest);
    }
    if ReadsAs(dbl, out, rest, n) {
      ReadWasPrinted(out);
      assert IsOutput(dbl, Render(ReadJson(out).value.0), n);
    }
  }

  // ---- a key that looks like two members ----

  function IntText(v: string): string {
    TYPE + ("integer" + (VALUE + ("\"" + (v + "\"}"))))
  }

  /** A key that holds a whole member and the start of the next one. */
  function TrickKey(): string {
    "a" + ("\":" + (IntText("1") + (",\"" + "b")))
  }

  lemma TrickKeyIsKey()
    ensures NulFree(TrickKey()) && '\n' !in TrickKey() && '"' in TrickKey()
    ensures NormalizeKey(Quoted(TrickKey())) == Some(TrickKey())
  {
    hide NormalizeKey, Quoted;
    var k := TrickKey();
    assert k[1] == '"';
    QuotedIsKey(k);
  }

  function OneMember(v: string): Json { JObj([Member(TrickKey(), JRaw(Shown("integer", v)))]) }

  function TwoMembers(u: string, v: string): Json {
    JObj([Member("a", JRaw(Shown("integer", u))), Member("b", JRaw(Shown("integer", v)))])
  }

  lemma RenderOne(m: Member)
    ensures Render(JObj([m])) == "{" + (RenderMember(m, true) + "}")
  {
    RenderMembersSnoc([], m, true);
    assert [] + [m] == [m] && "" + RenderMember(m, true) == RenderMember(m, true);
  }

  lemma RenderTwo(m: Member, l: Member)
    ensures Render(JObj([m, l])) == "{" + ((RenderMember(m, true) + RenderMember(l, false)) + "}")
  {
    RenderMembersSnoc([], m, true);
    RenderMembersSnoc([m], l, true);
    assert [] + [m] == [m] && [m] + [l] == [m, l] && "" + RenderMember(m, true) == RenderMember(m, true);
  }

  lemma TrickRender(v: string)
    ensures Render(OneMember(v)) == Render(TwoMembers("1", v))
  {
    hide Render, RenderMember;
    var one, two := JRaw(Shown("integer", "1")), JRaw(Shown("integer", v));
    RenderOne(Member(TrickKey(), two));
    RenderTwo(Member("a", one), Member("b", two));
    TrickMember(v);
  }

  lemma TrickMember(v: string)
    ensures RenderMember(Member(TrickKey(), JRaw(Shown("integer", v))), true) ==
            RenderMember(Member("a", JRaw(Shown("integer", "1"))), true)
            + RenderMember(Member("b", JRaw(Shown("integer", v))), false)
  {
    var r, t := IntText("1"), IntText(v);
    Together("a", r, "b", t);
  }

  lemma Together(a: string, r: string, b: string, t: string)
    ensures "" + ("\"" + ((a + ("\":" + (r + (",\"" + b)))) + ("\":" + t))) ==
            ("" + ("\"" + (a + ("\":" + r)))) + ("," + ("\"" + (b + ("\":" + t))))
  {
  }

  /** One table with this key and one table with two members print the same bytes, though they show different
      things: keys with a quote have to be excluded. */
  lemma {:induction false} KeyLooksLikeMembers(dbl: Doubles)
    ensures NormalizeKey(Quoted(TrickKey())) == Some(TrickKey())
    ensures var m, n := TabN(false, map[TrickKey() := Val("2")]), TabN(false, map["a" := Val("1"), "b" := Val("2")]);
            && View(dbl, m) != View(dbl, n)
            && exists out :: IsOutput(dbl, out, m) && IsOutput(dbl, out, n)
  {
    hide Render, PrintRaw, NormalizeKey, TrickKey, Quoted, QuoteFree;
    var m, n := TabN(false, map[TrickKey() := Val("2")]), TabN(false, map["a" := Val("1"), "b" := Val("2")]);
    TrickKeyIsKey();
    PrintedIntIsInt(dbl, 1);
    PrintedIntIsInt(dbl, 2);
    assert Numbers.PrintInt(1) == "1" && Numbers.PrintInt(2) == "2";
    TrickRender("2");
    OneDenotes(dbl, TrickKey(), "2", m);
    TwoDenote(dbl, "1", "2", n);
    assert IsOutput(dbl, Render(OneMember("2")), m) && IsOutput(dbl, Render(OneMember("2")), n);
    assert TrickKey() in View(dbl, m).kids;
    assert '"' !in "a" && '"' !in "b";
  }

  lemma OneDenotes(dbl: Doubles, k: string, v: string, m: Node)
    requires m == TabN(false, map[k := Val(v)]) && PrintRaw(dbl, v) == Some(Shown("integer", v))
    ensures Denotes(dbl, JObj([Member(k, JRaw(Shown("integer", v)))]), m)
  {
    var x := Member(k, JRaw(Shown("integer", v)));
    NoMembers(dbl, m);
    MoreMembers(dbl, [], x, m);
    assert [] + [x] == [x] && MemberKeys([x]) == [k];
    ObjDenotes(dbl, [x], m);
  }

  lemma TwoDenote(dbl: Doubles, u: string, v: string, n: Node)
    requires n == TabN(false, map["a" := Val(u), "b" := Val(v)])
    requires PrintRaw(dbl, u) == Some(Shown("integer", u)) && PrintRaw(dbl, v) == Some(Shown("integer", v))
    ensures Denotes(dbl, TwoMembers(u, v), n)
  {
    var x, y := Member("a", JRaw(Shown("integer", u))), Member("b", JRaw(Shown("integer", v)));
    NoMembers(dbl, n);
    MoreMembers(dbl, [], x, n);
    MoreMembers(dbl, [x], y, n);
    assert [] + [x] == [x] && [x] + [y] == [x, y] && MemberKeys([x, y]) == ["a", "b"];
    assert "a"[0] != "b"[0];
    ObjDenotes(dbl, [x, y], n);
  }
}
