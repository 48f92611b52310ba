/** A reader for what cat prints, written from the format alone: which braces, brackets, colons, commas and quotes
    stand where (contrib/tomlc99/toml_json.c:54-165). It inverts the printer. */
module Reader {
  import opened Text
  import opened EscapePrinter
  import opened Scalars
  import opened Json

  // ---- the reader ----

  /** The text after a given start. */
  function Skip(lit: string, s: string): (r: Option<string>)
    ensures r.Some? ==> s == lit + r.value
  {
    if lit <= s then Some(s[|lit|..]) else None
  }

  /** The place of the first quote; with escapes, a backslash takes the byte after it along. */
  function QuoteAt(s: string, escapes: bool): (r: Option<nat>)
    ensures r.Some? ==> r.value < |s| && s[r.value] == '"'
  {
    if s == "" then None
    else if s[0] == '"' then Some(0)
    else
      var n := if escapes && s[0] == '\\' && |s| > 1 then 2 else 1;
      match QuoteAt(s[n..], escapes) case None => None case Some(i) => Some(i + n)
  }

  /** The text up to that quote, and the text after the quote. */
  function UpToQuote(s: string, escapes: bool): (r: Option<(string, string)>)
    ensures r.Some? ==> s == r.value.0 + ("\"" + r.value.1)
  {
    match QuoteAt(s, escapes) case None => None case Some(i) => Some((s[..i], s[i + 1..]))
  }

  /** One printed value, and the text after it. */
  function ReadJson(s: string): (r: Option<(Json, string)>)
    ensures r.Some? ==> |r.value.1| < |s|
    decreases |s|, 1
  {
    if "[" <= s then
      match ReadItems(s[1..], true) case None => None case Some((js, x)) => Some((JTables(js), x))
    else if "{\"type\":\"" <= s then ReadTyped(s[9..])
    else if "{" <= s then
      match ReadMembers(s[1..], true) case None => None case Some((ms, x)) => Some((JObj(ms), x))
    else None
  }

  /** What follows the quote before a type. */
  function ReadTyped(s: string): (r: Option<(Json, string)>)
    ensures r.Some? ==> |r.value.1| < |s|
    decreases |s|, 0
  {
    match UpToQuote(s, false)
    case None => None
    case Some((typ, t)) => if typ == "array" then ReadArray(t) else ReadScalar(typ, t)
  }

  function ReadArray(s: string): (r: Option<(Json, string)>)
    ensures r.Some? ==> |r.value.1| < |s|
    decreases |s|, 0
  {
    match Skip(",\"value\":[", s)
    case None => None
    case Some(t) =>
      match ReadItems(t, true)
      case None => None
      case Some((js, u)) => match Skip("}", u) case None => None case Some(x) => Some((JList(js), x))
  }

  function ReadScalar(typ: string, s: string): (r: Option<(Json, string)>)
    ensures r.Some? ==> |r.value.1| < |s|
  {
    match Skip(",\"value\":\"", s)
    case None => None
    case Some(t) =>
      match UpToQuote(t, typ == "string")
      case None => None
      case Some((value, u)) =>
        match Skip("}", u)
        case None => None
        case Some(x) => if typ == "" then None else Some((JRaw(Shown(typ, value)), x))
  }

  /** Items up to a bracket; all but the first have a comma before them. */
  function ReadItems(s: string, first: bool): (r: Option<(seq<Json>, string)>)
    ensures r.Some? ==> |r.value.1| < |s|
    decreases |s|, 2
  {
    if "]" <= s then Some(([], s[1..]))
    else
      match if first then Some(s) else Skip(",", s)
      case None => None
      case Some(t) =>
        match ReadJson(t)
        case None => None
        case Some((j, u)) =>
          match ReadItems(u, false) case None => None case Some((js, x)) => Some(([j] + js, x))
  }

  /** Members up to a brace. */
  function ReadMembers(s: string, first: bool): (r: Option<(seq<Member>, string)>)
    ensures r.Some? ==> |r.value.1| < |s|
    decreases |s|, 2
  {
    if "}" <= s then Some(([], s[1..]))
    else
      match Skip(if first then "\"" else ",\"", s)
      case None => None
      case Some(t) =>
        match UpToQuote(t, false)
        case None => None
        case Some((key, u)) =>
          match Skip(":", u)
          case None => None
          case Some(v) =>
            match ReadJson(v)
            case None => None
            case Some((j, w)) =>
              match ReadMembers(w, false) case None => None case Some((ms, x)) => Some(([Member(key, j)] + ms, x))
  }

  lemma SkipFront(lit: string, x: string)
    ensures Skip(lit, lit + x) == Some(x) && lit <= lit + x && (lit + x)[|lit|..] == x
  {
  }

  lemma {:induction false} QuoteAfter(a: string, x: string)
    requires '"' !in a
    ensures UpToQuote(a + ("\"" + x), false) == Some((a, x))
    decreases |a|
  {
    var s := a + ("\"" + x);
    if a == [] {
      assert s == "\"" + x;
    } else {
      assert s[0] == a[0] && a[0] in a;
      assert s[1..] == a[1..] + ("\"" + x);
      QuoteAfter(a[1..], x);
      assert s[..|a|] == a && s[|a| + 1..] == x;
      QuoteUnique(a[1..], x, s[1..]);
    }
  }

  lemma QuoteUnique(a: string, x: string, s: string)
    requires s == a + ("\"" + x) && UpToQuote(s, false) == Some((a, x))
    ensures QuoteAt(s, false) == Some(|a|)
  {
  }

  /** An escaped text ends at the quote after it. */
  lemma {:induction false} QuoteAfterEscapes(v: string, x: string)
    ensures QuoteAt(Escape(v) + ("\"" + x), true) == Some(|Escape(v)|)
    decreases |v|
  {
    hide EscapeChar;
    var s := Escape(v) + ("\"" + x);
    if v == [] {
      assert s == "\"" + x;
    } else {
      var e, rest := EscapeChar(v[0]), Escape(v[1..]) + ("\"" + x);
      assert s == e + rest;
      assert s[|e|..] == rest && s[0] == e[0];
      EscapeWidth(v[0]);
      QuoteAfterEscapes(v[1..], x);
    }
  }

  lemma EscapeWidth(c: char)
    ensures var e := EscapeChar(c); e[0] != '"' && (|e| == 2 <==> e[0] == '\\')
  {
  }

  lemma EscapedUpTo(v: string, x: string)
    ensures UpToQuote(Escape(v) + ("\"" + x), true) == Some((Escape(v), x))
  {
    QuoteAfterEscapes(v, x);
    var s := Escape(v) + ("\"" + x);
    assert s[..|Escape(v)|] == Escape(v) && s[|Escape(v)| + 1..] == x;
  }

  // ---- what can be told apart ----

  /** A type and a value that end at the quotes print_raw puts after them. */
  ghost predicate GoodScalar(s: Shown) {
    && s.typ != "" && '"' !in s.typ && s.typ != "array"
    && (if s.typ == "string" then exists v :: s.value == Escape(v) else '"' !in s.value)
  }

  ghost predicate Clean(j: Json)
    decreases j, 1
  {
    match j
    case JRaw(s) => GoodScalar(s)
    case JList(items) => forall i :: 0 <= i < |items| ==> Clean(items[i])
    case JTables(items) => forall i :: 0 <= i < |items| ==> Clean(items[i])
    case JObj(members) => CleanMembers(members)
  }

  ghost predicate CleanMembers(ms: seq<Member>)
    decreases ms, 0
  {
    forall i :: 0 <= i < |ms| ==> '"' !in ms[i].key && Clean(ms[i].val)
  }

  ghost predicate CleanItems(js: seq<Json>) {
    forall i :: 0 <= i < |js| ==> Clean(js[i])
  }

  // ---- what was printed is read back ----

  /** The first byte of what is printed. */
  lemma FirstByte(j: Json)
    requires Clean(j)
    ensures Render(j) != "" && Render(j)[0] == if j.JTables? then '[' else '{'
  {
  }

  /** A text up to its first quote. */
  lemma CutAtQuote(a: string, b: string, x: string, y: string)
    requires '"' !in a && '"' !in b && a + ("\"" + x) == b + ("\"" + y)
    ensures a == b && x == y
  {
    var s := a + ("\"" + x);
    assert s[|a|] == '"' && s[|b|] == '"';
    assert forall i :: 0 <= i < |a| ==> s[i] == a[i] && a[i] in a;
    assert forall i :: 0 <= i < |b| ==> s[i] == b[i] && b[i] in b;
    assert s[..|a|] == a && s[..|b|] == b && s[|a| + 1..] == x && s[|b| + 1..] == y;
  }

  lemma CutFront(a: string, x: string, y: string)
    requires a + x == a + y
    ensures x == y
  {
    assert (a + x)[|a|..] == x && (a + y)[|a|..] == y;
  }

  function AfterKey(ms: seq<Member>, x: string): string
    requires ms != []
  {
    Render(ms[0].val) + (RenderMembers(ms[1..], false) + ("}" + x))
  }

  /** What stands before a key. */
  function Sep(first: bool): string {
    if first then "\"" else ",\""
  }

  lemma Regroup(p: string, k: string, q: string, c: string, r: string, t: string, e: string)
    ensures ((p + (k + (q + (c + r)))) + t) + e == p + (k + (q + (c + (r + (t + e)))))
  {
  }

  lemma MemberText(m: Member, first: bool)
    ensures RenderMember(m, first) == Sep(first) + (m.key + ("\"" + (":" + Render(m.val))))
  {
    var r := Render(m.val);
    assert "\":" + r == "\"" + (":" + r);
    var y := m.key + ("\":" + r);
    assert (if first then "" else ",") + ("\"" + y) == Sep(first) + y;
  }

  /** The first member, followed by the others and the closing brace. */
  lemma MemberCut(a: seq<Member>, first: bool, x: string)
    requires a != []
    ensures RenderMembers(a, first) + ("}" + x) == Sep(first) + (a[0].key + ("\"" + (":" + AfterKey(a, x))))
  {
    hide RenderMember, Render, Sep;
    MemberText(a[0], first);
    Regroup(Sep(first), a[0].key, "\"", ":", Render(a[0].val), RenderMembers(a[1..], false), "}" + x);
  }

  /** After a key comes a value, after the word type of a scalar or an array a quote. */
  lemma WordIsNoKey(ms: seq<Member>, y: string)
    requires ms != [] && CleanMembers(ms)
    ensures AfterKey(ms, y) != "" && AfterKey(ms, y)[0] != '"'
  {
    FirstByte(ms[0].val);
    assert AfterKey(ms, y)[0] == Render(ms[0].val)[0];
  }

  lemma {:induction false} ReadBack(j: Json, x: string)
    requires Clean(j)
    ensures ReadJson(Render(j) + x) == Some((j, x))
    decreases j, 2
  {
    match j
    case JRaw(s) => RawBack(s, x);
    case JList(items) => ListBack(items, x);
    case JTables(items) =>
      var t := RenderItems(items, true) + ("]" + x);
      assert Render(j) + x == "[" + t;
      SkipFront("[", t);
      ItemsBack(items, true, x);
    case JObj(ms) => ObjBack(ms, x);
  }

  lemma RawBack(s: Shown, x: string)
    requires GoodScalar(s)
    ensures ReadJson(Render(JRaw(s)) + x) == Some((JRaw(s), x))
  {
    hide UpToQuote, ReadScalar;
    var w := ",\"value\":\"" + (s.value + ("\"" + ("}" + x)));
    var t := s.typ + ("\"" + w);
    assert Render(JRaw(s)) + x == "{\"type\":\"" + t;
    SkipFront("{\"type\":\"", t);
    QuoteAfter(s.typ, w);
    ScalarBack(s, x);
    HeadOf("[", "{\"type\":\"" + t);
  }

  lemma HeadOf(lit: string, s: string)
    requires lit != "" && s != "" && s[0] != lit[0]
    ensures !(lit <= s)
  {
  }

  lemma ScalarBack(s: Shown, x: string)
    requires GoodScalar(s)
    ensures ReadScalar(s.typ, ",\"value\":\"" + (s.value + ("\"" + ("}" + x)))) == Some((JRaw(s), x))
  {
    hide UpToQuote;
    SkipFront(",\"value\":\"", s.value + ("\"" + ("}" + x)));
    if s.typ == "string" {
      var v :| s.value == Escape(v);
      EscapedUpTo(v, "}" + x);
    } else {
      QuoteAfter(s.value, "}" + x);
    }
    SkipFront("}", x);
  }

  lemma {:induction false} ListBack(items: seq<Json>, x: string)
    requires CleanItems(items)
    ensures ReadJson(Render(JList(items)) + x) == Some((JList(items), x))
    decreases items, 1
  {
    hide UpToQuote, ReadArray, RenderItems, Skip;
    var u := RenderItems(items, true) + ("]" + ("}" + x));
    var t := "array" + ("\"" + (",\"value\":[" + u));
    assert Render(JList(items)) + x == "{\"type\":\"" + t;
    SkipFront("{\"type\":\"", t);
    HeadOf("[", "{\"type\":\"" + t);
    QuoteAfter("array", ",\"value\":[" + u);
    ItemsBack(items, true, "}" + x);
    ArrayBack(items, u, x);
  }

  lemma ArrayBack(items: seq<Json>, u: string, x: string)
    requires ReadItems(u, true) == Some((items, "}" + x))
    ensures ReadArray(",\"value\":[" + u) == Some((JList(items), x))
  {
    hide ReadItems;
    SkipFront(",\"value\":[", u);
    SkipFront("}", x);
  }

  lemma {:induction false} ObjBack(ms: seq<Member>, x: string)
    requires CleanMembers(ms)
    ensures ReadJson(Render(JObj(ms)) + x) == Some((JObj(ms), x))
    decreases ms, 1
  {
    hide ReadMembers, ReadTyped;
    var t := RenderMembers(ms, true) + ("}" + x);
    assert Render(JObj(ms)) + x == "{" + t;
    SkipFront("{", t);
    HeadOf("[", "{" + t);
    NotTyped(ms, x);
    MembersBack(ms, true, x);
  }

  /** A table with the key type is not taken for a scalar. */
  lemma NotTyped(ms: seq<Member>, x: string)
    requires CleanMembers(ms)
    ensures !("{\"type\":\"" <= "{" + (RenderMembers(ms, true) + ("}" + x)))
  {
    var t := RenderMembers(ms, true) + ("}" + x);
    if ms == [] {
      assert ("{" + t)[1] == '}';
    } else if "{\"type\":\"" <= "{" + t {
      var z := ("{" + t)[9..];
      var a := ms[0].key + ("\"" + (":" + AfterKey(ms, x)));
      MemberCut(ms, true, x);
      assert "{" + t == "{\"" + a;
      assert "{" + t == "{\"" + ("type" + ("\"" + (":" + ("\"" + z))));
      CutFront("{\"", a, "type" + ("\"" + (":" + ("\"" + z))));
      CutAtQuote(ms[0].key, "type", ":" + AfterKey(ms, x), ":" + ("\"" + z));
      CutFront(":", AfterKey(ms, x), "\"" + z);
      WordIsNoKey(ms, x);
    }
  }

  lemma {:induction false} ItemsBack(js: seq<Json>, first: bool, x: string)
    requires CleanItems(js)
    ensures ReadItems(RenderItems(js, first) + ("]" + x), first) == Some((js, x))
    decreases js, 0
  {
    hide ReadJson, Render;
    var s := RenderItems(js, first) + ("]" + x);
    if js == [] {
      assert s == "]" + x;
    } else {
      var u := RenderItems(js[1..], false) + ("]" + x);
      var t := Render(js[0]) + u;
      ItemFront(js, first, x);
      FirstByte(js[0]);
      SkipFront(",", t);
      assert (if first then "" else ",") + t == if first then t else "," + t;
      HeadOf("]", s);
      ReadBack(js[0], u);
      ItemsBack(js[1..], false, x);
      assert js == [js[0]] + js[1..];
    }
  }

  lemma ItemFront(js: seq<Json>, first: bool, x: string)
    requires js != []
    ensures RenderItems(js, first) + ("]" + x) ==
            (if first then "" else ",") + (Render(js[0]) + (RenderItems(js[1..], false) + ("]" + x)))
  {
  }

  lemma {:induction false} MembersBack(ms: seq<Member>, first: bool, x: string)
    requires CleanMembers(ms)
    ensures ReadMembers(RenderMembers(ms, first) + ("}" + x), first) == Some((ms, x))
    decreases ms, 0
  {
    hide ReadJson, Render, RenderMember, UpToQuote;
    var s := RenderMembers(ms, first) + ("}" + x);
    if ms == [] {
      assert s == "}" + x;
    } else {
      var w := RenderMembers(ms[1..], false) + ("}" + x);
      var v := Render(ms[0].val) + w;
      MemberCut(ms, first, x);
      assert AfterKey(ms, x) == v;
      SkipFront(if first then "\"" else ",\"", ms[0].key + ("\"" + (":" + v)));
      QuoteAfter(ms[0].key, ":" + v);
      SkipFront(":", v);
      ReadBack(ms[0].val, w);
      MembersBack(ms[1..], false, x);
      assert ms == [ms[0]] + ms[1..];
    }
  }

  // ---- what is read was printed ----

  lemma {:induction false} ReadWasPrinted(s: string)
    requires ReadJson(s).Some?
    ensures var (j, x) := ReadJson(s).value; s == Render(j) + x
    decreases |s|, 1
  {
    if "[" <= s {
      ItemsWerePrinted(s[1..], true);
      var (js, x) := ReadItems(s[1..], true).value;
      assert s == "[" + s[1..];
    } else if "{\"type\":\"" <= s {
      TypedWasPrinted(s[9..]);
      assert s == "{\"type\":\"" + s[9..];
    } else {
      MembersWerePrinted(s[1..], true);
      var (ms, x) := ReadMembers(s[1..], true).value;
      assert s == "{" + s[1..];
    }
  }

  lemma {:induction false} TypedWasPrinted(s: string)
    requires ReadTyped(s).Some?
    ensures var (j, x) := ReadTyped(s).value; "{\"type\":\"" + s == Render(j) + x
    decreases |s|, 0
  {
    hide UpToQuote, ReadScalar, ReadArray;
    var (typ, t) := UpToQuote(s, false).value;
    if typ == "array" { ArrayWasPrinted(t); } else { ScalarWasPrinted(typ, t); }
    assert "{\"type\":\"" + s == "{\"type\":\"" + (typ + ("\"" + t));
  }

  lemma {:induction false} ArrayWasPrinted(t: string)
    requires ReadArray(t).Some?
    ensures var (j, x) := ReadArray(t).value; "{\"type\":\"" + ("array" + ("\"" + t)) == Render(j) + x
    decreases |t|, 0
  {
    hide Skip, ReadItems, RenderItems;
    var u := Skip(",\"value\":[", t).value;
    ItemsWerePrinted(u, true);
    var (js, w) := ReadItems(u, true).value;
    var x := Skip("}", w).value;
    assert t == ",\"value\":[" + (RenderItems(js, true) + ("]" + ("}" + x)));
  }

  lemma ScalarWasPrinted(typ: string, t: string)
    requires ReadScalar(typ, t).Some?
    ensures var (j, x) := ReadScalar(typ, t).value; "{\"type\":\"" + (typ + ("\"" + t)) == Render(j) + x
  {
    hide UpToQuote, Skip;
    var u := Skip(",\"value\":\"", t).value;
    var (value, w) := UpToQuote(u, typ == "string").value;
    var x := Skip("}", w).value;
    assert t == ",\"value\":\"" + (value + ("\"" + ("}" + x)));
  }

  lemma {:induction false} ItemsWerePrinted(s: string, first: bool)
    requires ReadItems(s, first).Some?
    ensures var (js, x) := ReadItems(s, first).value; s == RenderItems(js, first) + ("]" + x)
    decreases |s|, 2
  {
    hide ReadJson, Render;
    if "]" <= s {
      assert s == "]" + s[1..];
    } else {
      var t := if first then s else Skip(",", s).value;
      ReadWasPrinted(t);
      var (j, u) := ReadJson(t).value;
      ItemsWerePrinted(u, false);
      var (js, x) := ReadItems(u, false).value;
      assert ([j] + js)[1..] == js;
    }
  }

  lemma {:induction false} MembersWerePrinted(s: string, first: bool)
    requires ReadMembers(s, first).Some?
    ensures var (ms, x) := ReadMembers(s, first).value; s == RenderMembers(ms, first) + ("}" + x)
    decreases |s|, 2
  {
    hide ReadJson, Render, UpToQuote, Skip;
    if "}" <= s {
      assert s == "}" + s[1..];
    } else {
      var t := Skip(if first then "\"" else ",\"", s).value;
      var (key, u) := UpToQuote(t, false).value;
      var v := Skip(":", u).value;
      ReadWasPrinted(v);
      var (j, w) := ReadJson(v).value;
      MembersWerePrinted(w, false);
      var (ms, x) := ReadMembers(w, false).value;
      var all := [Member(key, j)] + ms;
      assert all[1..] == ms;
      MemberCut(all, first, x);
    }
  }

  /** The reader inverts the printer: of the nestings whose keys and scalars end at their quotes, it reads j off
      the front of a text and leaves x exactly when the text is the print of j followed by x. */
  lemma ReadsExactly(s: string, j: Json, x: string)
    requires Clean(j)
    ensures ReadJson(s) == Some((j, x)) <==> s == Render(j) + x
  {
    hide ReadJson, Render, Clean;
    if ReadJson(s) == Some((j, x)) { ReadWasPrinted(s); }
    if s == Render(j) + x { ReadBack(j, x); }
  }
}
