/** When parsing does not end (contrib/tomlc99/toml.c:761, 776-795, 826-911, 1246-1271): exactly on a text
    that stops inside the brackets of a value, at a place where newlines are skipped, and that would be
    accepted up to there if those brackets were closed. */
module Endless {
  import opened Text
  import opened Lexer
  import opened Tree
  import opened Headers
  import opened Syntax
  import opened Strings
  import opened Parser
  import opened Grammar
  import opened Documents

  // ---- values cut off by the end of the text ----

  datatype CutVal = CutList(items: CutItems) | CutInline(entries: CutEntries)

  /** The text stops before an item, inside one, or after one. */
  datatype CutItems =
    | AtItem(nl: nat)
    | InItem(nl: nat, cut: CutVal)
    | AfterItem(nl: nat, val: CVal, nl2: nat)
    | LaterItem(nl: nat, val: CVal, nl2: nat, rest: CutItems)

  datatype CutEntry = CutEntry(key: string, cut: CutVal)

  datatype CutEntries =
    | AtEntry(nl: nat)
    | InEntry(nl: nat, part: CutEntry)
    | AfterEntry(nl: nat, entry: CEntry, nl2: nat)
    | LaterEntry(nl: nat, entry: CEntry, nl2: nat, rest: CutEntries)

  function YCut(v: CutVal): seq<Term> {
    match v
    case CutList(items) => [Mark(LBracket)] + YCutItems(items)
    case CutInline(entries) => [Mark(LBrace)] + YCutEntries(entries)
  }

  function YCutItems(c: CutItems): seq<Term> {
    match c
    case AtItem(nl) => Newlines(nl)
    case InItem(nl, v) => Newlines(nl) + YCut(v)
    case AfterItem(nl, v, nl2) => Newlines(nl) + (YVal(v) + Newlines(nl2))
    case LaterItem(nl, v, nl2, rest) => Newlines(nl) + (YVal(v) + (Newlines(nl2) + ([Mark(Comma)] + YCutItems(rest))))
  }

  function YCutEntry(e: CutEntry): seq<Term> {
    [Term(Str, e.key, false), Mark(Equal)] + YCut(e.cut)
  }

  function YCutEntries(c: CutEntries): seq<Term> {
    match c
    case AtEntry(nl) => Newlines(nl)
    case InEntry(nl, e) => Newlines(nl) + YCutEntry(e)
    case AfterEntry(nl, e, nl2) => Newlines(nl) + (YEntry(e) + Newlines(nl2))
    case LaterEntry(nl, e, nl2, rest) =>
      Newlines(nl) + (YEntry(e) + (Newlines(nl2) + ([Mark(Comma)] + YCutEntries(rest))))
  }

  // ---- the same with the open brackets closed ----

  function CloseVal(v: CutVal): CVal {
    match v
    case CutList(items) => CList(CloseItems(items))
    case CutInline(entries) => CInline(CloseEntries(entries))
  }

  function CloseItems(c: CutItems): CItems {
    match c
    case AtItem(nl) => NoItem(nl)
    case InItem(nl, v) => LastItem(nl, CloseVal(v), 0)
    case AfterItem(nl, v, nl2) => LastItem(nl, v, nl2)
    case LaterItem(nl, v, nl2, rest) => MoreItems(nl, v, nl2, CloseItems(rest))
  }

  function CloseEntry(e: CutEntry): CEntry {
    CEntry(e.key, CloseVal(e.cut))
  }

  function CloseEntries(c: CutEntries): CEntries {
    match c
    case AtEntry(nl) => NoEntry(nl)
    case InEntry(nl, e) => LastEntry(nl, CloseEntry(e), 0)
    case AfterEntry(nl, e, nl2) => LastEntry(nl, e, nl2)
    case LaterEntry(nl, e, nl2, rest) => MoreEntries(nl, e, nl2, CloseEntries(rest))
  }

  /** Reading ys from tok leads to the end of the text. */
  ghost predicate Ends(src: string, tok: Token, ys: seq<Term>)
    requires Made(src, tok)
  {
    ReadTo(src, tok, ys).Some? && ReadTo(src, tok, ys).value.eof
  }

  lemma EndsAppend(src: string, tok: Token, xs: seq<Term>, ys: seq<Term>)
    requires Made(src, tok)
    ensures Ends(src, tok, xs + ys) <==> ReadTo(src, tok, xs).Some? && Ends(src, ReadTo(src, tok, xs).value, ys)
  {
    ReadAppend(src, tok, xs, ys);
  }

  // ---- soundness: where the parser hangs, the text is cut off ----

  lemma {:induction false} SkipHangSound(src: string, tok: Token) returns (n: nat)
    requires Made(src, tok) && SkipNewlines(src, tok) == SkipHang
    ensures Ends(src, tok, Newlines(n))
    decreases |src| - tok.pos
  {
    if tok.eof {
      n := 0;
    } else {
      var m := SkipHangSound(src, Next(src, tok, false).value);
      n := m + 1;
      ReadCons(src, tok, Mark(Newline), Newlines(m));
    }
  }

  lemma {:induction false} CutListSound(src: string, vt: ValType, t: Token) returns (v: CutVal)
    requires Made(src, t) && ParseArray(src, vt, t, NEW_ARRAY) == Hang
    ensures v.CutList? && Ends(src, t, YCut(v)) && Make(vt, None, AVal(CloseVal(v))).Some?
    decreases |src| - t.pos, 2
  {
    var c := CutElemsSound(src, vt, Next(src, t, false).value, NEW_ARRAY);
    v := CutList(c);
    ReadCons(src, t, Mark(LBracket), YCutItems(c));
    ArrayRule(vt, AItems(CloseItems(c)));
  }

  lemma {:induction false} CutInlineSound(src: string, vt: ValType, t: Token, was: Option<Node>) returns (v: CutVal)
    requires Made(src, t) && OpenedTable(was).Some? && ParseTable(src, vt, t, OpenedTable(was).value) == Hang
    ensures v.CutInline? && Ends(src, t, YCut(v)) && Make(vt, was, AVal(CloseVal(v))).Some?
    decreases |src| - t.pos, 2
  {
    var c := CutEntriesSound(src, vt, Next(src, t, false).value, OpenedTable(was).value);
    v := CutInline(c);
    ReadCons(src, t, Mark(LBrace), YCutEntries(c));
  }

  lemma {:induction false} CutElemsSound(src: string, vt: ValType, tok: Token, a: Node) returns (c: CutItems)
    requires Made(src, tok) && a.ArrN? && ParseElems(src, vt, tok, a) == Hang
    ensures Ends(src, tok, YCutItems(c)) && PushAll(vt, a, AItems(CloseItems(c))).Some?
    decreases |src| - tok.pos, 5
  {
    ElemsRound(src, vt, tok, a);
    if SkipNewlines(src, tok) == SkipHang {
      var n := SkipHangSound(src, tok);
      c := AtItem(n);
    } else {
      var n := SkipSound(src, tok);
      var t := SkipNewlines(src, tok).tok;
      if CutsElem(src, vt, t) {
        var v := CutElemSound(src, vt, t, a);
        c := InItem(n, v);
        EndsAppend(src, tok, Newlines(n), YCut(v));
      } else {
        var v, u, b := ElemSound(src, vt, t, a);
        c := CutTailSound(src, vt, tok, n, t, a, v, u, b);
      }
    }
  }

  /** The element at t is itself cut off. */
  ghost predicate CutsElem(src: string, vt: ValType, t: Token)
    requires Made(src, t)
  {
    || (t.kind == LBracket && ParseArray(src, vt, t, NEW_ARRAY) == Hang)
    || (t.kind == LBrace && ParseTable(src, vt, t, NEW_TABLE) == Hang)
  }

  lemma {:induction false} CutElemSound(src: string, vt: ValType, t: Token, a: Node) returns (v: CutVal)
    requires Made(src, t) && a.ArrN? && ParseElems(src, vt, t, a) == Hang && CutsElem(src, vt, t)
    ensures Ends(src, t, YCut(v)) && PushAll(vt, a, [AVal(CloseVal(v))]).Some?
    decreases |src| - t.pos, 3
  {
    assert SkipNewlines(src, t) == Skipped(t);
    v := CutInline(AtEntry(0));
    if t.kind == LBracket { v := CutListSound(src, vt, t); } else { v := CutInlineSound(src, vt, t, None); }
    PushCons(vt, a, AVal(CloseVal(v)), []);
    assert [AVal(CloseVal(v))] + [] == [AVal(CloseVal(v))];
  }

  lemma {:induction false} CutTailSound(src: string, vt: ValType, tok: Token, n: nat, t: Token, a: Node,
                                        v: CVal, u: Token, b: Node) returns (c: CutItems)
    requires Made(src, tok) && a.ArrN? && Made(src, t) && ReadTo(src, tok, Newlines(n)) == Some(t)
    requires Made(src, u) && b.ArrN? && ReadTo(src, t, YVal(v)) == Some(u) && PushOne(vt, a, AVal(v)) == Some(b)
    requires ParseElemsTail(src, vt, u, b) == Hang && tok.pos <= u.pos
    ensures Ends(src, tok, YCutItems(c)) && PushAll(vt, a, AItems(CloseItems(c))).Some?
    decreases |src| - tok.pos, 4
  {
    hide Next, ReadTo, ParseElems, ParseElemsTail;
    ElemsTailRound(src, vt, u, b);
    if SkipNewlines(src, u) == SkipHang {
      var m := SkipHangSound(src, u);
      c := AfterItem(n, v, m);
      EndsAppend(src, t, YVal(v), Newlines(m));
      EndsAppend(src, tok, Newlines(n), YVal(v) + Newlines(m));
      PushCons(vt, a, AVal(v), []);
      assert [AVal(v)] + [] == [AVal(v)];
    } else {
      var m := SkipSound(src, u);
      var w := SkipNewlines(src, u).tok;
      var rest := CutElemsSound(src, vt, Next(src, w, false).value, b);
      c := LaterItem(n, v, m, rest);
      CommaEnds(src, u, m, w, YCutItems(rest));
      EndsAppend(src, t, YVal(v), Newlines(m) + ([Mark(Comma)] + YCutItems(rest)));
      EndsAppend(src, tok, Newlines(n), YVal(v) + (Newlines(m) + ([Mark(Comma)] + YCutItems(rest))));
      PushCons(vt, a, AVal(v), AItems(CloseItems(rest)));
    }
  }

  lemma CommaEnds(src: string, u: Token, m: nat, w: Token, ys: seq<Term>)
    requires Made(src, u) && ReadTo(src, u, Newlines(m)) == Some(w) && Made(src, w) && w.kind == Comma
    requires Next(src, w, false).Some? && Ends(src, Next(src, w, false).value, ys)
    ensures Ends(src, u, Newlines(m) + ([Mark(Comma)] + ys))
  {
    ReadMark(src, u, m, w, Mark(Comma), ys, ReadTo(src, Next(src, w, false).value, ys).value);
  }

  lemma {:induction false} CutEntriesSound(src: string, vt: ValType, tok: Token, b: Node) returns (c: CutEntries)
    requires Made(src, tok) && b.TabN? && ParseEntries(src, vt, tok, b) == Hang
    ensures Ends(src, tok, YCutEntries(c)) && InsertAll(vt, b, AEntries(CloseEntries(c))).Some?
    decreases |src| - tok.pos, 5
  {
    EntriesRound(src, vt, tok, b);
    if SkipNewlines(src, tok) == SkipHang {
      var n := SkipHangSound(src, tok);
      c := AtEntry(n);
    } else {
      var n := SkipSound(src, tok);
      var t := SkipNewlines(src, tok).tok;
      if ParseKeyval(src, vt, t, b) == Hang {
        var e := CutEntrySound(src, vt, t, b);
        c := InEntry(n, e);
        EndsAppend(src, tok, Newlines(n), YCutEntry(e));
        InsertCons(vt, b, AEntry(CloseEntry(e)), []);
        assert [AEntry(CloseEntry(e))] + [] == [AEntry(CloseEntry(e))];
      } else {
        var e := KeyvalSound(src, vt, t, b);
        c := CutEntriesTailSound(src, vt, tok, n, t, b, e, ParseKeyval(src, vt, t, b).tok,
            ParseKeyval(src, vt, t, b).node);
      }
    }
  }

  lemma {:induction false} CutEntriesTailSound(src: string, vt: ValType, tok: Token, n: nat, t: Token, b: Node,
                                               e: CEntry, u: Token, d: Node) returns (c: CutEntries)
    requires Made(src, tok) && b.TabN? && Made(src, t) && ReadTo(src, tok, Newlines(n)) == Some(t)
    requires Made(src, u) && d.TabN? && ReadTo(src, t, YEntry(e)) == Some(u) && Insert(vt, b, AEntry(e)) == Some(d)
    requires ParseEntriesTail(src, vt, u, d) == Hang && tok.pos <= u.pos
    ensures Ends(src, tok, YCutEntries(c)) && InsertAll(vt, b, AEntries(CloseEntries(c))).Some?
    decreases |src| - tok.pos, 4
  {
    hide Next, NormalizeKey, ReadTo, ParseEntries, ParseEntriesTail;
    EntriesTailRound(src, vt, u, d);
    if SkipNewlines(src, u) == SkipHang {
      var m := SkipHangSound(src, u);
      c := AfterEntry(n, e, m);
      EndsAppend(src, t, YEntry(e), Newlines(m));
      EndsAppend(src, tok, Newlines(n), YEntry(e) + Newlines(m));
      InsertCons(vt, b, AEntry(e), []);
      assert [AEntry(e)] + [] == [AEntry(e)];
    } else {
      var m := SkipSound(src, u);
      var w := SkipNewlines(src, u).tok;
      var rest := CutEntriesSound(src, vt, Next(src, w, false).value, d);
      c := LaterEntry(n, e, m, rest);
      CommaEnds(src, u, m, w, YCutEntries(rest));
      EndsAppend(src, t, YEntry(e), Newlines(m) + ([Mark(Comma)] + YCutEntries(rest)));
      EndsAppend(src, tok, Newlines(n), YEntry(e) + (Newlines(m) + ([Mark(Comma)] + YCutEntries(rest))));
      InsertCons(vt, b, AEntry(e), AEntries(CloseEntries(rest)));
    }
  }

  lemma {:induction false} CutEntrySound(src: string, vt: ValType, tok: Token, b: Node) returns (e: CutEntry)
    requires Made(src, tok) && b.TabN? && ParseKeyval(src, vt, tok, b) == Hang
    ensures Ends(src, tok, YCutEntry(e)) && Insert(vt, b, AEntry(CloseEntry(e))).Some?
    decreases |src| - tok.pos, 3
  {
    var key := TokText(src, tok);
    var t := ValueTok(src, tok).value;
    var was := Child(b, K(NormalizeKey(key).value));
    var v := CutInline(AtEntry(0));
    if t.kind == LBracket { v := CutListSound(src, vt, t); } else { v := CutInlineSound(src, vt, t, was); }
    e := CutEntry(key, v);
    ReadKey(src, tok, key, YCut(v));
  }

  // ---- completeness: where the text is cut off, the parser hangs ----

  lemma {:induction false} SkipHangComplete(src: string, tok: Token, n: nat)
    requires Made(src, tok) && Ends(src, tok, Newlines(n))
    ensures SkipNewlines(src, tok) == SkipHang
    decreases n
  {
    if n == 0 || tok.eof {
    } else {
      ReadCons(src, tok, Mark(Newline), Newlines(n - 1));
      SkipHangComplete(src, Next(src, tok, false).value, n - 1);
    }
  }

  lemma {:induction false} CutListComplete(src: string, vt: ValType, t: Token, items: CutItems)
    requires Made(src, t) && Ends(src, t, YCut(CutList(items)))
    requires Make(vt, None, List(AItems(CloseItems(items)))).Some?
    ensures t.kind == LBracket && ParseArray(src, vt, t, NEW_ARRAY) == Hang
    decreases items, 2
  {
    ReadCons(src, t, Mark(LBracket), YCutItems(items));
    ArrayRule(vt, AItems(CloseItems(items)));
    CutElemsComplete(src, vt, Next(src, t, false).value, NEW_ARRAY, items);
  }

  lemma {:induction false} CutInlineComplete(src: string, vt: ValType, t: Token, b: Node, entries: CutEntries)
    requires Made(src, t) && b.TabN? && Ends(src, t, YCut(CutInline(entries)))
    requires InsertAll(vt, b, AEntries(CloseEntries(entries))).Some?
    ensures t.kind == LBrace && ParseTable(src, vt, t, b) == Hang
    decreases entries, 2
  {
    ReadCons(src, t, Mark(LBrace), YCutEntries(entries));
    CutEntriesComplete(src, vt, Next(src, t, false).value, b, entries);
  }

  /** Newlines, then a part that starts with another terminal: the token that part starts at. */
  lemma SplitEnds(src: string, tok: Token, nl: nat, ys: seq<Term>, zs: seq<Term>) returns (t: Token, u: Token)
    requires Made(src, tok) && ys != [] && ys[0].kind != Newline && Ends(src, tok, Newlines(nl) + (ys + zs))
    ensures SkipNewlines(src, tok) == Skipped(t) && Made(src, t) && Fits(src, t, ys[0])
    ensures ReadTo(src, t, ys) == Some(u) && Made(src, u) && Ends(src, u, zs)
  {
    t, u := SplitRead(src, tok, nl, ys, zs);
  }

  lemma {:induction false} CutElemsComplete(src: string, vt: ValType, tok: Token, a: Node, c: CutItems)
    requires Made(src, tok) && a.ArrN? && Ends(src, tok, YCutItems(c)) && PushAll(vt, a, AItems(CloseItems(c))).Some?
    ensures ParseElems(src, vt, tok, a) == Hang
    decreases c, 1
  {
    hide Next, NormalizeKey;
    ElemsRound(src, vt, tok, a);
    match c
    case AtItem(nl) =>
      SkipHangComplete(src, tok, nl);
    case InItem(nl, v) =>
      assert YCut(v) + [] == YCut(v);
      var t, u := SplitEnds(src, tok, nl, YCut(v), []);
      assert ReadTo(src, t, YCut(v)) == Some(u) && u.eof;
      CutElemComplete(src, vt, t, a, v);
    case AfterItem(nl, v, nl2) =>
      ValStarts(v);
      var t, u := SplitEnds(src, tok, nl, YVal(v), Newlines(nl2));
      PushCons(vt, a, AVal(v), []);
      assert [AVal(v)] + [] == [AVal(v)];
      ElemComplete(src, vt, t, a, v, u);
      SkipHangComplete(src, u, nl2);
      ElemsTailRound(src, vt, u, PushOne(vt, a, AVal(v)).value);
    case LaterItem(nl, v, nl2, rest) =>
      ValStarts(v);
      var t, u := SplitEnds(src, tok, nl, YVal(v), Newlines(nl2) + ([Mark(Comma)] + YCutItems(rest)));
      PushCons(vt, a, AVal(v), AItems(CloseItems(rest)));
      ElemComplete(src, vt, t, a, v, u);
      var w, x := SplitEnds(src, u, nl2, [Mark(Comma)], YCutItems(rest));
      ReadOne(src, w, Mark(Comma));
      ElemsTailRound(src, vt, u, PushOne(vt, a, AVal(v)).value);
      CutElemsComplete(src, vt, x, PushOne(vt, a, AVal(v)).value, rest);
  }

  lemma {:induction false} CutElemComplete(src: string, vt: ValType, t: Token, a: Node, v: CutVal)
    requires Made(src, t) && a.ArrN? && Ends(src, t, YCut(v)) && PushAll(vt, a, [AVal(CloseVal(v))]).Some?
    ensures ParseElems(src, vt, t, a) == Hang
    decreases v, 3
  {
    PushCons(vt, a, AVal(CloseVal(v)), []);
    assert [AVal(CloseVal(v))] + [] == [AVal(CloseVal(v))];
    match v
    case CutList(items) =>
      CutListComplete(src, vt, t, items);
      assert SkipNewlines(src, t) == Skipped(t);
    case CutInline(entries) =>
      CutInlineComplete(src, vt, t, NEW_TABLE, entries);
      assert SkipNewlines(src, t) == Skipped(t);
  }

  lemma {:induction false} CutEntriesComplete(src: string, vt: ValType, tok: Token, b: Node, c: CutEntries)
    requires Made(src, tok) && b.TabN? && Ends(src, tok, YCutEntries(c))
    requires InsertAll(vt, b, AEntries(CloseEntries(c))).Some?
    ensures ParseEntries(src, vt, tok, b) == Hang
    decreases c, 1
  {
    hide Next, NormalizeKey;
    EntriesRound(src, vt, tok, b);
    match c
    case AtEntry(nl) =>
      SkipHangComplete(src, tok, nl);
    case InEntry(nl, e) =>
      assert YCutEntry(e) + [] == YCutEntry(e);
      var t, u := SplitEnds(src, tok, nl, YCutEntry(e), []);
      assert ReadTo(src, t, YCutEntry(e)) == Some(u) && u.eof;
      InsertCons(vt, b, AEntry(CloseEntry(e)), []);
      assert [AEntry(CloseEntry(e))] + [] == [AEntry(CloseEntry(e))];
      CutEntryComplete(src, vt, t, b, e);
    case AfterEntry(nl, e, nl2) =>
      var t, u := SplitEnds(src, tok, nl, YEntry(e), Newlines(nl2));
      InsertCons(vt, b, AEntry(e), []);
      assert [AEntry(e)] + [] == [AEntry(e)];
      KeyvalComplete(src, vt, t, b, e, u);
      SkipHangComplete(src, u, nl2);
      EntriesTailRound(src, vt, u, Insert(vt, b, AEntry(e)).value);
    case LaterEntry(nl, e, nl2, rest) =>
      var t, u := SplitEnds(src, tok, nl, YEntry(e), Newlines(nl2) + ([Mark(Comma)] + YCutEntries(rest)));
      InsertCons(vt, b, AEntry(e), AEntries(CloseEntries(rest)));
      KeyvalComplete(src, vt, t, b, e, u);
      var w, x := SplitEnds(src, u, nl2, [Mark(Comma)], YCutEntries(rest));
      ReadOne(src, w, Mark(Comma));
      EntriesTailRound(src, vt, u, Insert(vt, b, AEntry(e)).value);
      CutEntriesComplete(src, vt, x, Insert(vt, b, AEntry(e)).value, rest);
  }

  lemma {:induction false} CutEntryComplete(src: string, vt: ValType, tok: Token, b: Node, e: CutEntry)
    requires Made(src, tok) && b.TabN? && Ends(src, tok, YCutEntry(e)) && Insert(vt, b, AEntry(CloseEntry(e))).Some?
    ensures ParseKeyval(src, vt, tok, b) == Hang && tok.kind == Str
    decreases e, 3
  {
    hide Next, ReadTo, NormalizeKey, ParseArray, ParseTable;
    ReadKey(src, tok, e.key, YCut(e.cut));
    var t := ValueTok(src, tok).value;
    var was := Child(b, K(NormalizeKey(e.key).value));
    match e.cut
    case CutList(items) => CutListComplete(src, vt, t, items);
    case CutInline(entries) => CutInlineComplete(src, vt, t, OpenedTable(was).value, entries);
  }

  // ---- documents ----

  /** From tok and d on: statements that can be run, then an entry whose value the end of the text cuts off,
      and which could be run too if its brackets were closed. */
  ghost predicate CutFrom(src: string, vt: ValType, tok: Token, d: Sel, cs: seq<CStmt>, e: CutEntry)
    requires Made(src, tok) && d.Valid() && d.root.TabN?
  {
    && (forall s :: s in cs ==> WellFormed(s))
    && Ends(src, tok, YDoc(cs) + YCutEntry(e))
    && Run(vt, d, ADoc(cs) + [KeyVal(AEntry(CloseEntry(e)))]).Some?
  }

  lemma CutNow(src: string, vt: ValType, tok: Token, d: Sel, e: CutEntry)
    requires Made(src, tok) && d.Valid() && d.root.TabN?
    ensures CutFrom(src, vt, tok, d, [], e) <==>
            Ends(src, tok, YCutEntry(e)) && Insert(vt, d.Table(), AEntry(CloseEntry(e))).Some?
  {
    assert [] + YCutEntry(e) == YCutEntry(e);
    var s := KeyVal(AEntry(CloseEntry(e)));
    assert ADoc([]) + [s] == [s];
    RunOne(vt, d, s);
  }

  lemma CutLater(src: string, vt: ValType, tok: Token, d: Sel, c: CStmt, cs: seq<CStmt>, e: CutEntry)
    requires Made(src, tok) && d.Valid() && d.root.TabN? && WellFormed(c)
    ensures CutFrom(src, vt, tok, d, [c] + cs, e) <==>
            && ReadTo(src, tok, YStmt(c)).Some? && Run(vt, d, AStmt(c)).Some?
            && CutFrom(src, vt, ReadTo(src, tok, YStmt(c)).value, Run(vt, d, AStmt(c)).value, cs, e)
  {
    hide Run, ReadTo, Next, AStmt, YStmt, YCutEntry, Insert;
    assert ([c] + cs)[1..] == cs;
    assert forall s :: s in [c] + cs <==> s == c || s in cs;
    var s := KeyVal(AEntry(CloseEntry(e)));
    assert ADoc([c] + cs) + [s] == AStmt(c) + (ADoc(cs) + [s]);
    RunAppend(vt, d, AStmt(c), ADoc(cs) + [s]);
    if forall s :: s in cs ==> WellFormed(s) {
      assert YDoc([c] + cs) + YCutEntry(e) == YStmt(c) + (YDoc(cs) + YCutEntry(e));
      EndsAppend(src, tok, YStmt(c), YDoc(cs) + YCutEntry(e));
    }
  }

  lemma {:induction false} LinesCutSound(src: string, vt: ValType, tok: Token, d: Sel)
      returns (cs: seq<CStmt>, e: CutEntry)
    requires Made(src, tok) && d.Valid() && d.root.TabN? && ParseLines(src, vt, tok, d) == Stuck
    ensures CutFrom(src, vt, tok, d, cs, e)
    decreases |src| - tok.pos
  {
    hide CutFrom, Next;
    if ParseLine(src, vt, tok, d) == LineHang {
      cs := [];
      e := CutEntrySound(src, vt, tok, d.Table());
      CutNow(src, vt, tok, d, e);
    } else {
      var r := ParseLine(src, vt, tok, d);
      var c := LineSound(src, vt, tok, d);
      var next := if c.CHeader? then Next(src, r.tok, true).value else r.tok;
      var rest;
      rest, e := LinesCutSound(src, vt, next, r.sel);
      cs := [c] + rest;
      CutLater(src, vt, tok, d, c, rest, e);
    }
  }

  lemma {:induction false} NoCutAtEof(src: string, vt: ValType, tok: Token, d: Sel, cs: seq<CStmt>, e: CutEntry)
    requires Made(src, tok) && d.Valid() && d.root.TabN? && tok.eof
    ensures !CutFrom(src, vt, tok, d, cs, e)
    decreases |cs|
  {
    if CutFrom(src, vt, tok, d, cs, e) {
      if cs == [] {
        CutNow(src, vt, tok, d, e);
        ReadKey(src, tok, e.key, YCut(e.cut));
      } else {
        assert cs == [cs[0]] + cs[1..];
        CutLater(src, vt, tok, d, cs[0], cs[1..], e);
        OnlyBlankAtEof(src, tok, cs[0]);
        EofIsFixed(src, tok, true);
        NoCutAtEof(src, vt, tok, d, cs[1..], e);
      }
    }
  }

  lemma {:induction false} LinesCutComplete(src: string, vt: ValType, tok: Token, d: Sel, cs: seq<CStmt>, e: CutEntry)
    requires Made(src, tok) && d.Valid() && d.root.TabN? && CutFrom(src, vt, tok, d, cs, e)
    ensures ParseLines(src, vt, tok, d) == Stuck
    decreases |cs|
  {
    hide CutFrom, Next, NormalizeKey, ParseKeyval;
    if tok.eof { NoCutAtEof(src, vt, tok, d, cs, e); }
    if cs == [] {
      CutNow(src, vt, tok, d, e);
      CutEntryComplete(src, vt, tok, d.Table(), e);
    } else {
      var c, rest := cs[0], cs[1..];
      assert cs == [c] + rest;
      WellFormedFirst(src, vt, tok, d, cs, e);
      CutLater(src, vt, tok, d, c, rest, e);
      var end := ReadTo(src, tok, YStmt(c)).value;
      LineComplete(src, vt, tok, d, c, end);
      var r := ParseLine(src, vt, tok, d);
      LinesCutComplete(src, vt, end, r.sel, rest, e);
      if c.CHeader? { NewlineStep(src, vt, r.tok, r.sel); }
    }
  }

  lemma WellFormedFirst(src: string, vt: ValType, tok: Token, d: Sel, cs: seq<CStmt>, e: CutEntry)
    requires Made(src, tok) && d.Valid() && d.root.TabN? && CutFrom(src, vt, tok, d, cs, e) && cs != []
    ensures WellFormed(cs[0])
  {
  }

  /** toml_parse does not end exactly on the texts that stop inside the brackets of a value, at a place where
      newlines are skipped, after statements that can be run, and of which the part that was read could be
      run too if the open brackets were closed. */
  lemma {:induction false} StuckExactly(src: string, vt: ValType)
    ensures ParseDoc(src, vt) == Stuck <==>
            && Next(src, START, true).Some?
            && exists cs, e :: CutFrom(src, vt, Next(src, START, true).value, START_SEL, cs, e)
  {
    hide CutFrom, ParseLines;
    if Next(src, START, true).Some? {
      var t := Next(src, START, true).value;
      if ParseDoc(src, vt) == Stuck {
        var cs, e := LinesCutSound(src, vt, t, START_SEL);
      }
      if cs, e :| CutFrom(src, vt, t, START_SEL, cs, e) {
        LinesCutComplete(src, vt, t, START_SEL, cs, e);
      }
    }
  }

  /** The shortest such text. */
  lemma {:induction false} OpenBracketHangs(src: string, vt: ValType)
    requires src == "a=["
    ensures ParseDoc(src, vt) == Stuck
  {
    hide Next, NormalizeKey, ParseElems, ValueTok;
    var key, open, end := Token(Str, 1, 0, 1, false), Token(LBracket, 1, 2, 1, false), Token(Newline, 1, 3, 0, true);
    FirstToken(src);
    SecondTokens(src);
    LastToken(src);
    EndHangs(src, vt, end);
    assert TokText(src, key) == "a";
    BareKey();
    assert ParseArray(src, vt, open, NEW_ARRAY) == Hang;
    assert START_SEL.Table() == NEW_TABLE;
    assert ParseKeyval(src, vt, key, NEW_TABLE) == Hang;
    assert ParseLine(src, vt, key, START_SEL) == LineHang;
  }

  lemma BareKey()
    ensures NormalizeKey("a") == Some("a")
  {
  }

  lemma EndHangs(src: string, vt: ValType, end: Token)
    requires Made(src, end) && end.eof
    ensures ParseElems(src, vt, end, NEW_ARRAY) == Hang
  {
    assert SkipNewlines(src, end) == SkipHang;
  }

  lemma FirstToken(src: string)
    requires src == "a=["
    ensures Next(src, START, true) == Some(Token(Str, 1, 0, 1, false))
  {
    assert src[0] == 'a' && src[1] == '=';
    assert GapEnd(src, 0) == 0;
    assert BareEnd(src, 1, true) == 1;
    assert ScanEnd(src, 0, true) == Some(1);
  }

  lemma SecondTokens(src: string)
    requires src == "a=["
    ensures ValueTok(src, Token(Str, 1, 0, 1, false)) == Some(Token(LBracket, 1, 2, 1, false))
  {
    hide Next;
    PlainNext(src, Token(Str, 1, 0, 1, false), Equal);
    PlainNext(src, Token(Equal, 1, 1, 1, false), LBracket);
  }

  lemma LastToken(src: string)
    requires src == "a=["
    ensures Next(src, Token(LBracket, 1, 2, 1, false), false) == Some(Token(Newline, 1, 3, 0, true))
  {
    assert src[2] == '[';
    assert NewlinesBefore(src, 3) == NewlinesBefore(src, 2);
    assert GapEnd(src, 3) == 3;
  }

  /** A punctuation byte right after the token t, on the same line. */
  lemma PlainNext(src: string, t: Token, k: Kind)
    requires ValidTok(src, t) && t.len == 1 && src[t.pos] != '\n'
    requires t.pos + 1 < |src| && Punct(src[t.pos + 1]) == Some(k)
    ensures Next(src, t, false) == Some(Token(k, t.lineno, t.pos + 1, 1, false))
  {
  }
}
