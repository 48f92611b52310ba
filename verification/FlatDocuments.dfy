/** Documents of plain entries as text (contrib/tomlc99/toml.c:928-980, 1204-1276): which are accepted, and the table
    they build. */
module FlatDocuments {
  import opened Text
  import opened Lexer
  import opened Tree
  import opened Headers
  import opened Syntax
  import opened Strings
  import opened Parser
  import opened Grammar
  import opened Documents
  import opened Unambiguous
  import opened Written
  import opened DocumentText
  import Sections

  /** Entries of a bare key and a word each. */
  function EntryLines(es: seq<(string, string)>): (cs: seq<CStmt>)
    ensures |cs| == |es| && forall s :: s in cs ==> WellFormed(s)
  {
    if es == [] then [] else [CLine(CEntry(es[0].0, CScalar(es[0].1)))] + EntryLines(es[1..])
  }

  ghost predicate EntriesFit(es: seq<(string, string)>) {
    forall i :: 0 <= i < |es| ==> BareKey(es[i].0) && OneWord(es[i].1, false)
  }

  predicate KeysDiffer(es: seq<(string, string)>) {
    forall i, j :: 0 <= i < j < |es| ==> es[i].0 != es[j].0
  }

  /** They differ from each other and from the keys of a table. */
  predicate Fresh(kids: map<string, Node>, es: seq<(string, string)>) {
    KeysDiffer(es) && forall i :: 0 <= i < |es| ==> es[i].0 !in kids
  }

  /** The tree of such a document, from a table that is there already. */
  function EntryTree(kids: map<string, Node>, es: seq<(string, string)>): Node
    decreases |es|
  {
    if es == [] then TabN(false, kids) else EntryTree(kids[es[0].0 := Val(es[0].1)], es[1..])
  }

  lemma EntryStmtFits(k: string, w: string, dot: bool)
    requires BareKey(k) && OneWord(w, false)
    ensures var c := CLine(CEntry(k, CScalar(w)));
            WordsFit(YStmt(c), dot) && YStmt(c) != [] && YStmt(c)[|YStmt(c)| - 1] == Mark(Newline)
  {
    hide OneWord, BareKey, WordsFit;
    var a, e, v, n := Term(Str, k, false), Mark(Equal), Term(Str, w, false), Mark(Newline);
    assert YEntry(CEntry(k, CScalar(w))) == [a, e] + [v];
    assert YStmt(CLine(CEntry(k, CScalar(w)))) == [a] + ([e] + ([v] + [n]));
    BareKeyFits(k, dot);
    NoWordsFit([n], false);
    MoreFits(v, [n], false);
    MoreFits(e, [v] + [n], false);
    MoreFits(a, [e] + ([v] + [n]), dot);
  }

  lemma {:induction false} EntriesDocFits(es: seq<(string, string)>, dot: bool)
    requires EntriesFit(es)
    ensures WordsFit(YDoc(EntryLines(es)), dot)
    decreases |es|
  {
    hide OneWord, BareKey, WordsFit, YStmt;
    var cs := EntryLines(es);
    if es == [] {
      NoWordsFit([], dot);
    } else {
      EntryStmtFits(es[0].0, es[0].1, dot);
      EntriesDocFits(es[1..], false);
      assert cs[1..] == EntryLines(es[1..]);
      WordsAppend(YStmt(cs[0]), YDoc(cs[1..]), dot);
    }
  }

  lemma {:induction false} EntriesRun(vt: ValType, kids: map<string, Node>, es: seq<(string, string)>)
    requires EntriesFit(es)
    ensures Run(vt, Sel(TabN(false, kids), []), ADoc(EntryLines(es))) ==
            if Fresh(kids, es) then Some(Sel(EntryTree(kids, es), [])) else None
    decreases |es|
  {
    hide OneWord, BareKey, NormalizeKey, RunStmt, Fresh;
    var d, cs := Sel(TabN(false, kids), []), EntryLines(es);
    if es == [] {
      NothingIsFresh(kids);
    } else {
      var (k, w) := es[0];
      var more := kids[k := Val(w)];
      BareKeyFits(k, true);
      assert cs == [cs[0]] + EntryLines(es[1..]);
      OneLine(k, w);
      RunCons(vt, d, cs[0], EntryLines(es[1..]));
      RunOne(vt, d, KeyVal(Entry(k, Scalar(w))));
      EntryRuns(vt, kids, k, w);
      EntriesRun(vt, more, es[1..]);
      FreshKeys(kids, es, more);
    }
  }

  lemma OneLine(k: string, w: string)
    ensures AStmt(CLine(CEntry(k, CScalar(w)))) == [KeyVal(Entry(k, Scalar(w)))]
  {
    var v := CScalar(w);
    var e := CEntry(k, v);
    assert AVal(v) == Scalar(w);
    assert AEntry(e) == Entry(k, AVal(v));
  }

  lemma NothingIsFresh(kids: map<string, Node>)
    ensures Fresh(kids, [])
  {
  }

  lemma EntryRuns(vt: ValType, kids: map<string, Node>, k: string, w: string)
    requires NormalizeKey(k) == Some(k)
    ensures RunStmt(vt, Sel(TabN(false, kids), []), KeyVal(Entry(k, Scalar(w)))) ==
            if k in kids then None else Some(Sel(TabN(false, kids[k := Val(w)]), []))
  {
    var d := Sel(TabN(false, kids), []);
    assert d.Table() == TabN(false, kids);
    assert Insert(vt, d.Table(), Entry(k, Scalar(w))) ==
           if k in kids then None else Some(TabN(false, kids[k := Val(w)]));
    if k !in kids { assert Put(d.root, [], TabN(false, kids[k := Val(w)])) == TabN(false, kids[k := Val(w)]); }
  }

  /** Keys are fresh exactly when the first is new and the others are fresh after it. */
  lemma FreshKeys(kids: map<string, Node>, es: seq<(string, string)>, more: map<string, Node>)
    requires es != [] && more.Keys == kids.Keys + {es[0].0}
    ensures Fresh(kids, es) <==> es[0].0 !in kids && Fresh(more, es[1..])
  {
    var rest := es[1..];
    assert forall i :: 0 <= i < |rest| ==> rest[i] == es[i + 1];
    if es[0].0 !in kids && Fresh(more, rest) {
      forall i, j | 0 <= i < j < |es| ensures es[i].0 != es[j].0 {
        assert es[j] == rest[j - 1];
        if i > 0 { assert es[i] == rest[i - 1]; }
      }
      forall i | 0 <= i < |es| ensures es[i].0 !in kids { if i > 0 { assert es[i] == rest[i - 1]; } }
    }
  }

  /** A document of entries, printed, is accepted exactly when its keys differ, and then it builds the table with
      each word under its key. */
  lemma {:induction false} EntriesBuild(es: seq<(string, string)>, vt: ValType)
    requires EntriesFit(es)
    ensures KeysDiffer(es) ==> ParseDoc(Show(EntryLines(es)), vt) == Done(EntryTree(map[], es))
    ensures !KeysDiffer(es) ==> !ParseDoc(Show(EntryLines(es)), vt).Done?
  {
    hide OneWord, BareKey, WordsFit, ParseDoc, Derives, Run, YDoc, Show;
    var cs := EntryLines(es);
    EntriesDocFits(es, true);
    ShowReads(cs);
    EntriesRun(vt, map[], es);
    forall root ensures ParseDoc(Show(cs), vt) == Done(root) <==>
        Sections.RootOf(Run(vt, START_SEL, ADoc(cs))) == Some(root) {
      ParseOfDerived(Show(cs), vt, cs, root);
    }
  }

  /** That table. */
  lemma {:induction false} EntryTreeAt(kids: map<string, Node>, es: seq<(string, string)>)
    requires Fresh(kids, es)
    ensures var t := EntryTree(kids, es);
            && t.TabN? && !t.implicit
            && (forall k :: k in t.kids <==> k in kids || exists i :: 0 <= i < |es| && es[i].0 == k)
            && (forall k :: k in kids ==> t.kids[k] == kids[k])
            && (forall i :: 0 <= i < |es| ==> t.kids[es[i].0] == Val(es[i].1))
    decreases |es|
  {
    if es == [] {
    } else {
      var more := kids[es[0].0 := Val(es[0].1)];
      FreshKeys(kids, es, more);
      EntryTreeAt(more, es[1..]);
      assert forall i :: 0 <= i < |es[1..]| ==> es[1..][i] == es[i + 1];
    }
  }
}
