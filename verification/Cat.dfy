/** From text to output: parse a document and print its tree (contrib/tomlc99/toml_json.c:169-183). */
module Cat {
  import opened Text
  import opened Lexer
  import opened Tree
  import opened Headers
  import opened Syntax
  import opened Strings
  import opened Grammar
  import opened Documents
  import Sections
  import Numbers
  import Timestamps
  import P = Parser
  import opened Scalars
  import opened Builder
  import opened Json
  import opened Output
  import opened Printing

  /** The text is a document of the grammar, and running its statements from the empty tree builds n. */
  ghost predicate Builds(src: string, vt: ValType, n: Node) {
    exists cs :: Derives(src, cs) && Sections.RootOf(Run(vt, START_SEL, ADoc(cs))) == Some(n)
  }

  lemma {:induction false} ParseDocBuilds(src: string, vt: ValType)
    ensures forall n :: Builds(src, vt, n) <==> P.ParseDoc(src, vt) == P.Done(n)
  {
    forall n ensures Builds(src, vt, n) <==> P.ParseDoc(src, vt) == P.Done(n) { DocumentGrammar(src, vt, n); }
  }

  /** out is what cat prints for the tree n: its output and a newline. */
  ghost predicate CatOutput(dbl: Doubles, out: string, n: Node) {
    exists text :: IsOutput(dbl, text, n) && out == text + "\n"
  }

  /** cat: the text is parsed exactly when the grammar gives it a tree; the bytes of an output come out exactly
      when print_raw can also print every scalar of that tree; and then they are an output of that tree, which
      the reader takes apart again if no key has a quote. */
  method ParseAndPrint(src: CText, dbl: Doubles) returns (st: Status, out: Option<string>)
    ensures st == OK <==> exists n :: Builds(src, Classes(dbl), n)
    ensures out.Some? <==> exists n :: Builds(src, Classes(dbl), n) && Readable(dbl, n)
    ensures out.Some? ==> forall n :: Builds(src, Classes(dbl), n) ==> CatOutput(dbl, out.value, n)
    ensures out.Some? ==> forall n :: Builds(src, Classes(dbl), n) && QuoteFree(dbl, n) ==>
              ReadsAs(dbl, out.value, "\n", n)
  {
    hide Builds, Derives, Denotes, Readable, Classes, Render, QuoteFree, ReadsAs;
    ParseDocBuilds(src, Classes(dbl));
    var c: Context;
    st, c := TomlParse(src, Classes(dbl));
    out := None;
    if st == OK {
      c.TabFacts(c.root);
      assert Builds(src, Classes(dbl), c.TabTree(c.root));
      var ok, text;
      ghost var j;
      ok, text, j := PrintTable(c, dbl, c.root);
      if ok {
        out := Some(text + "\n");
        assert IsOutput(dbl, text, c.TabTree(c.root));
        if QuoteFree(dbl, c.TabTree(c.root)) { OutputReads(dbl, text + "\n", "\n", c.TabTree(c.root)); }
      }
    }
  }

  /** Two trees without a quote in a key (or a double) for which cat prints the same bytes show the same. */
  lemma {:induction false} SameBytesSameView(dbl: Doubles, out: string, m: Node, n: Node)
    requires CatOutput(dbl, out, m) && CatOutput(dbl, out, n) && QuoteFree(dbl, m) && QuoteFree(dbl, n)
    ensures View(dbl, m) == View(dbl, n)
  {
    hide IsOutput, View, QuoteFree;
    var a :| IsOutput(dbl, a, m) && out == a + "\n";
    var b :| IsOutput(dbl, b, n) && out == b + "\n";
    assert a == out[..|out| - 1] == b;
    SameOutputExactly(dbl, m, n);
  }

  /** A text that is parsed and has no output: its scalar is no string, integer, boolean or timestamp. */
  lemma {:induction false} ParsedNotPrinted(src: string, dbl: Doubles)
    requires src == "a=b" && !dbl("b")
    ensures P.ParseDoc(src, Classes(dbl)) == P.Done(SetKid(NEW_TABLE, "a", Val("b")))
    ensures !Readable(dbl, SetKid(NEW_TABLE, "a", Val("b")))
  {
    LetterIsUnreadable("b", dbl);
    WordLine(src, Classes(dbl));
  }

  lemma LetterIsUnreadable(b: string, dbl: Doubles)
    requires b == "b" && !dbl(b)
    ensures PrintRaw(dbl, b) == None
    ensures !Readable(dbl, SetKid(NEW_TABLE, "a", Val(b)))
  {
    Numbers.NoNumberStart(b);
    assert Timestamps.Rtots(b) == None;
    var n := SetKid(NEW_TABLE, "a", Val(b));
    assert n.kids["a"] == Val(b) && !Readable(dbl, n.kids["a"]);
  }

  lemma WordLine(src: string, vt: ValType)
    requires src == "a=b"
    ensures P.ParseDoc(src, vt) == P.Done(SetKid(NEW_TABLE, "a", Val("b")))
  {
    hide Next, NormalizeKey;
    var key, val, end := Token(Str, 1, 0, 1, false), Token(Str, 1, 2, 1, false), Token(Newline, 1, 3, 0, true);
    WordTokens(src);
    EofIsFixed(src, end, false);
    assert TokText(src, key) == "a" && TokText(src, val) == "b";
    assert NormalizeKey("a") == Some("a") by { BareKey("a"); }
    assert START_SEL.Table() == NEW_TABLE;
    assert P.ParseKeyval(src, vt, key, NEW_TABLE) == P.Ok(SetKid(NEW_TABLE, "a", Val("b")), end);
    var done := SetKid(NEW_TABLE, "a", Val("b"));
    assert Put(NEW_TABLE, [], done) == done;
    assert P.ParseLine(src, vt, key, START_SEL) == P.Line(Sel(done, []), end);
    assert P.ParseLines(src, vt, end, Sel(done, [])) == P.Done(done);
    assert P.ParseLines(src, vt, key, START_SEL) == P.Done(done);
  }

  lemma BareKey(s: string)
    requires s == "a"
    ensures NormalizeKey(s) == Some(s)
  {
  }

  lemma WordTokens(src: string)
    requires src == "a=b"
    ensures Next(src, START, true) == Some(Token(Str, 1, 0, 1, false))
    ensures P.ValueTok(src, Token(Str, 1, 0, 1, false)) == Some(Token(Str, 1, 2, 1, false))
    ensures Next(src, Token(Str, 1, 2, 1, false), false) == Some(Token(Newline, 1, 3, 0, true))
  {
    WordAt(src, START, true, 0);
    assert Next(src, Token(Str, 1, 0, 1, false), false) == Some(Token(Equal, 1, 1, 1, false));
    WordAt(src, Token(Equal, 1, 1, 1, false), false, 2);
    assert NewlinesBefore(src, 3) == NewlinesBefore(src, 2);
    assert GapEnd(src, 3) == 3;
  }

  /** A one-letter word right after the token t. */
  lemma WordAt(src: string, t: Token, dot: bool, p: nat)
    requires ValidTok(src, t) && t.pos + t.len == p < |src| && '\n' !in src[..p] && IsAlnum(src[p])
    requires p + 1 < |src| ==> !IsBare(src[p + 1], dot)
    ensures Next(src, t, dot) == Some(Token(Str, t.lineno, p, 1, false))
  {
    NewlinesMonotone(src, t.pos, p);
    assert forall c :: c in src[t.pos..p] ==> c in src[..p];
    assert BareEnd(src, p + 1, dot) == p + 1 && BareEnd(src, p, dot) == p + 1;
    assert src[p..][0] == src[p];
  }
}
