/** Any number of sections in any order: exactly when two orders give the same tree
    (contrib/tomlc99/toml.c:587-669, 1043-1140, 1246-1271). */
module Reorder {
  import opened Text
  import opened Headers
  import opened Syntax
  import opened Operations
  import opened Sections
  import opened Parser
  import opened Grammar
  import opened Documents
  import opened Unambiguous

  function Flat(secs: seq<Sec>): seq<Stmt> {
    if secs == [] then [] else Stmts(secs[0]) + Flat(secs[1..])
  }

  /** No section comes after one that enters an array of tables it makes. */
  predicate Legal(secs: seq<Sec>) {
    forall i, j :: 0 <= i < j < |secs| ==> !BlocksSec(secs[i], secs[j])
  }

  /** What may follow a section without joining it. */
  predicate NewStart(post: seq<Stmt>) {
    post == [] || post[0].Header?
  }

  lemma FlatFirst(x: Sec, a: seq<Sec>, post: seq<Stmt>)
    ensures Flat([x] + a) + post == Stmts(x) + (Flat(a) + post)
    ensures NewStart(post) ==> NewStart(Flat(a) + post)
  {
    assert ([x] + a)[1..] == a;
    if a == [] { assert Flat(a) + post == post; }
  }

  /** Equal continuations after a first section. */
  lemma AfterFirst(vt: ValType, d: Sel, x: Sec, a: seq<Sec>, b: seq<Sec>, post: seq<Stmt>)
    requires d.Valid() && d.root.TabN?
    requires var e := Run(vt, d, Stmts(x));
             e.Some? ==> RootOf(Run(vt, e.value, Flat(a) + post)) == RootOf(Run(vt, e.value, Flat(b) + post))
    ensures RootOf(Run(vt, d, Flat([x] + a) + post)) == RootOf(Run(vt, d, Flat([x] + b) + post))
  {
    hide Run, Flat;
    FlatFirst(x, a, post);
    FlatFirst(x, b, post);
    RunAppend(vt, d, Stmts(x), Flat(a) + post);
    RunAppend(vt, d, Stmts(x), Flat(b) + post);
  }

  lemma SwapFirst(vt: ValType, d: Sel, x: Sec, y: Sec, rest: seq<Sec>, post: seq<Stmt>)
    requires d.Valid() && d.root.TabN? && !BlocksSec(x, y) && !BlocksSec(y, x) && NewStart(post)
    ensures RootOf(Run(vt, d, Flat([x] + ([y] + rest)) + post)) == RootOf(Run(vt, d, Flat([y] + ([x] + rest)) + post))
  {
    hide Run, Flat, Stmts, BlocksSec;
    var more, s, t := Flat(rest) + post, Stmts(x), Stmts(y);
    FlatFirst(x, [y] + rest, post);
    FlatFirst(y, rest, post);
    FlatFirst(y, [x] + rest, post);
    FlatFirst(x, rest, post);
    assert s + (t + more) == s + t + more && t + (s + more) == t + s + more;
    SectionOrder(vt, d, x, y, more);
  }

  lemma {:induction false} MoveToFront(vt: ValType, d: Sel, b: seq<Sec>, x: Sec, c: seq<Sec>, post: seq<Stmt>)
    requires d.Valid() && d.root.TabN? && NewStart(post)
    requires forall y :: y in b ==> !BlocksSec(x, y) && !BlocksSec(y, x)
    ensures RootOf(Run(vt, d, Flat(b + ([x] + c)) + post)) == RootOf(Run(vt, d, Flat([x] + (b + c)) + post))
    decreases |b|
  {
    hide Run, Flat, Stmts, BlocksSec;
    if b == [] {
      assert b + ([x] + c) == [x] + (b + c);
    } else {
      var y, b' := b[0], b[1..];
      var e := Run(vt, d, Stmts(y));
      if e.Some? { MoveToFront(vt, e.value, b', x, c, post); }
      AfterFirst(vt, d, y, b' + ([x] + c), [x] + (b' + c), post);
      SwapFirst(vt, d, y, x, b' + c, post);
      assert b + ([x] + c) == [y] + (b' + ([x] + c)) && [x] + (b + c) == [x] + ([y] + (b' + c));
    }
  }

  // ---- an order that is not legal is refused ----

  /** An operation that fails on the root is not saved by the sections before it. */
  lemma {:induction false} LostStays(vt: ValType, d: Sel, secs: seq<Sec>, y: Sec, post: seq<Stmt>)
    requires d.Valid() && d.root.TabN? && y in secs && GoodPath(y.path) && Do(vt, d.root, OpOf(y)).None?
    ensures Run(vt, d, Flat(secs) + post) == None
    decreases |secs|
  {
    hide Run, Flat, Stmts, Do;
    var x := secs[0];
    assert secs == [x] + secs[1..];
    FlatFirst(x, secs[1..], post);
    RunAppend(vt, d, Stmts(x), Flat(secs[1..]) + post);
    RunSection(vt, d, x.path, x.entries);
    StmtsOf(x);
    if Run(vt, d, Stmts(x)).Some? {
      var e := Run(vt, d, Stmts(x)).value;
      FailsForever(vt, d.root, OpOf(x), OpOf(y));
      LostStays(vt, e, secs[1..], y, post);
    }
  }

  lemma StmtsOf(x: Sec)
    ensures Stmts(x) == SectionStmts(x.path, x.entries)
    ensures GoodPath(x.path) ==> OpOf(x) == SectionOp(NormalizePath(x.path).value, x.entries)
  {
  }

  lemma {:induction false} IllegalFails(vt: ValType, d: Sel, secs: seq<Sec>, post: seq<Stmt>)
    requires d.Valid() && d.root.TabN? && !Legal(secs)
    ensures Run(vt, d, Flat(secs) + post) == None
    decreases |secs|
  {
    hide Run, Flat, Stmts, Do, Blocks;
    var x := secs[0];
    assert secs == [x] + secs[1..];
    FlatFirst(x, secs[1..], post);
    RunAppend(vt, d, Stmts(x), Flat(secs[1..]) + post);
    RunSection(vt, d, x.path, x.entries);
    StmtsOf(x);
    if Run(vt, d, Stmts(x)).Some? {
      var e := Run(vt, d, Stmts(x)).value;
      if j :| 0 < j < |secs| && BlocksSec(x, secs[j]) {
        BlocksFails(vt, d.root, OpOf(x), OpOf(secs[j]));
        assert secs[1..][j - 1] == secs[j];
        LostStays(vt, e, secs[1..], secs[j], post);
      } else {
        IllegalFails(vt, e, secs[1..], post);
      }
    }
  }

  // ---- any two legal orders agree ----

  /** The first section of a in another legal order b of the same sections: it does not cross what stands
      before it there, and what is left of the two orders is legal. */
  lemma TakeOut(a: seq<Sec>, b: seq<Sec>) returns (b1: seq<Sec>, b2: seq<Sec>)
    requires a != [] && multiset(a) == multiset(b) && Legal(a) && Legal(b)
    ensures b == b1 + ([a[0]] + b2) && multiset(a[1..]) == multiset(b1 + b2)
    ensures Legal(a[1..]) && Legal(b1 + b2)
    ensures forall y :: y in b1 ==> !BlocksSec(a[0], y) && !BlocksSec(y, a[0])
  {
    hide BlocksSec;
    var x := a[0];
    assert x in multiset(a) && a == [x] + a[1..];
    var i :| 0 <= i < |b| && b[i] == x;
    b1, b2 := b[..i], b[i + 1..];
    assert b == b1 + ([x] + b2);
    assert multiset(b) == multiset(b1) + multiset([x] + b2) && multiset([x] + b2) == multiset([x]) + multiset(b2);
    Cancel(multiset([x]), multiset(a[1..]), multiset(b1 + b2));
    forall y | y in b1 ensures !BlocksSec(x, y) && !BlocksSec(y, x) {
      var j :| 0 <= j < i && b[j] == y;
      assert y in multiset(b1 + b2) && y in multiset(a[1..]);
      var l :| 0 <= l < |a| - 1 && a[1..][l] == y;
      assert a[l + 1] == y;
    }
    LegalParts(a, b, b1, b2);
  }

  lemma LegalParts(a: seq<Sec>, b: seq<Sec>, b1: seq<Sec>, b2: seq<Sec>)
    requires a != [] && Legal(a) && Legal(b) && b == b1 + ([a[0]] + b2)
    ensures Legal(a[1..]) && Legal(b1 + b2)
  {
    hide BlocksSec;
    var c, n := b1 + b2, |b1|;
    forall i, j | 0 <= i < j < |c| ensures !BlocksSec(c[i], c[j]) {
      var i', j' := if i < n then i else i + 1, if j < n then j else j + 1;
      assert c[i] == b[i'] && c[j] == b[j'];
    }
    forall i, j | 0 <= i < j < |a| - 1 ensures !BlocksSec(a[1..][i], a[1..][j]) {
      assert a[1..][i] == a[i + 1] && a[1..][j] == a[j + 1];
    }
  }

  lemma Cancel(k: multiset<Sec>, m: multiset<Sec>, n: multiset<Sec>)
    requires k + m == k + n
    ensures m == n
  {
    forall y ensures m[y] == n[y] { assert (k + m)[y] == (k + n)[y]; }
  }

  lemma {:induction false} LegalOrders(vt: ValType, d: Sel, a: seq<Sec>, b: seq<Sec>, post: seq<Stmt>)
    requires d.Valid() && d.root.TabN? && multiset(a) == multiset(b) && Legal(a) && Legal(b) && NewStart(post)
    ensures RootOf(Run(vt, d, Flat(a) + post)) == RootOf(Run(vt, d, Flat(b) + post))
    decreases |a|
  {
    hide Run, Flat, Stmts, BlocksSec, Legal;
    assert |a| == |multiset(a)| == |multiset(b)| == |b|;
    if a == [] {
      assert b == [];
    } else {
      var x, a' := a[0], a[1..];
      var b1, b2 := TakeOut(a, b);
      MoveToFront(vt, d, b1, x, b2, post);
      assert a == [x] + a';
      var e := Run(vt, d, Stmts(x));
      if e.Some? { LegalOrders(vt, e.value, a', b1 + b2, post); }
      AfterFirst(vt, d, x, a', b1 + b2, post);
    }
  }

  /** When the order of sections matters: from any state of the parser, two orders of the same single-bracket
      sections lead to the same result exactly when both are legal or both are refused; and an order that is
      not legal is refused. */
  lemma {:induction false} AnyOrder(vt: ValType, d: Sel, a: seq<Sec>, b: seq<Sec>, post: seq<Stmt>)
    requires d.Valid() && d.root.TabN? && multiset(a) == multiset(b) && NewStart(post)
    ensures var r, q := RootOf(Run(vt, d, Flat(a) + post)), RootOf(Run(vt, d, Flat(b) + post));
            && (r == q <==> (Legal(a) && Legal(b)) || (r == None && q == None))
            && (!Legal(a) ==> r == None) && (!Legal(b) ==> q == None)
  {
    hide Run, Flat, Legal;
    if !Legal(a) { IllegalFails(vt, d, a, post); }
    if !Legal(b) { IllegalFails(vt, d, b, post); }
    if Legal(a) && Legal(b) { LegalOrders(vt, d, a, b, post); }
  }

  /** The statements a and b differ by the order of the sections in one place. */
  ghost predicate Reordered(a: seq<Stmt>, b: seq<Stmt>, pre: seq<Stmt>, s: seq<Sec>, t: seq<Sec>, post: seq<Stmt>) {
    a == pre + (Flat(s) + post) && b == pre + (Flat(t) + post) && multiset(s) == multiset(t) && NewStart(post)
  }

  lemma SameRoot(vt: ValType, a: seq<Stmt>, b: seq<Stmt>, pre: seq<Stmt>, s: seq<Sec>, t: seq<Sec>, post: seq<Stmt>)
    requires Reordered(a, b, pre, s, t, post)
    ensures var r, q := RootOf(Run(vt, START_SEL, a)), RootOf(Run(vt, START_SEL, b));
            && (r == q <==> (Legal(s) && Legal(t)) || (r == None && q == None))
            && (!Legal(s) ==> r == None) && (!Legal(t) ==> q == None)
  {
    hide Legal;
    RunAppend(vt, START_SEL, pre, Flat(s) + post);
    RunAppend(vt, START_SEL, pre, Flat(t) + post);
    if Run(vt, START_SEL, pre).Some? { AnyOrder(vt, Run(vt, START_SEL, pre).value, s, t, post); }
  }

  /** The same for texts: if two texts have the same statements up to the order of single-bracket sections in
      one place, toml_parse gives the same tree for both, or accepts neither, when both orders are legal; and
      it does not accept a text whose order is not. */
  lemma {:induction false} AnyOrderOfTexts(vt: ValType, src1: string, src2: string, cs1: seq<CStmt>, cs2: seq<CStmt>,
                                           pre: seq<Stmt>, s: seq<Sec>, t: seq<Sec>, post: seq<Stmt>)
    requires Derives(src1, cs1) && Derives(src2, cs2) && Reordered(ADoc(cs1), ADoc(cs2), pre, s, t, post)
    ensures Legal(s) && Legal(t) ==> forall root :: ParseDoc(src1, vt) == Done(root) <==>
            ParseDoc(src2, vt) == Done(root)
    ensures !Legal(s) ==> !ParseDoc(src1, vt).Done?
    ensures !Legal(t) ==> !ParseDoc(src2, vt).Done?
  {
    hide Legal, Run, ParseDoc, Reordered, Derives;
    SameRoot(vt, ADoc(cs1), ADoc(cs2), pre, s, t, post);
    forall root
      ensures ParseDoc(src1, vt) == Done(root) <==> RootOf(Run(vt, START_SEL, ADoc(cs1))) == Some(root)
      ensures ParseDoc(src2, vt) == Done(root) <==> RootOf(Run(vt, START_SEL, ADoc(cs2))) == Some(root)
    {
      ParseOfDerived(src1, vt, cs1, root);
      ParseOfDerived(src2, vt, cs2, root);
    }
    if ParseDoc(src1, vt).Done? { assert ParseDoc(src1, vt) == Done(ParseDoc(src1, vt).root); }
    if ParseDoc(src2, vt).Done? { assert ParseDoc(src2, vt) == Done(ParseDoc(src2, vt).root); }
  }
}
