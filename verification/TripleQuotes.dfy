/** Triple-quoted basic strings: which of the tokens that the scanner accepts toml_rtos reads
    (contrib/tomlc99/toml.c:1425-1453, 1919-1945). The scanner's count of quotes survives an escape, so a token
    need not end in three quotes that stand together. */
module TripleQuotes {
  import opened Text
  import opened Lexer
  import opened Strings
  import Utf8

  const THREE := "\"\"\""

  /** The end of the item at p: a byte, an escape, or a backslash at the end of a line with the white space
      after it; None for a bad escape. */
  function ItemEnd(s: string, p: nat): (r: Option<nat>)
    requires p < |s|
    ensures r.Some? ==> p < r.value <= |s|
  {
    if s[p] != '\\' then Some(p + 1)
    else if At(s, p + 1) == '\n' then Some(SpaceEnd(s, p + 1))
    else match EscapeLen(s, p) case None => None case Some(n) => Some(p + n)
  }

  /** Read item by item from p, the text comes to stand at q. */
  predicate LandsOn(s: string, p: nat, q: nat)
    requires p <= |s|
    decreases |s| - p
  {
    p == q || (p < q && p < |s| && ItemEnd(s, p).Some? && LandsOn(s, ItemEnd(s, p).value, q))
  }

  /** On the way from p to q, an escape names a code without encoding. */
  predicate NamesBad(s: string, p: nat, q: nat)
    requires p <= |s| && q <= |s|
    decreases |s| - p
  {
    && p < q && ItemEnd(s, p).Some?
    && (var r := ItemEnd(s, p).value;
        || (s[p] == '\\' && r - p > 2 && HexRun(s, p + 2, r - p - 2) && (s[p + 1] == 'u' || s[p + 1] == 'U')
            && !Utf8.Encodable(HexValue(s, p + 2, r - p - 2)))
        || NamesBad(s, r, q))
  }

  /** White space does not end a string. */
  lemma {:induction false} SpaceTriple(s: string, p: nat, c: nat) returns (d: nat)
    requires p <= |s| && c < 3 && TripleEnd(s, p, c).Some?
    ensures d < 3 && TripleEnd(s, SpaceEnd(s, p), d) == TripleEnd(s, p, c)
    decreases |s| - p
  {
    if p < |s| && IsSpace(s[p]) {
      d := SpaceTriple(s, p + 1, 0);
    } else {
      d := c;
    }
  }

  /** The normaliser on the interior of an accepted token that ends in three quotes. */
  lemma {:induction false} InteriorReads(s: string, p: nat, c: nat)
    requires p + 3 <= |s| && c <= 3 && TripleEnd(s, p, c) == Some(|s|) && s[|s| - 3..] == THREE
    ensures Normalize(s, p, |s| - 3, true).Some? <==> LandsOn(s, p, |s| - 3) && !NamesBad(s, p, |s| - 3)
    decreases |s| - p
  {
    var q := |s| - 3;
    assert s[q] == THREE[0] && s[q + 1] == THREE[1];
    if p == q {
    } else if s[p] != '\\' {
      InteriorReads(s, p + 1, if s[p] == '"' then c + 1 else 0);
    } else if s[p + 1] == '\n' {
      SpaceStops(s, p + 1, q);
      var d := SpaceTriple(s, p + 2, c);
      InteriorReads(s, SpaceEnd(s, p + 1), d);
    } else {
      EscapeReads(s, p, c);
    }
  }

  lemma {:induction false} SpaceStops(s: string, p: nat, q: nat)
    requires p <= q < |s| && !IsSpace(s[q])
    ensures SpaceEnd(s, p) <= q
    decreases q - p
  {
    if p < q && IsSpace(s[p]) { SpaceStops(s, p + 1, q); }
  }

  lemma {:induction false} EscapeReads(s: string, p: nat, c: nat)
    requires p + 3 < |s| && c < 3 && TripleEnd(s, p, c) == Some(|s|) && s[|s| - 3..] == THREE
    requires s[p] == '\\' && s[p + 1] != '\n'
    ensures Normalize(s, p, |s| - 3, true).Some? <==> LandsOn(s, p, |s| - 3) && !NamesBad(s, p, |s| - 3)
    decreases |s| - p, 0
  {
    var q, n := |s| - 3, EscapeLen(s, p).value;
    assert s[q] == THREE[0];
    assert !EndsLine(s, p + 1);
    if p + 1 == q {
      assert n == 2;
    } else {
      assert forall i :: p + 2 <= i < p + n ==> IsHex(s[i]);
      InteriorReads(s, p + n, c);
    }
  }

  /** An accepted token, from after the newline that toml_rtos skips. */
  lemma AfterFirstNewline(s: string)
    requires THREE <= s && |s| >= 6 && TripleEnd(s, 3, 0) == Some(|s|) && s[|s| - 3..] == THREE
    ensures AfterNewline(s, 3) <= |s| - 3
    ensures Normalize(s, AfterNewline(s, 3), |s| - 3, true).Some? <==>
            LandsOn(s, 3, |s| - 3) && !NamesBad(s, 3, |s| - 3)
  {
    var q, sp := |s| - 3, AfterNewline(s, 3);
    assert s[q] == THREE[0] && s[q + 1] == THREE[1];
    if sp == 3 {
      InteriorReads(s, 3, 0);
    } else if sp == 4 {
      InteriorReads(s, 4, 0);
    } else {
      assert TripleEnd(s, 3, 0) == TripleEnd(s, 4, 0) == TripleEnd(s, 5, 0);
      InteriorReads(s, 5, 0);
      assert LandsOn(s, 3, q) == LandsOn(s, 4, q) == LandsOn(s, 5, q);
      assert NamesBad(s, 3, q) == NamesBad(s, 4, q) == NamesBad(s, 5, q);
    }
  }

  /** toml_rtos reads a triple-quoted token that the scanner accepted exactly when the token ends in three
      quotes that stand together, its items end just before them, and no escape names a code without
      encoding. */
  lemma {:induction false} TripleReads(s: string)
    requires NulFree(s) && THREE <= s && TripleEnd(s, 3, 0) == Some(|s|)
    ensures |s| >= 6
    ensures Rtos(s).Some? <==> s[|s| - 3..] == THREE && LandsOn(s, 3, |s| - 3) && !NamesBad(s, 3, |s| - 3)
  {
    assert s[..3] == THREE;
    if s[|s| - 3..] == THREE { AfterFirstNewline(s); }
  }

  /** Such a token that is not read: one quote, a tab escape and two quotes close it. */
  lemma {:induction false} CountSurvivesEscape(s: string)
    requires s == "\"\"\"\"\\t\"\""
    ensures THREE <= s && ScanEnd(s, 0, false) == Some(|s|) && Rtos(s) == None
  {
    assert s[0..] == s && s[4] == '\\' && s[5] == 't';
    assert TripleEnd(s, 8, 3) == Some(8) && TripleEnd(s, 7, 2) == Some(8) && TripleEnd(s, 6, 1) == Some(8);
    assert EscapeLen(s, 4) == Some(2);
    assert TripleEnd(s, 4, 1) == Some(8) && TripleEnd(s, 3, 0) == Some(8);
    assert s[5..][0] == s[5] && s[..3][0] == s[0];
  }
}
