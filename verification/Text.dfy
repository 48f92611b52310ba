/** Text as the parser sees it: a string of bytes, each byte written as the char of the same code,
    read with C's convention that the position just past the end holds a NUL. */
module Text {

  datatype Option<+T> = None | Some(value: T)

  /** The byte at p; NUL at (and past) the end. */
  function At(s: string, p: nat): char {
    if p < |s| then s[p] else '\0'
  }

  predicate NulFree(s: string) {
    '\0' !in s
  }

  /** What a C function sees of a buffer holding s: everything before the first NUL. */
  function CStr(s: string): string {
    if s == [] || s[0] == '\0' then [] else [s[0]] + CStr(s[1..])
  }

  /** It is the longest NUL-free prefix. */
  lemma {:induction false} CStrIsPrefix(s: string)
    ensures NulFree(CStr(s)) && CStr(s) <= s
    ensures CStr(s) == s || s[|CStr(s)|] == '\0'
  {
    if s == [] || s[0] == '\0' {
    } else {
      CStrIsPrefix(s[1..]);
    }
  }

  lemma CStrOfNulFree(s: string)
    requires NulFree(s)
    ensures CStr(s) == s
  {
    forall i | 0 <= i < |s| ensures s[i] != '\0' { assert s[i] in s; }
    CStrIsPrefix(s);
  }

  /** t stands in s at p. */
  ghost predicate Has(s: string, p: nat, t: string) {
    p + |t| <= |s| && s[p..p + |t|] == t
  }

  lemma HasByte(s: string, p: nat, t: string, i: nat)
    requires Has(s, p, t) && i < |t|
    ensures s[p + i] == t[i]
  {
    assert s[p + i] == s[p..p + |t|][i];
  }

  lemma HasSplit(s: string, p: nat, a: string, b: string)
    requires Has(s, p, a + b)
    ensures Has(s, p, a) && Has(s, p + |a|, b)
  {
    assert s[p..p + |a|] == s[p..p + |a + b|][..|a|];
    assert s[p + |a|..p + |a| + |b|] == s[p..p + |a + b|][|a|..];
  }

  lemma HasInside(a: string, t: string, b: string)
    ensures Has(a + t + b, |a|, t)
  {
  }

  predicate IsBlank(c: char) {
    c == '\r' || c == ' ' || c == '\t'
  }

  predicate IsSpace(c: char) {
    c == '\n' || IsBlank(c)
  }

  predicate IsDigit(c: char) {
    '0' <= c <= '9'
  }

  predicate IsAlnum(c: char) {
    IsDigit(c) || 'A' <= c <= 'Z' || 'a' <= c <= 'z'
  }

  /** The upper-case hexadecimal digits; lower case is refused by scanner and normaliser alike. */
  predicate IsHex(c: char) {
    IsDigit(c) || 'A' <= c <= 'F'
  }

  /** The number of newlines in s[..p]. */
  function NewlinesBefore(s: string, p: nat): nat
    requires p <= |s|
  {
    if p == 0 then 0 else NewlinesBefore(s, p - 1) + if s[p - 1] == '\n' then 1 else 0
  }

  lemma {:induction false} NewlinesMonotone(s: string, p: nat, q: nat)
    requires p <= q <= |s|
    ensures NewlinesBefore(s, p) <= NewlinesBefore(s, q)
    ensures '\n' !in s[p..q] ==> NewlinesBefore(s, p) == NewlinesBefore(s, q)
    decreases q - p
  {
    if p >= q {
    } else {
      NewlinesMonotone(s, p, q - 1);
      assert s[q - 1] == s[p..q][q - 1 - p];
      assert forall c :: c in s[p..q - 1] ==> c in s[p..q];
    }
  }
}
