/** Line-ending backslashes (contrib/tomlc99/toml.c:1864-1884): two in-place rounds of strstr and
    memmove, refined from one left-to-right filter. */
module LineJoin {
  import opened Text

  /** s without its leading white space (strspn of space, tab, CR, LF). */
  function DropSpace(s: string): (r: string)
    ensures |r| <= |s| && (r == [] || !IsSpace(r[0]))
  {
    if s != [] && IsSpace(s[0]) then DropSpace(s[1..]) else s
  }

  const LF_PATTERN := "\\\n"
  const CRLF_PATTERN := "\\\r\n"

  /** A backslash that ends a line, by LF or by CRLF. */
  predicate Joins(s: string) {
    LF_PATTERN <= s || CRLF_PATTERN <= s
  }

  /** The filter: every line-ending backslash goes, with the newline and all white space after it. */
  function Join(s: string): string
    decreases |s|
  {
    if s == [] then []
    else if Joins(s) then Join(DropSpace(s[1..]))
    else [s[0]] + Join(s[1..])
  }

  /** The filter for one of the two patterns. */
  function JoinPattern(s: string, pat: string): string
    decreases |s|
  {
    if s == [] then []
    else if pat <= s then JoinPattern(DropSpace(s[1..]), pat)
    else [s[0]] + JoinPattern(s[1..], pat)
  }

  // ---- what the filter does ----

  ghost predicate StartsSolid(s: string) {
    s == [] || !IsSpace(s[0])
  }

  lemma {:induction false} JoinStartsSolid(s: string)
    requires StartsSolid(s)
    ensures StartsSolid(Join(s))
    decreases |s|
  {
    if s == [] || !Joins(s) {
    } else {
      JoinStartsSolid(DropSpace(s[1..]));
    }
  }

  lemma JoinsHead(c: char, s: string)
    ensures Joins([c] + s) <==> c == '\\' && (At(s, 0) == '\n' || (At(s, 0) == '\r' && At(s, 1) == '\n'))
  {
    var t := [c] + s;
    assert LF_PATTERN <= t <==> |t| >= 2 && t[0] == '\\' && t[1] == '\n';
    assert CRLF_PATTERN <= t <==> |t| >= 3 && t[0] == '\\' && t[1] == '\r' && t[2] == '\n';
  }

  /** The first byte of a filtered text is a byte that stood first, or no white space. */
  lemma JoinHead(s: string)
    ensures IsSpace(At(Join(s), 0)) ==> At(Join(s), 0) == At(s, 0) && Join(s) == [s[0]] + Join(s[1..])
  {
    if s != [] && Joins(s) { JoinStartsSolid(DropSpace(s[1..])); }
  }

  /** After a character that does not start a line end, the filtered rest makes none either. */
  lemma JoinMakesNoPattern(c: char, s: string)
    requires !Joins([c] + s)
    ensures !Joins([c] + Join(s))
  {
    JoinsHead(c, s);
    JoinsHead(c, Join(s));
    JoinHead(s);
    if s != [] { JoinHead(s[1..]); }
  }

  /** The result contains no line-ending backslash. */
  lemma {:induction false} JoinLeavesNone(s: string, i: nat)
    requires i <= |Join(s)|
    ensures !Joins(Join(s)[i..])
    decreases |s|
  {
    if s == [] {
    } else {
      if Joins(s) {
        JoinLeavesNone(DropSpace(s[1..]), i);
      } else {
        JoinMakesNoPattern(s[0], s[1..]);
        assert s == [s[0]] + s[1..];
        if i > 0 {
          JoinLeavesNone(s[1..], i - 1);
          assert Join(s)[i..] == Join(s[1..])[i - 1..];
        } else {
          assert Join(s)[0..] == Join(s);
        }
      }
    }
  }

  lemma {:induction false} JoinOfClean(s: string)
    requires forall i :: 0 <= i <= |s| ==> !Joins(s[i..])
    ensures Join(s) == s
    decreases |s|
  {
    if s == [] {
    } else {
      assert s[0..] == s;
      forall i | 0 <= i <= |s[1..]| ensures !Joins(s[1..][i..]) {
        assert s[1..][i..] == s[1 + i..];
      }
      JoinOfClean(s[1..]);
    }
  }

  /** A second application changes nothing. */
  lemma JoinIdempotent(s: string)
    ensures Join(Join(s)) == Join(s)
  {
    forall i | 0 <= i <= |Join(s)| ensures !Joins(Join(s)[i..]) { JoinLeavesNone(s, i); }
    JoinOfClean(Join(s));
  }

  // ---- two rounds make one filter ----

  lemma {:induction false} FirstRoundStartsSolid(s: string)
    requires StartsSolid(s)
    ensures StartsSolid(JoinPattern(s, LF_PATTERN))
    decreases |s|
  {
    if s == [] || !(LF_PATTERN <= s) {
    } else {
      FirstRoundStartsSolid(DropSpace(s[1..]));
    }
  }

  lemma {:induction false} FirstRoundKeepsSpace(s: string)
    ensures DropSpace(JoinPattern(s, LF_PATTERN)) == JoinPattern(DropSpace(s), LF_PATTERN)
    decreases |s|
  {
    if s != [] && IsSpace(s[0]) {
      FirstRoundKeepsSpace(s[1..]);
      assert JoinPattern(s, LF_PATTERN)[1..] == JoinPattern(s[1..], LF_PATTERN);
    } else {
      FirstRoundStartsSolid(s);
    }
  }

  lemma FirstRoundMakesNoCrlf(c: char, s: string)
    requires !Joins([c] + s)
    ensures !(CRLF_PATTERN <= [c] + JoinPattern(s, LF_PATTERN))
  {
    if LF_PATTERN <= s {
      FirstRoundStartsSolid(DropSpace(s[1..]));
    } else if s != [] && LF_PATTERN <= s[1..] {
      FirstRoundStartsSolid(DropSpace(s[1..][1..]));
    } else if s != [] {
      assert JoinPattern(s, LF_PATTERN) == [s[0]] + JoinPattern(s[1..], LF_PATTERN);
      assert s[1..] != [] ==> JoinPattern(s[1..], LF_PATTERN)[0] == s[1];
    }
  }

  /** Deleting the LF line ends, then the CRLF ones, is the single left-to-right filter. */
  lemma {:induction false} TwoRounds(s: string)
    ensures JoinPattern(JoinPattern(s, LF_PATTERN), CRLF_PATTERN) == Join(s)
    decreases |s|
  {
    if s == [] {
    } else {
      var first := JoinPattern(s, LF_PATTERN);
      if LF_PATTERN <= s {
        TwoRounds(DropSpace(s[1..]));
      } else if CRLF_PATTERN <= s {
        CrlfRound(s);
        TwoRounds(DropSpace(s[1..]));
      } else {
        assert s == [s[0]] + s[1..];
        FirstRoundMakesNoCrlf(s[0], s[1..]);
        assert first[1..] == JoinPattern(s[1..], LF_PATTERN);
        TwoRounds(s[1..]);
      }
    }
  }

  lemma CrlfRound(s: string)
    requires CRLF_PATTERN <= s
    ensures var first := JoinPattern(s, LF_PATTERN);
            CRLF_PATTERN <= first && DropSpace(first[1..]) == JoinPattern(DropSpace(s[1..]), LF_PATTERN)
  {
    var first := JoinPattern(s, LF_PATTERN);
    var r1 := JoinPattern(s[1..], LF_PATTERN);
    var r2 := JoinPattern(s[1..][1..], LF_PATTERN);
    assert s[0] == '\\' && s[1] == '\r' && s[2] == '\n';
    assert first == [s[0]] + r1;
    assert r1 == [s[1]] + r2;
    assert s[1..][1..][0] == '\n';
    assert r2[0] == '\n';
    assert first[1..] == r1;
    FirstRoundKeepsSpace(s[1..]);
  }

  // ---- the C functions ----

  predicate StartsAt(s: string, k: nat, pat: string) {
    k <= |s| && pat <= s[k..]
  }

  lemma StartsAtShift(s: string, a: nat, k: nat, pat: string)
    requires a <= |s|
    ensures StartsAt(s[a..], k, pat) == StartsAt(s, a + k, pat)
  {
    if k <= |s[a..]| { assert s[a..][k..] == s[a + k..]; }
  }

  lemma {:induction false} SkipNonMatches(s: string, pat: string, i: nat)
    requires i <= |s| && forall k :: 0 <= k < i ==> !StartsAt(s, k, pat)
    ensures JoinPattern(s, pat) == s[..i] + JoinPattern(s[i..], pat)
    decreases i
  {
    assert s[0..] == s;
    if i == 0 {
    } else {
      assert !StartsAt(s, 0, pat);
      forall k | 0 <= k < i - 1 ensures !StartsAt(s[1..], k, pat) { StartsAtShift(s, 1, k, pat); }
      SkipNonMatches(s[1..], pat, i - 1);
      assert s[1..][i - 1..] == s[i..];
      assert s[..i] == [s[0]] + s[1..][..i - 1];
    }
  }

  /** strstr from p in the first n bytes: the first match, or n if there is none. */
  method Strstr(buf: array<char>, p: nat, n: nat, pat: string) returns (i: nat)
    requires p <= n <= buf.Length && pat != []
    ensures p <= i <= n
    ensures forall k :: p <= k < i ==> !StartsAt(buf[..n], k, pat)
    ensures i < n ==> StartsAt(buf[..n], i, pat)
  {
    i := p;
    while i < n && !StartsAt(buf[..n], i, pat)
      invariant p <= i <= n
      invariant forall k :: p <= k < i ==> !StartsAt(buf[..n], k, pat)
    {
      i := i + 1;
    }
  }

  /** memmove of m bytes towards the front. */
  method MoveDown(buf: array<char>, to: nat, from: nat, m: nat)
    requires to <= from && from + m <= buf.Length
    modifies buf
    ensures buf[to..to + m] == old(buf[from..from + m])
    ensures buf[..to] == old(buf[..to])
  {
    var k := 0;
    while k < m
      invariant k <= m
      invariant forall j :: to <= j < to + k ==> buf[j] == old(buf[j + (from - to)])
      invariant forall j :: from + k <= j < buf.Length ==> buf[j] == old(buf[j])
      invariant forall j :: 0 <= j < to ==> buf[j] == old(buf[j])
    {
      buf[to + k] := buf[from + k];
      k := k + 1;
    }
  }

  lemma RoundStep(s: string, p: nat, i: nat, pat: string)
    requires p <= i <= |s| && forall k :: p <= k < i ==> !StartsAt(s, k, pat)
    ensures s[..p] + JoinPattern(s[p..], pat) == s[..i] + JoinPattern(s[i..], pat)
  {
    forall k | 0 <= k < i - p ensures !StartsAt(s[p..], k, pat) { StartsAtShift(s, p, k, pat); }
    SkipNonMatches(s[p..], pat, i - p);
    assert s[p..][i - p..] == s[i..];
    assert s[..i] == s[..p] + s[p..][..i - p];
  }

  /** strspn of the white space at q. */
  method SkipSpace(buf: array<char>, q0: nat, n: nat) returns (q: nat)
    requires q0 <= n <= buf.Length
    ensures q0 <= q <= n && buf[q..n] == DropSpace(buf[q0..n])
  {
    q := q0;
    while q < n && IsSpace(buf[q])
      invariant q0 <= q <= n
      invariant DropSpace(buf[q0..n]) == DropSpace(buf[q..n])
    {
      assert buf[q..n][1..] == buf[q + 1..n];
      q := q + 1;
    }
  }

  /** At a match, the filter goes on after the white space. */
  lemma CutStep(s: string, p: nat, q: nat, pat: string)
    requires p < q <= |s| && StartsAt(s, p, pat) && s[q..] == DropSpace(s[p + 1..])
    ensures JoinPattern(s[p..], pat) == JoinPattern(s[q..], pat)
  {
    assert s[p..][1..] == s[p + 1..];
  }

  /** The match at p goes, with the white space after it: strspn, then memmove of the rest and its NUL. */
  method Cut(buf: array<char>, p: nat, n: nat, pat: string) returns (m: nat)
    requires n < buf.Length && buf[n] == '\0'
    requires StartsAt(buf[..n], p, pat) && p < n
    modifies buf
    ensures p <= m < n && buf[m] == '\0'
    ensures buf[..m][..p] == old(buf[..n])[..p]
    ensures JoinPattern(buf[..m][p..], pat) == JoinPattern(old(buf[..n])[p..], pat)
  {
    hide JoinPattern, DropSpace;
    ghost var s := buf[..n];
    var q := SkipSpace(buf, p + 1, n);
    assert buf[p + 1..n] == s[p + 1..] && buf[q..n] == s[q..];
    CutStep(s, p, q, pat);
    ghost var moved := buf[q..n + 1];
    assert moved == s[q..] + ['\0'];
    MoveDown(buf, p, q, n + 1 - q);
    m := n - (q - p);
    assert buf[p..m + 1] == moved;
    assert buf[m] == buf[p..m + 1][m - p];
    assert buf[..m][p..] == buf[p..m + 1][..m - p];
  }

  /** One round, in place on a NUL-terminated buffer of n bytes. */
  method Round(buf: array<char>, n: nat, pat: string) returns (m: nat)
    requires n < buf.Length && buf[n] == '\0'
    requires pat == LF_PATTERN || pat == CRLF_PATTERN
    modifies buf
    ensures m <= n && buf[m] == '\0'
    ensures buf[..m] == JoinPattern(old(buf[..n]), pat)
  {
    m := n;
    var p := 0;
    ghost var goal := JoinPattern(buf[..n], pat);
    assert buf[..n][0..] == buf[..n];
    while true
      invariant p <= m <= n && buf[m] == '\0'
      invariant goal == buf[..m][..p] + JoinPattern(buf[..m][p..], pat)
      decreases m - p
    {
      var i := Strstr(buf, p, m, pat);
      RoundStep(buf[..m], p, i, pat);
      if i == m {
        assert buf[..m][..m] == buf[..m] && buf[..m][m..] == [];
        break;
      }
      p := i;
      m := Cut(buf, p, m, pat);
    }
  }

  /** kill_line_ending_backslash: both rounds in place compute the one filter. */
  method KillLineEndingBackslash(buf: array<char>, n: nat) returns (m: nat)
    requires n < buf.Length && buf[n] == '\0'
    modifies buf
    ensures m <= n && buf[m] == '\0'
    ensures buf[..m] == Join(old(buf[..n]))
  {
    TwoRounds(buf[..n]);
    m := Round(buf, n, LF_PATTERN);
    m := Round(buf, m, CRLF_PATTERN);
  }
}
