/** From raw string text to its value: normalize_string, normalize_key and toml_rtos
    (contrib/tomlc99/toml.c:375-543, 1887-1945). */
module Strings {
  import opened Text
  import opened Lexer
  import Utf8
  import LineJoin

  function HexDigit(c: char): nat
    requires IsHex(c)
  {
    if IsDigit(c) then c as int - '0' as int else c as int - 'A' as int + 10
  }

  /** The value of the n hexadecimal digits at p. */
  function HexValue(s: string, p: nat, n: nat): nat
    requires HexRun(s, p, n)
  {
    if n == 0 then 0 else HexValue(s, p, n - 1) * 16 + HexDigit(s[p + n - 1])
  }

  function Unescape(c: char): char
    requires IsSimpleEscape(c)
  {
    match c
    case 'b' => 8 as char
    case 't' => '\t'
    case 'n' => '\n'
    case 'f' => 12 as char
    case 'r' => '\r'
    case _ => c
  }

  function SpaceEnd(s: string, p: nat): (q: nat)
    requires p <= |s|
    ensures p <= q <= |s|
    ensures p < |s| && IsSpace(s[p]) ==> p < q
    decreases |s| - p
  {
    if p < |s| && IsSpace(s[p]) then SpaceEnd(s, p + 1) else p
  }

  function Prepend(a: string, r: Option<string>): Option<string> {
    match r case None => None case Some(s) => Some(a + s)
  }

  predicate EndsLine(s: string, p: nat) {
    At(s, p) == '\n' || (At(s, p) == '\r' && At(s, p + 1) == '\n')
  }

  /** normalize_string on s[p..q]: every escape replaced by what it stands for. The look-ahead after
      a backslash may reach past q, as the cursor of the source does. */
  function Normalize(s: string, p: nat, q: nat, kill: bool): Option<string>
    requires p <= |s| && q <= |s|
    decreases |s| - p
  {
    if p >= q then Some([])
    else if s[p] != '\\' then Prepend([s[p]], Normalize(s, p + 1, q, kill))
    else if p + 1 >= q then None
    else if kill && EndsLine(s, p + 1) then Normalize(s, SpaceEnd(s, p + 1), q, kill)
    else
      var c := s[p + 1];
      if c == 'u' || c == 'U' then
        var n := if c == 'u' then 4 else 8;
        if !(p + 2 + n <= q && HexRun(s, p + 2, n)) then None
        else
          match Utf8.Encode(HexValue(s, p + 2, n))
          case None => None
          case Some(e) => Prepend(e, Normalize(s, p + 2 + n, q, kill))
      else if IsSimpleEscape(c) then Prepend([Unescape(c)], Normalize(s, p + 2, q, kill))
      else None
  }

  // ---- scanner and normaliser agree ----

  /** Some \u or \U escape of s[p..q], read item by item, names a code the encoder refuses. */
  predicate NamesBadCode(s: string, p: nat, q: nat)
    requires p <= |s| && q <= |s|
    decreases |s| - p
  {
    if p >= q then false
    else if s[p] != '\\' then NamesBadCode(s, p + 1, q)
    else
      match EscapeLen(s, p)
      case None => false
      case Some(n) =>
        || (n > 2 && HexRun(s, p + 2, n - 2) && !Utf8.Encodable(HexValue(s, p + 2, n - 2)))
        || NamesBadCode(s, p + n, q)
  }

  lemma {:induction false} HexBound(s: string, p: nat, n: nat)
    requires HexRun(s, p, n)
    ensures n == 4 ==> HexValue(s, p, n) <= 0xFFFF
  {
    if n == 4 {
      assert HexValue(s, p, 1) <= 15;
      assert HexValue(s, p, 2) <= 255;
      assert HexValue(s, p, 3) <= 4095;
    }
  }

  /** An escape takes at least as many bytes as the code it names. */
  lemma EscapeIsNoShorter(s: string, p: nat, n: nat)
    requires HexRun(s, p, n) && (n == 4 || n == 8) && Utf8.Encode(HexValue(s, p, n)).Some?
    ensures |Utf8.Encode(HexValue(s, p, n)).value| <= n - 1
  {
    HexBound(s, p, n);
    Utf8.ShortestHasRoom(HexValue(s, p, n));
  }

  /** On the interior of every basic string the scanner accepts, the line-ending flag makes no
      difference, normalising fails exactly when an escape names a code that has no encoding, and the
      result is no longer than the interior. */
  lemma {:induction false} ScannerAndNormaliserAgree(s: string, p: nat, q: nat, kill: bool)
    requires p <= |s| && BasicEnd(s, p) == Some(q)
    ensures Normalize(s, p, q, kill) == Normalize(s, p, q, false)
    ensures Normalize(s, p, q, kill).None? <==> NamesBadCode(s, p, q)
    ensures Normalize(s, p, q, kill).Some? ==> |Normalize(s, p, q, kill).value| <= q - p
    decreases |s| - p
  {
    if s[p] == '"' {
    } else if s[p] == '\\' {
      var n := EscapeLen(s, p).value;
      ScannerAndNormaliserAgree(s, p + n, q, kill);
      if n > 2 && Utf8.Encode(HexValue(s, p + 2, n - 2)).Some? { EscapeIsNoShorter(s, p + 2, n - 2); }
    } else {
      ScannerAndNormaliserAgree(s, p + 1, q, kill);
    }
  }

  // ---- normalising and the line-end filter ----

  lemma {:induction false} SpaceEndDrops(s: string, p: nat)
    requires p <= |s|
    ensures s[SpaceEnd(s, p)..] == LineJoin.DropSpace(s[p..])
    decreases |s| - p
  {
    if p >= |s| || !IsSpace(s[p]) {
    } else {
      SpaceEndDrops(s, p + 1);
      assert s[p..][1..] == s[p + 1..];
    }
  }

  lemma JoinsIsEndsLine(s: string, p: nat)
    requires p < |s|
    ensures LineJoin.Joins(s[p..]) <==> s[p] == '\\' && EndsLine(s, p + 1)
  {
    assert s[p..] == [s[p]] + s[p + 1..];
    LineJoin.JoinsHead(s[p], s[p + 1..]);
  }

  /** On text whose only backslashes end lines, normalising with the flag on is the filter. */
  lemma {:induction false} NormalizeIsJoin(s: string, p: nat)
    requires p <= |s|
    requires forall i :: p <= i < |s| && s[i] == '\\' ==> LineJoin.Joins(s[i..])
    ensures Normalize(s, p, |s|, true) == Some(LineJoin.Join(s[p..]))
    decreases |s| - p
  {
    if p >= |s| {
    } else {
      JoinsIsEndsLine(s, p);
      if s[p] == '\\' {
        SpaceEndDrops(s, p + 1);
        assert s[p..][1..] == s[p + 1..];
        assert EndsLine(s, p + 1);
        NormalizeIsJoin(s, SpaceEnd(s, p + 1));
      } else {
        assert s[p..] == [s[p]] + s[p + 1..];
        assert s[p..][1..] == s[p + 1..];
        NormalizeIsJoin(s, p + 1);
      }
    }
  }

  // ---- normalize_string as a loop over a growing buffer ----

  lemma PrependPrepend(a: string, b: string, r: Option<string>)
    ensures Prepend(a, Prepend(b, r)) == Prepend(a + b, r)
  {
    if r.Some? { assert a + (b + r.value) == (a + b) + r.value; }
  }

  /** realloc: the first off bytes move to a larger buffer. */
  method Grow(dst: array<char>, max: nat, off: nat) returns (x: array<char>)
    requires off <= dst.Length <= max
    ensures fresh(x) && x.Length == max && x[..off] == dst[..off]
  {
    x := new char[max];
    var i := 0;
    while i < off
      invariant i <= off && x[..i] == dst[..i]
    {
      x[i] := dst[i];
      i := i + 1;
    }
  }

  /** The digits of a \u or \U escape: ok is false where the source frees dst and returns. */
  method ReadHex(src: string, sp: nat, sq: nat, n: nat) returns (ok: bool, ucs: nat)
    requires sp <= sq <= |src|
    ensures ok <==> sp + n <= sq && HexRun(src, sp, n)
    ensures ok ==> ucs == HexValue(src, sp, n)
  {
    ucs := 0;
    var i := 0;
    while i < n
      invariant i <= n && sp + i <= sq
      invariant HexRun(src, sp, i) && ucs == HexValue(src, sp, i)
    {
      if sp + i >= sq { return false, 0; }
      if !IsHex(src[sp + i]) { return false, 0; }
      ucs := ucs * 16 + HexDigit(src[sp + i]);
      i := i + 1;
    }
    return true, ucs;
  }

  /** One round of the loop of normalize_string: the item at sp goes to dst[off..], which has room. */
  method NormalizeItem(src: string, p: nat, sq: nat, kill: bool, dst: array<char>, off: nat)
    returns (ok: bool, sp: nat, end: nat)
    requires p < sq <= |src| && off + 10 < dst.Length
    modifies dst
    ensures dst[..off] == old(dst[..off])
    ensures ok ==> p < sp <= |src| && off <= end <= off + 6
    ensures ok ==> Normalize(src, p, sq, kill) == Prepend(dst[off..end], Normalize(src, sp, sq, kill))
    ensures !ok ==> Normalize(src, p, sq, kill).None?
  {
    ok, sp, end := true, p + 1, off;
    var ch := src[p];
    if ch != '\\' {
      dst[off] := ch;
      end := off + 1;
      assert dst[off..end] == [ch];
      return;
    }
    if sp >= sq { return false, sp, end; }
    if kill && EndsLine(src, sp) {
      sp := SpaceEnd(src, sp);
      assert dst[off..end] == [];
      PrependNothing(Normalize(src, sp, sq, kill));
      return;
    }
    ch := src[sp];
    sp := sp + 1;
    if ch == 'u' || ch == 'U' {
      var nhex := if ch == 'u' then 4 else 8;
      var good, ucs := ReadHex(src, sp, sq, nhex);
      if !good { return false, sp, end; }
      var n := Utf8.UcsToUtf8(ucs, dst, off);
      if n == -1 { return false, sp, end; }
      sp := sp + nhex;
      end := off + n;
      return;
    }
    if !IsSimpleEscape(ch) { return false, sp, end; }
    dst[off] := Unescape(ch);
    end := off + 1;
    assert dst[off..end] == [Unescape(ch)];
  }

  lemma PrependNothing(r: Option<string>)
    ensures Prepend([], r) == r
  {
    if r.Some? { assert [] + r.value == r.value; }
  }

  /** normalize_string: dst[..off] is the result and dst[off] its NUL. Every write is inside the
      buffer of the size asked for so far, which is what the slack of ten bytes is for. */
  method NormalizeString(src: string, p: nat, sq: nat, kill: bool) returns (ok: bool, dst: array<char>, off: nat)
    requires p <= |src| && sq <= |src|
    ensures fresh(dst)
    ensures ok <==> Normalize(src, p, sq, kill).Some?
    ensures ok ==> off < dst.Length && dst[off] == '\0' && Some(dst[..off]) == Normalize(src, p, sq, kill)
  {
    dst := new char[0];
    var max := 0;
    off := 0;
    var sp := p;
    ok := true;
    assert dst[..off] == [];
    PrependNothing(Normalize(src, sp, sq, kill));
    while true
      invariant fresh(dst) && dst.Length == max && (max == 0 ==> off == 0) && (max > 0 ==> off + 4 <= max)
      invariant sp <= |src|
      invariant Normalize(src, p, sq, kill) == Prepend(dst[..off], Normalize(src, sp, sq, kill))
      decreases |src| - sp
    {
      if off >= max - 10 {
        max := max + 100;
        dst := Grow(dst, max, off);
      }
      if sp >= sq { break; }
      ghost var done := dst[..off];
      var end;
      ok, sp, end := NormalizeItem(src, sp, sq, kill, dst, off);
      if !ok { return false, dst, 0; }
      PrependPrepend(done, dst[off..end], Normalize(src, sp, sq, kill));
      assert dst[..end] == done + dst[off..end];
      off := end;
    }
    ghost var done := dst[..off];
    assert done + [] == done;
    dst[off] := '\0';
    assert dst[..off] == done;
  }

  // ---- keys ----

  predicate IsBareKeyChar(c: char) {
    IsAlnum(c) || c == '_' || c == '-'
  }

  /** normalize_key on the text of a word. */
  function NormalizeKey(text: string): Option<string> {
    if text != [] && (text[0] == '\'' || text[0] == '"') then
      var n := if At(text, 1) == text[0] && At(text, 2) == text[0] then 3 else 1;
      if |text| < 2 * n then None
      else
        var body := if text[0] == '\'' then Some(text[n..|text| - n])
                    else Normalize(text, n, |text| - n, false);
        match body
        case None => None
        case Some(k) => if '\n' in CStr(k) then None else Some(CStr(k))
    else if forall c :: c in text ==> IsBareKeyChar(c) then Some(text)
    else None
  }

  /** normalize_key looks at the two bytes after the first, which may lie past the word. For a word the
      scanner returned that makes no difference: it never starts with an opening it does not close. */
  lemma KeyPeekIsLocal(src: string, p: nat, e: nat, dot: bool)
    requires p < |src| && ScanEnd(src, p, dot) == Some(e) && (src[p] == '\'' || src[p] == '"')
    ensures p + 2 <= e
    ensures (At(src, p + 1) == src[p] && At(src, p + 2) == src[p]) <==>
            (At(src[p..e], 1) == src[p] && At(src[p..e], 2) == src[p])
    ensures At(src, p + 1) == src[p] && At(src, p + 2) == src[p] ==> p + 6 <= e
  {
    var three := [src[p], src[p], src[p]];
    assert three <= src[p..] <==> |src| - p >= 3 && src[p..][1] == src[p] && src[p..][2] == src[p];
    assert three == "'''" || three == "\"\"\"";
  }

  /** normalize_key. */
  method NormalizeKeyText(text: string) returns (r: Option<string>)
    ensures r == NormalizeKey(text)
  {
    if text != [] && (text[0] == '\'' || text[0] == '"') {
      var n := if At(text, 1) == text[0] && At(text, 2) == text[0] then 3 else 1;
      if |text| < 2 * n { return None; }
      var ret: string;
      if text[0] == '\'' {
        ret := CStr(text[n..|text| - n]);
      } else {
        var ok, dst, off := NormalizeString(text, n, |text| - n, false);
        if !ok { return None; }
        ret := CStr(dst[..off]);
      }
      return if '\n' in ret then None else Some(ret);
    }
    var xp := 0;
    while xp < |text|
      invariant xp <= |text| && forall c :: c in text[..xp] ==> IsBareKeyChar(c)
    {
      if !IsBareKeyChar(text[xp]) { return None; }
      assert text[..xp + 1] == text[..xp] + [text[xp]];
      xp := xp + 1;
    }
    assert text[..xp] == text;
    return Some(text);
  }

  // ---- toml_rtos ----

  /** Where the text proper starts after an opening triple quote: one newline there is skipped. */
  function AfterNewline(s: string, p: nat): (q: nat)
    requires p <= |s|
    ensures p <= q <= |s|
  {
    if At(s, p) == '\n' then p + 1
    else if At(s, p) == '\r' && At(s, p + 1) == '\n' then p + 2
    else p
  }

  /** toml_rtos: the value of a raw string, as a C string. */
  function Rtos(src: string): Option<string> {
    if src == [] || (src[0] != '\'' && src[0] != '"') then None
    else
      var triple := |src| >= 3 && src[1] == src[0] && src[2] == src[0];
      var n := if triple then 3 else 1;
      if |src| < 2 * n || src[|src| - n..] != src[..n] then None
      else
        var sp := if triple then AfterNewline(src, n) else n;
        var sq := |src| - n;
        if src[0] == '\'' then
          var body := if sp <= sq then src[sp..sq] else [];
          Some(if triple then LineJoin.Join(body) else body)
        else
          match Normalize(src, sp, sq, true)
          case None => None
          case Some(v) => Some(CStr(v))
  }

  /** The body of a multi-line literal string, filtered in place. */
  method JoinBody(body: string) returns (r: string)
    requires NulFree(body)
    ensures r == LineJoin.Join(body)
  {
    var n := |body|;
    var buf := new char[n + 1](i requires 0 <= i <= n => if i < n then body[i] else '\0');
    assert buf[..n] == body;
    var m := LineJoin.KillLineEndingBackslash(buf, n);
    r := buf[..m];
  }

  /** toml_rtos */
  method ReadString(src: string) returns (r: Option<string>)
    requires NulFree(src)
    ensures r == Rtos(src)
  {
    if src == [] || (src[0] != '\'' && src[0] != '"') { return None; }
    var triple := |src| >= 3 && src[1] == src[0] && src[2] == src[0];
    var n := if triple then 3 else 1;
    if |src| < 2 * n || src[|src| - n..] != src[..n] { return None; }
    var sp, sq := if triple then AfterNewline(src, n) else n, |src| - n;
    if src[0] == '\'' {
      var body := if sp <= sq then src[sp..sq] else [];
      if triple { body := JoinBody(body); }
      return Some(body);
    }
    var ok, dst, off := NormalizeString(src, sp, sq, true);
    r := if ok then Some(CStr(dst[..off])) else None;
  }

  /** The value of a text between apostrophes is that text. */
  lemma LiteralValue(s: string)
    requires '\'' !in s
    ensures Rtos("'" + s + "'") == Some(s)
  {
    var src := "'" + s + "'";
    if s != [] { assert src[1] == s[0] && s[0] in s; }
    assert src[|src| - 1..] == src[..1];
    assert src[1..|src| - 1] == s;
  }

  const APOSTROPHES := "'''"

  /** The value of a multi-line literal string is what stands between the triple apostrophes, without the
      newline right after the opening ones, filtered. */
  lemma MultilineLiteralValue(s: string)
    ensures Rtos(APOSTROPHES + s + APOSTROPHES) == Some(LineJoin.Join(s[AfterNewline(s, 0)..]))
  {
    var src := APOSTROPHES + s + APOSTROPHES;
    var n := |src| - 3;
    assert src[n..] == src[..3] && src[3..n] == s;
    assert forall i :: 0 <= i < |s| ==> src[3 + i] == s[i];
    assert src[n] == '\'';
    assert AfterNewline(src, 3) == 3 + AfterNewline(s, 0) by { NewlineInside(src, s); }
    assert src[3 + AfterNewline(s, 0)..n] == s[AfterNewline(s, 0)..];
  }

  lemma NewlineInside(src: string, s: string)
    requires |src| == |s| + 6 && src[|s| + 3] == '\'' && forall i :: 0 <= i < |s| ==> src[3 + i] == s[i]
    ensures AfterNewline(src, 3) == 3 + AfterNewline(s, 0)
  {
  }
}
