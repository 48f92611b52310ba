/** The UTF-8 codec (contrib/tomlc99/toml.c:50-221): the one- to six-byte form of section 2 of
    RFC 2279, with the surrogates and U+FFFE, U+FFFF refused on encoding. Shifts and masks are
    written as division and remainder. */
module Utf8 {
  import opened Text

  predicate Encodable(code: int) {
    0 <= code <= 0x7FFF_FFFF && !(0xD800 <= code <= 0xDFFF) && !(0xFFFE <= code <= 0xFFFF)
  }

  /** code >> 6n */
  function Shr(code: nat, n: nat): nat {
    if n == 0 then code else Shr(code / 64, n - 1)
  }

  /** The n continuation bytes of code, most significant first. */
  function Cont(code: nat, n: nat): (s: string)
    ensures |s| == n
  {
    if n == 0 then [] else Cont(code / 64, n - 1) + [(0x80 + code % 64) as char]
  }

  /** The number of bytes the shortest form takes. */
  function EncLen(code: nat): (n: nat)
    ensures 1 <= n <= 6
  {
    if code <= 0x7F then 1
    else if code <= 0x7FF then 2
    else if code <= 0xFFFF then 3
    else if code <= 0x1F_FFFF then 4
    else if code <= 0x3FF_FFFF then 5
    else 6
  }

  /** The marker bits of the lead byte of an n-byte form, and the payload values it has room for. */
  function LeadBase(n: nat): nat
    requires 1 <= n <= 6
  {
    match n case 1 => 0 case 2 => 0xC0 case 3 => 0xE0 case 4 => 0xF0 case 5 => 0xF8 case 6 => 0xFC
  }

  function LeadRoom(n: nat): nat
    requires 1 <= n <= 6
  {
    match n case 1 => 128 case 2 => 32 case 3 => 16 case 4 => 8 case 5 => 4 case 6 => 2
  }

  /** code written in n bytes, shortest or not. */
  function EncAs(code: nat, n: nat): (s: string)
    requires 1 <= n <= 6 && Shr(code, n - 1) < LeadRoom(n)
    ensures |s| == n
  {
    [(LeadBase(n) + Shr(code, n - 1)) as char] + Cont(code, n - 1)
  }

  lemma {:induction false} ShrShift(code: nat, n: nat)
    ensures Shr(code, n + 1) == Shr(code, n) / 64
  {
    if n == 0 {
    } else {
      ShrShift(code / 64, n - 1);
    }
  }

  lemma ShrDigits(code: nat)
    ensures Shr(code, 0) == code && Shr(code, 1) == code / 64
    ensures Shr(code, 2) == code / 4096 && Shr(code, 3) == code / 262144
    ensures Shr(code, 4) == code / 16777216 && Shr(code, 5) == code / 1073741824
  {
    ShrShift(code, 0);
    ShrShift(code, 1);
    ShrShift(code, 2);
    ShrShift(code, 3);
    ShrShift(code, 4);
  }

  lemma ShortestHasRoom(code: nat)
    requires code <= 0x7FFF_FFFF
    ensures Shr(code, EncLen(code) - 1) < LeadRoom(EncLen(code))
  {
    ShrDigits(code);
  }

  function Encode(code: int): (r: Option<string>)
    ensures r.Some? ==> 1 <= |r.value| <= 6
  {
    if Encodable(code) then
      ShortestHasRoom(code);
      Some(EncAs(code, EncLen(code)))
    else None
  }

  // ---- decoding ----

  /** The number of bytes the lead byte announces; 0 for a byte that cannot lead. */
  function FormLen(i: nat): (n: nat)
    ensures n <= 6
    ensures n > 0 ==> LeadBase(n) <= i < LeadBase(n) + LeadRoom(n)
  {
    if i / 128 == 0 then 1
    else if i / 32 == 0x6 then 2
    else if i / 16 == 0xE then 3
    else if i / 8 == 0x1E then 4
    else if i / 4 == 0x3E then 5
    else if i / 2 == 0x7E then 6
    else 0
  }

  /** v extended by the payloads of the n continuation bytes at p. */
  function DecCont(s: string, p: nat, n: nat, v: nat): (r: Option<nat>)
    requires p + n <= |s|
  {
    if n == 0 then Some(v)
    else
      match DecCont(s, p, n - 1, v)
      case None => None
      case Some(w) =>
        var i := s[p + n - 1] as int;
        if i / 64 != 2 then None else Some(w * 64 + i % 64)
  }

  /** The code at the front of s and the bytes it takes; None where the source returns -1. */
  function Decode(s: string): (r: Option<(nat, nat)>)
    ensures r.Some? ==> 1 <= r.value.1 <= 6 && r.value.1 <= |s|
  {
    if s == [] then None
    else
      var i := s[0] as int;
      var n := FormLen(i);
      if n == 0 || |s| < n then None
      else
        match DecCont(s, 1, n - 1, i - LeadBase(n))
        case None => None
        case Some(v) => Some((v, n))
  }

  lemma {:induction false} DecContOfCont(s: string, p: nat, n: nat, code: nat)
    requires p + n <= |s| && s[p..p + n] == Cont(code, n)
    ensures DecCont(s, p, n, Shr(code, n)) == Some(code)
  {
    if n == 0 {
    } else {
      assert s[p..p + n - 1] == s[p..p + n][..n - 1] == Cont(code / 64, n - 1);
      DecContOfCont(s, p, n - 1, code / 64);
      assert s[p + n - 1] == s[p..p + n][n - 1];
    }
  }

  lemma {:induction false} ContOfDecCont(s: string, p: nat, n: nat, v: nat)
    requires p + n <= |s| && DecCont(s, p, n, v).Some?
    ensures s[p..p + n] == Cont(DecCont(s, p, n, v).value, n)
    ensures Shr(DecCont(s, p, n, v).value, n) == v
  {
    if n == 0 {
    } else {
      ContOfDecCont(s, p, n - 1, v);
      assert s[p..p + n] == s[p..p + n - 1] + [s[p + n - 1]];
    }
  }

  lemma FormLenOfLead(n: nat, x: nat)
    requires 1 <= n <= 6 && x < LeadRoom(n)
    ensures FormLen(LeadBase(n) + x) == n
  {
  }

  /** Decoding inverts encoding and leaves what follows alone. */
  lemma DecodeEncode(code: int, rest: string)
    requires Encodable(code)
    ensures Decode(Encode(code).value + rest) == Some((code, |Encode(code).value|))
  {
    var n := EncLen(code);
    ShortestHasRoom(code);
    var e := EncAs(code, n);
    var s := e + rest;
    FormLenOfLead(n, Shr(code, n - 1));
    assert s[0] == e[0];
    assert s[1..1 + (n - 1)] == e[1..] == Cont(code, n - 1);
    DecContOfCont(s, 1, n - 1, code);
  }

  /** Every form the decoder accepts is its code written in that many bytes. */
  lemma DecodedForm(s: string)
    requires Decode(s).Some?
    ensures var (v, n) := Decode(s).value;
            Shr(v, n - 1) < LeadRoom(n) && s[..n] == EncAs(v, n)
  {
    var (v, n) := Decode(s).value;
    var i := s[0] as int;
    ContOfDecCont(s, 1, n - 1, i - LeadBase(n));
    assert s[..n] == [s[0]] + s[1..1 + (n - 1)];
  }

  /** A decoded form is the encoder's own exactly when it is the shortest one for a code that has one. */
  lemma DecodedIsEncodedIffShortest(s: string)
    requires Decode(s).Some?
    ensures var (v, n) := Decode(s).value; Encode(v) == Some(s[..n]) <==> n == EncLen(v) && Encodable(v)
    ensures EncLen(Decode(s).value.0) <= Decode(s).value.1
  {
    DecodedForm(s);
    var (v, n) := Decode(s).value;
    ShrBound(v);
  }

  /** A code that fits an n-byte form is one whose shortest form has at most n bytes. */
  lemma ShrBound(v: nat)
    ensures forall n :: 1 <= n <= 6 && Shr(v, n - 1) < LeadRoom(n) ==> EncLen(v) <= n
  {
    ShrDigits(v);
  }

  // ---- texts ----

  function EncodeAll(codes: seq<int>): string
    requires forall c :: c in codes ==> Encodable(c)
  {
    if codes == [] then [] else Encode(codes[0]).value + EncodeAll(codes[1..])
  }

  /** Decode one character at a time to the end of the text. */
  function DecodeAll(s: string): (r: Option<seq<int>>)
    decreases |s|
  {
    if s == [] then Some([])
    else
      match Decode(s)
      case None => None
      case Some((v, n)) =>
        match DecodeAll(s[n..]) case None => None case Some(vs) => Some([v] + vs)
  }

  lemma DecodeAllStep(code: int, e: string, rest: string)
    requires e != [] && Decode(e + rest) == Some((code, |e|)) && DecodeAll(rest).Some?
    ensures DecodeAll(e + rest) == Some([code] + DecodeAll(rest).value)
  {
    assert (e + rest)[|e|..] == rest;
  }

  /** Any concatenation of encodings decodes to the codes it was made of. */
  lemma {:induction false} DecodeAllEncodeAll(codes: seq<int>)
    requires forall c :: c in codes ==> Encodable(c)
    ensures DecodeAll(EncodeAll(codes)) == Some(codes)
  {
    if codes == [] {
    } else {
      var rest := EncodeAll(codes[1..]);
      DecodeEncode(codes[0], rest);
      DecodeAllEncodeAll(codes[1..]);
      DecodeAllStep(codes[0], Encode(codes[0]).value, rest);
      assert codes == [codes[0]] + codes[1..];
    }
  }

  /** No encoding is a prefix of another. */
  lemma PrefixFree(a: int, b: int)
    requires Encodable(a) && Encodable(b)
    requires Encode(a).value <= Encode(b).value
    ensures a == b
  {
    var ea, eb := Encode(a).value, Encode(b).value;
    DecodeEncode(a, eb[|ea|..]);
    assert ea + eb[|ea|..] == eb + [];
    DecodeEncode(b, []);
  }

  // ---- order ----

  ghost predicate DiffersAt(a: string, b: string, i: nat) {
    i < |b| && i <= |a| && a[..i] == b[..i] && (i == |a| || a[i] < b[i])
  }

  /** Byte-lexicographic order. */
  ghost predicate LexLess(a: string, b: string) {
    exists i :: DiffersAt(a, b, i)
  }

  lemma LexLessAsymmetric(a: string, b: string)
    requires LexLess(a, b)
    ensures a != b && !LexLess(b, a)
  {
    var i: nat :| DiffersAt(a, b, i);
    forall j: nat ensures !DiffersAt(b, a, j) { DiffersOneWay(a, b, i, j); }
  }

  lemma DiffersOneWay(a: string, b: string, i: nat, j: nat)
    requires DiffersAt(a, b, i)
    ensures !DiffersAt(b, a, j)
  {
    if i < j <= |b| && i < |a| { assert b[..j][i] == b[i]; }
    if j < i { assert a[..i][j] == a[j] && b[..i][j] == b[j]; }
  }

  lemma {:induction false} ContOrder(a: nat, b: nat, n: nat) returns (i: nat)
    requires a < b && Shr(a, n) == Shr(b, n)
    ensures i < n && DiffersAt(Cont(a, n), Cont(b, n), i)
  {
    if n == 0 {
      assert false;
    } else {
      var ca, cb := Cont(a, n), Cont(b, n);
      assert ca[..n - 1] == Cont(a / 64, n - 1) && cb[..n - 1] == Cont(b / 64, n - 1);
      if a / 64 < b / 64 {
        i := ContOrder(a / 64, b / 64, n - 1);
        assert ca[..i] == ca[..n - 1][..i] && cb[..i] == cb[..n - 1][..i];
        assert ca[i] == ca[..n - 1][i] && cb[i] == cb[..n - 1][i];
      } else {
        i := n - 1;
      }
    }
  }

  lemma {:induction false} ShrMonotone(a: nat, b: nat, n: nat)
    requires a <= b
    ensures Shr(a, n) <= Shr(b, n)
  {
    if n == 0 {
    } else {
      ShrMonotone(a / 64, b / 64, n - 1);
    }
  }

  lemma EncodeOrderUp(a: int, b: int)
    requires Encodable(a) && Encodable(b) && a < b
    ensures LexLess(Encode(a).value, Encode(b).value)
  {
    var m, n := EncLen(a), EncLen(b);
    if m == n && Shr(a, n - 1) == Shr(b, n - 1) {
      SameLead(a, b);
    } else {
      OtherLead(a, b);
    }
  }

  lemma SameLead(a: int, b: int)
    requires Encodable(a) && Encodable(b) && a < b && EncLen(a) == EncLen(b)
    requires Shr(a, EncLen(a) - 1) == Shr(b, EncLen(b) - 1)
    ensures LexLess(Encode(a).value, Encode(b).value)
  {
    var ea, eb := Encode(a).value, Encode(b).value;
    var n := EncLen(a);
    ShortestHasRoom(a);
    ShortestHasRoom(b);
    var i := ContOrder(a, b, n - 1);
    assert ea[..i + 1] == [ea[0]] + Cont(a, n - 1)[..i];
    assert eb[..i + 1] == [eb[0]] + Cont(b, n - 1)[..i];
    assert DiffersAt(ea, eb, i + 1);
  }

  lemma OtherLead(a: int, b: int)
    requires Encodable(a) && Encodable(b) && a < b
    requires EncLen(a) == EncLen(b) ==> Shr(a, EncLen(a) - 1) != Shr(b, EncLen(b) - 1)
    ensures LexLess(Encode(a).value, Encode(b).value)
  {
    var ea, eb := Encode(a).value, Encode(b).value;
    ShortestHasRoom(a);
    ShortestHasRoom(b);
    ShrMonotone(a, b, EncLen(b) - 1);
    assert ea[0] < eb[0];
    assert DiffersAt(ea, eb, 0);
  }

  /** Byte order of the encodings is the order of the codes. */
  lemma OrderPreserving(a: int, b: int)
    requires Encodable(a) && Encodable(b)
    ensures a < b <==> LexLess(Encode(a).value, Encode(b).value)
  {
    if a < b {
      EncodeOrderUp(a, b);
    } else if b < a {
      EncodeOrderUp(b, a);
      LexLessAsymmetric(Encode(b).value, Encode(a).value);
    } else if LexLess(Encode(a).value, Encode(b).value) {
      LexLessAsymmetric(Encode(a).value, Encode(b).value);
    }
  }

  // ---- the two C functions ----

  /** The continuation byte that holds bits 6k..6k+5 of code. */
  function Payload(code: nat, k: nat): char {
    (0x80 + Shr(code, k) % 64) as char
  }

  lemma {:induction false} ContDigits(code: nat, n: nat, k: nat)
    requires k < n <= 5
    ensures Cont(code, n)[n - 1 - k] == Payload(code, k)
  {
    if k == 0 {
    } else {
      ContDigits(code / 64, n - 1, k - 1);
    }
  }

  lemma EncodeByte(code: nat, k: nat)
    requires Encodable(code) && k < EncLen(code)
    ensures Encode(code).Some?
    ensures |Encode(code).value| == EncLen(code)
    ensures k > 0 ==> Encode(code).value[k] == Payload(code, EncLen(code) - 1 - k)
    ensures k == 0 ==> Encode(code).value[0] as int == LeadBase(EncLen(code)) + Shr(code, EncLen(code) - 1)
  {
    ShortestHasRoom(code);
    if k > 0 { ContDigits(code, EncLen(code) - 1, EncLen(code) - 1 - k); }
  }

  lemma EncodeBytes(code: nat, s: string)
    requires Encodable(code) && |s| == EncLen(code)
    requires s[0] as int == LeadBase(EncLen(code)) + Shr(code, EncLen(code) - 1)
    requires forall k :: 0 < k < EncLen(code) ==> s[k] == Payload(code, EncLen(code) - 1 - k)
    ensures Encode(code) == Some(s)
  {
    forall k | 0 <= k < EncLen(code)
      ensures |Encode(code).value| == |s| && Encode(code).value[k] == s[k]
    {
      EncodeByte(code, k);
    }
    assert Encode(code).value == s;
  }

  /** The one- to three-byte branches of toml_ucs_to_utf8. */
  method PutShort(code: nat, buf: array<char>, off: nat) returns (n: nat)
    requires off + 3 <= buf.Length && Encodable(code) && code <= 0xFFFF
    modifies buf
    ensures Encode(code).Some? && n == |Encode(code).value|
    ensures buf[off..off + n] == Encode(code).value
    ensures forall i :: 0 <= i < buf.Length && !(off <= i < off + n) ==> buf[i] == old(buf[i])
  {
    ShortestHasRoom(code);
    if code <= 0x7F {
      buf[off] := code as char;
      EncodeBytes(code, buf[off..off + 1]);
      n := 1;
    } else if code <= 0x7FF {
      buf[off] := (0xC0 + Shr(code, 1)) as char;
      buf[off + 1] := Payload(code, 0);
      EncodeBytes(code, buf[off..off + 2]);
      n := 2;
    } else {
      buf[off] := (0xE0 + Shr(code, 2)) as char;
      buf[off + 1] := Payload(code, 1);
      buf[off + 2] := Payload(code, 0);
      EncodeBytes(code, buf[off..off + 3]);
      n := 3;
    }
  }

  /** The four- to six-byte branches of toml_ucs_to_utf8. */
  method PutLong(code: nat, buf: array<char>, off: nat) returns (n: nat)
    requires off + 6 <= buf.Length && Encodable(code) && code > 0xFFFF
    modifies buf
    ensures Encode(code).Some? && n == |Encode(code).value|
    ensures buf[off..off + n] == Encode(code).value
    ensures forall i :: 0 <= i < buf.Length && !(off <= i < off + n) ==> buf[i] == old(buf[i])
  {
    ShortestHasRoom(code);
    if code <= 0x1F_FFFF {
      buf[off] := (0xF0 + Shr(code, 3)) as char;
      buf[off + 1] := Payload(code, 2);
      buf[off + 2] := Payload(code, 1);
      buf[off + 3] := Payload(code, 0);
      EncodeBytes(code, buf[off..off + 4]);
      n := 4;
    } else if code <= 0x3FF_FFFF {
      buf[off] := (0xF8 + Shr(code, 4)) as char;
      buf[off + 1] := Payload(code, 3);
      buf[off + 2] := Payload(code, 2);
      buf[off + 3] := Payload(code, 1);
      buf[off + 4] := Payload(code, 0);
      EncodeBytes(code, buf[off..off + 5]);
      n := 5;
    } else {
      buf[off] := (0xFC + Shr(code, 5)) as char;
      buf[off + 1] := Payload(code, 4);
      buf[off + 2] := Payload(code, 3);
      buf[off + 3] := Payload(code, 2);
      buf[off + 4] := Payload(code, 1);
      buf[off + 5] := Payload(code, 0);
      EncodeBytes(code, buf[off..off + 6]);
      n := 6;
    }
  }

  /** toml_ucs_to_utf8: writes the encoding at buf[off..] and returns its length, or -1. */
  method UcsToUtf8(code: int, buf: array<char>, off: nat) returns (n: int)
    requires off + 6 <= buf.Length
    modifies buf
    ensures n == match Encode(code) case None => -1 case Some(e) => |e|
    ensures Encode(code).Some? ==> buf[off..off + n] == Encode(code).value
    ensures forall i :: 0 <= i < buf.Length && !(off <= i < off + n) ==> buf[i] == old(buf[i])
  {
    if 0xD800 <= code <= 0xDFFF { return -1; }
    if 0xFFFE <= code <= 0xFFFF { return -1; }
    if code < 0 { return -1; }
    if code > 0x7FFF_FFFF { return -1; }
    if code <= 0xFFFF {
      n := PutShort(code, buf, off);
    } else {
      n := PutLong(code, buf, off);
    }
  }

  /** toml_utf8_to_ucs on the len bytes of orig: the bytes used, or -1, and the code. */
  method Utf8ToUcs(orig: string) returns (n: int, code: int)
    ensures n == match Decode(orig) case None => -1 case Some((_, k)) => k
    ensures Decode(orig).Some? ==> code == Decode(orig).value.0
  {
    code := 0;
    if |orig| < 1 { return -1, 0; }
    var i := orig[0] as int;
    var form, v;
    if i / 128 == 0 { form, v := 1, i; }
    else if i / 32 == 0x6 { form, v := 2, i % 32; }
    else if i / 16 == 0xE { form, v := 3, i % 16; }
    else if i / 8 == 0x1E { form, v := 4, i % 8; }
    else if i / 4 == 0x3E { form, v := 5, i % 4; }
    else if i / 2 == 0x7E { form, v := 6, i % 2; }
    else { return -1, 0; }
    assert FormLen(i) == form && v == i - LeadBase(form);
    if |orig| < form { return -1, 0; }
    ghost var v0 := v;
    var j := 0;
    while j < form - 1
      invariant 0 <= j <= form - 1
      invariant v >= 0 && DecCont(orig, 1, j, v0) == Some(v)
    {
      i := orig[1 + j] as int;
      if i / 64 != 2 {
        BadByteFails(orig, 1, j + 1, form - 1, v0);
        return -1, 0;
      }
      v := v * 64 + i % 64;
      j := j + 1;
    }
    return form, v;
  }

  lemma {:induction false} BadByteFails(s: string, p: nat, j: nat, n: nat, v: nat)
    requires j <= n && p + n <= |s| && DecCont(s, p, j, v).None?
    ensures DecCont(s, p, n, v).None?
  {
    if j >= n {
    } else {
      BadByteFails(s, p, j, n - 1, v);
    }
  }

  // ---- the bytes themselves ----

  /** The byte whose six low bits are those of code from bit 6k on, after the marker. */
  function Byte(n: nat): char
    requires n < 256
  {
    n as char
  }

  /** The forms of section 2 of RFC 2279, byte by byte. */
  function Form(code: nat): string
    requires code <= 0x7FFF_FFFF
  {
    if code <= 0x7F then [Byte(code)]
    else if code <= 0x7FF then [Byte(0xC0 + code / 0x40), Byte(0x80 + code % 0x40)]
    else if code <= 0xFFFF then
      [Byte(0xE0 + code / 0x1000), Byte(0x80 + code / 0x40 % 0x40), Byte(0x80 + code % 0x40)]
    else if code <= 0x1F_FFFF then
      [Byte(0xF0 + code / 0x4_0000), Byte(0x80 + code / 0x1000 % 0x40), Byte(0x80 + code / 0x40 % 0x40),
       Byte(0x80 + code % 0x40)]
    else if code <= 0x3FF_FFFF then
      [Byte(0xF8 + code / 0x100_0000), Byte(0x80 + code / 0x4_0000 % 0x40), Byte(0x80 + code / 0x1000 % 0x40),
       Byte(0x80 + code / 0x40 % 0x40), Byte(0x80 + code % 0x40)]
    else
      [Byte(0xFC + code / 0x4000_0000), Byte(0x80 + code / 0x100_0000 % 0x40), Byte(0x80 + code / 0x4_0000 % 0x40),
       Byte(0x80 + code / 0x1000 % 0x40), Byte(0x80 + code / 0x40 % 0x40), Byte(0x80 + code % 0x40)]
  }

  lemma Quotients(code: nat)
    ensures code / 64 / 64 == code / 0x1000 && code / 0x1000 / 64 == code / 0x4_0000
    ensures code / 0x4_0000 / 64 == code / 0x100_0000 && code / 0x100_0000 / 64 == code / 0x4000_0000
  {
  }

  lemma ContBytes(code: nat)
    ensures Cont(code, 0) == [] && Cont(code, 1) == [(0x80 + code % 64) as char]
    ensures Cont(code, 2) == [(0x80 + code / 64 % 64) as char, (0x80 + code % 64) as char]
  {
    assert Cont(code / 64, 1) == Cont(code / 64 / 64, 0) + [(0x80 + code / 64 % 64) as char];
  }

  lemma ContThree(code: nat)
    ensures Cont(code, 3) ==
            [(0x80 + code / 0x1000 % 64) as char, (0x80 + code / 64 % 64) as char, (0x80 + code % 64) as char]
  {
    Quotients(code);
    ContBytes(code / 64);
  }

  lemma ContFour(code: nat)
    ensures Cont(code, 4) == [(0x80 + code / 0x4_0000 % 64) as char, (0x80 + code / 0x1000 % 64) as char,
                              (0x80 + code / 64 % 64) as char, (0x80 + code % 64) as char]
  {
    Quotients(code);
    Quotients(code / 64);
    ContThree(code / 64);
  }

  lemma ContFive(code: nat)
    ensures Cont(code, 5) == [(0x80 + code / 0x100_0000 % 64) as char, (0x80 + code / 0x4_0000 % 64) as char,
                              (0x80 + code / 0x1000 % 64) as char, (0x80 + code / 64 % 64) as char,
                              (0x80 + code % 64) as char]
  {
    Quotients(code);
    Quotients(code / 64);
    ContFour(code / 64);
  }

  lemma ShrIs(code: nat)
    ensures Shr(code, 0) == code && Shr(code, 1) == code / 64 && Shr(code, 2) == code / 0x1000
    ensures Shr(code, 3) == code / 0x4_0000 && Shr(code, 4) == code / 0x100_0000 && Shr(code, 5) == code / 0x4000_0000
  {
    Quotients(code);
    assert Shr(code, 2) == Shr(code / 64, 1) == Shr(code / 64 / 64, 0);
    assert Shr(code, 3) == Shr(code / 64, 2) == Shr(code / 64 / 64, 1) == Shr(code / 64 / 64 / 64, 0);
    assert Shr(code, 4) == Shr(code / 64 / 64, 2) == Shr(code / 64 / 64 / 64 / 64, 0);
    assert Shr(code, 5) == Shr(code / 64 / 64 / 64, 2) == Shr(code / 64 / 64 / 64 / 64 / 64, 0);
  }

  /** The encoder writes exactly these bytes, and refuses exactly the surrogates, FFFE, FFFF and what has more
      than 31 bits. */
  lemma EncodesAs(code: int)
    ensures Encode(code) ==
            if code < 0 || code > 0x7FFF_FFFF || 0xD800 <= code <= 0xDFFF || code == 0xFFFE || code == 0xFFFF then None
            else Some(Form(code))
  {
    if Encodable(code) {
      hide Shr, Cont;
      ShortestHasRoom(code);
      ShrIs(code);
      ContBytes(code);
      ContThree(code);
      ContFour(code);
      ContFive(code);
      assert Encode(code).value ==
             [(LeadBase(EncLen(code)) + Shr(code, EncLen(code) - 1)) as char] + Cont(code, EncLen(code) - 1);
      assert Encode(code).value == Form(code);
    }
  }
}
