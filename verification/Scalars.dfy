/** What a raw scalar is: valtype (contrib/tomlc99/toml.c:805-818), which decides what may share an array, and
    print_raw (contrib/tomlc99/toml_json.c:54-89). Whether a text reads as a double is left to a parameter. */
module Scalars {
  import opened Text
  import opened Strings
  import opened EscapePrinter
  import Numbers
  import Timestamps
  import Syntax

  /** toml_rtob */
  function Rtob(src: string): Option<bool> {
    if src == "true" then Some(true) else if src == "false" then Some(false) else None
  }

  function ValTypeOf(isDouble: string -> bool, val: string): char {
    if val != [] && (val[0] == '\'' || val[0] == '"') then 's'
    else if Rtob(val).Some? then 'b'
    else if Numbers.Rtoi(val).Some? then 'i'
    else if isDouble(val) then 'd'
    else
      match Timestamps.Rtots(val)
      case None => 'u'
      case Some(t) => if t.date.Some? && t.time.Some? then 'T' else if t.date.Some? then 'D' else 't'
  }

  /** The function the parser is given. */
  function Classes(isDouble: string -> bool): Syntax.ValType {
    (val: string) => ValTypeOf(isDouble, val)
  }

  // ---- print_raw ----

  /** The two fields print_raw prints. */
  datatype Shown = Shown(typ: string, value: string)

  /** print_raw; None where it prints "unknown type" and ends the program. */
  function PrintRaw(isDouble: string -> bool, raw: string): Option<Shown> {
    if Rtos(raw).Some? then Some(Shown("string", Escape(Rtos(raw).value)))
    else if Numbers.Rtoi(raw).Some? then Some(Shown("integer", Numbers.PrintInt(Numbers.Rtoi(raw).value)))
    else if Rtob(raw).Some? then Some(Shown("bool", if Rtob(raw).value then "true" else "false"))
    else if isDouble(raw) then Some(Shown("float", raw))
    else
      match Timestamps.Rtots(raw)
      case None => None
      case Some(t) =>
        if t.date.Some? && t.time.Some? then Some(Shown("datetime", Timestamps.Print(t)))
        else if t.date.Some? then Some(Shown("date", Timestamps.Print(t)))
        else if t.time.Some? then Some(Shown("time", Timestamps.Print(t)))
        else Some(Shown("", ""))
  }

  /** The type that goes with a class. */
  function TypeName(c: char): string {
    match c
    case 's' => "string"
    case 'b' => "bool"
    case 'i' => "integer"
    case 'd' => "float"
    case 'T' => "datetime"
    case 'D' => "date"
    case _ => "time"
  }

  /** A timestamp with no part is the empty text, which has been read as an integer before. */
  lemma NoPartIsEmpty(raw: string)
    requires Timestamps.Rtots(raw).Some?
    requires Timestamps.Rtots(raw).value.date.None? && Timestamps.Rtots(raw).value.time.None?
    ensures raw == "" && Numbers.Rtoi(raw) == Some(0)
  {
  }

  /** A quoted text is neither an integer nor a boolean nor a timestamp. */
  lemma QuotedIsString(raw: string)
    requires NulFree(raw) && raw != [] && (raw[0] == '\'' || raw[0] == '"')
    ensures Numbers.Rtoi(raw) == None && Rtob(raw) == None && Timestamps.Rtots(raw) == None
  {
    Numbers.NoNumberStart(raw);
    QuotedIsNoStamp(raw);
  }

  lemma QuotedIsNoStamp(raw: string)
    requires raw != [] && (raw[0] == '\'' || raw[0] == '"')
    ensures Timestamps.Rtots(raw) == None
  {
    assert |raw| >= 8 ==> Timestamps.Rounds(raw, 0, 0, 8, ':', 0) == None;
    assert |raw| >= 4 ==> Timestamps.Rounds(raw, 0, 0, 10, '-', 0) == None;
  }

  /** When print_raw prints, and which type: for a text that is not quoted, exactly when its class is known,
      and then the type of that class; for a quoted text, exactly when it has a string value (or reads as a
      double). */
  lemma PrintedByClass(isDouble: string -> bool, raw: string)
    requires NulFree(raw)
    ensures var c, p := ValTypeOf(isDouble, raw), PrintRaw(isDouble, raw);
            && (c != 's' ==> (p.Some? <==> c != 'u') && (p.Some? ==> p.value.typ == TypeName(c)))
            && (c == 's' ==> (p.Some? <==> Rtos(raw).Some? || isDouble(raw)))
            && (Rtos(raw).Some? ==> c == 's' && p.Some? && p.value.typ == TypeName(c))
  {
    hide Rtos, Numbers.Rtoi, Timestamps.Rtots, Timestamps.Print, Numbers.PrintInt, Escape;
    if Rtos(raw).Some? { StringsAreQuoted(raw); }
    if raw != [] && (raw[0] == '\'' || raw[0] == '"') {
      QuotedIsString(raw);
    } else {
      if Rtob(raw).Some? { Numbers.NoNumberStart(raw); }
      var t := Timestamps.Rtots(raw);
      if t.Some? && t.value.date.None? && t.value.time.None? { NoPartIsEmpty(raw); }
    }
  }

  lemma StringsAreQuoted(raw: string)
    requires Rtos(raw).Some?
    ensures raw != [] && (raw[0] == '\'' || raw[0] == '"')
  {
  }

  /** The two booleans. */
  lemma PrintedBool(isDouble: string -> bool)
    ensures ValTypeOf(isDouble, "true") == 'b' && PrintRaw(isDouble, "true") == Some(Shown("bool", "true"))
    ensures ValTypeOf(isDouble, "false") == 'b' && PrintRaw(isDouble, "false") == Some(Shown("bool", "false"))
  {
    Numbers.NoNumberStart("true");
    Numbers.NoNumberStart("false");
  }

  /** A quoted print is a string, and goes out with the same escapes. */
  lemma PrintedString(isDouble: string -> bool, s: string)
    requires NulFree(s)
    ensures ValTypeOf(isDouble, Quoted(s)) == 's'
    ensures PrintRaw(isDouble, Quoted(s)) == Some(Shown("string", Escape(s)))
  {
    hide Rtos, Escape;
    PrintedValue(s);
    assert Quoted(s)[0] == '"';
  }

  /** A printed integer is an integer, and goes out as it is. */
  lemma PrintedIntIsInt(isDouble: string -> bool, v: int)
    requires Numbers.FitsInt64(v)
    ensures ValTypeOf(isDouble, Numbers.PrintInt(v)) == 'i'
    ensures PrintRaw(isDouble, Numbers.PrintInt(v)) == Some(Shown("integer", Numbers.PrintInt(v)))
  {
    hide Rtos, Numbers.Rtoi;
    var s := Numbers.PrintInt(v);
    Numbers.PrintRead(v);
    Numbers.PrintedShape(v, if v < 0 then -v else v);
    assert s[0] == '-' || Numbers.DecimalDigit(s[0]);
    if Rtos(s).Some? { StringsAreQuoted(s); }
  }

  /** A double that nothing before it reads goes out as it was written. */
  lemma PrintedDouble(isDouble: string -> bool, raw: string)
    requires isDouble(raw) && raw != "" && raw[0] != '\'' && raw[0] != '"' && raw != "true" && raw != "false"
    requires Numbers.Rtoi(raw).None?
    ensures ValTypeOf(isDouble, raw) == 'd' && PrintRaw(isDouble, raw) == Some(Shown("float", raw))
  {
    hide Rtos, Numbers.Rtoi;
    if Rtos(raw).Some? { StringsAreQuoted(raw); }
  }

  /** A canonical timestamp is no integer: after its first digits a separator follows. */
  lemma StampIsNoInt(s: string)
    requires Timestamps.Canonical(s)
    ensures IsDigit(s[0]) && Numbers.Rtoi(s) == None
  {
    Timestamps.CanonicalNulFree(s);
    if |s| > 8 { assert Timestamps.DateShape(s[..10]) by { assert |s| == 10 ==> s[..10] == s; } }
    assert IsDigit(s[0]) by { if |s| > 8 { assert s[..10][0] == s[0]; } }
    var i := if |s| == 8 then 2 else 4;
    assert !Numbers.DecimalDigit(s[i]) by { if |s| > 8 { assert s[..10][4] == s[4]; } }
    assert s[0..] == s && s[i] in s;
    Numbers.RtoiExact(s);
  }

  /** A printed timestamp has the class of the parts it has, unless it reads as a double, and goes out as it is. */
  lemma PrintedStampIsStamp(isDouble: string -> bool, t: Timestamps.Stamp)
    requires Timestamps.Printable(t) && !isDouble(Timestamps.Print(t))
    ensures ValTypeOf(isDouble, Timestamps.Print(t)) ==
            if t.date.Some? && t.time.Some? then 'T' else if t.date.Some? then 'D' else 't'
    ensures PrintRaw(isDouble, Timestamps.Print(t)) ==
            Some(Shown(if t.date.None? then "time" else if t.time.None? then "date" else "datetime",
                       Timestamps.Print(t)))
  {
    hide Rtos, Numbers.Rtoi, Timestamps.Rtots, Timestamps.Canonical, Timestamps.Print;
    var s := Timestamps.Print(t);
    Timestamps.PrintIsCanonical(t);
    StampIsNoInt(s);
    Timestamps.PrintRead(t);
    if Rtos(s).Some? { StringsAreQuoted(s); }
  }
}
