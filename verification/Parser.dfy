/** The recursive-descent parser as functions on the current token (contrib/tomlc99/toml.c:761-980,
    993-1037, 1114-1276). Besides success and failure there is a third outcome, Hang: the newline-skipping
    loop, which does not look at eof, is entered at the end of the text and never left. */
module Parser {
  import opened Text
  import opened Lexer
  import opened Tree
  import opened Headers
  import opened Syntax
  import opened Strings

  datatype Skip = Skipped(tok: Token) | SkipFail | SkipHang

  /** SKIP_NEWLINES */
  function SkipNewlines(src: string, tok: Token): (r: Skip)
    requires Made(src, tok)
    ensures r.Skipped? ==> Made(src, r.tok) && tok.pos <= r.tok.pos && r.tok.kind != Newline
    decreases |src| - tok.pos
  {
    if tok.kind != Newline then Skipped(tok)
    else if tok.eof then SkipHang
    else
      match Next(src, tok, false)
      case None => SkipFail
      case Some(t) => SkipNewlines(src, t)
  }

  datatype Res = Ok(node: Node, tok: Token) | Fail | Hang

  predicate After(src: string, tok: Token, r: Res) {
    r.Ok? ==> Made(src, r.tok) && tok.pos < r.tok.pos
  }

  /** Eat the closing bracket at tok and return n. */
  function Close(src: string, tok: Token, n: Node): (r: Res)
    requires Made(src, tok) && tok.kind != Str && tok.kind != Newline
    ensures After(src, tok, r)
    ensures r.Ok? ==> r.node == n
  {
    match Next(src, tok, false)
    case None => Fail
    case Some(t) => Ok(n, t)
  }

  predicate CanPush(a: Node, kind: ArrKind)
    requires a.ArrN?
  {
    a.kind == Unset || a.kind == kind
  }

  function Push(a: Node, kind: ArrKind, typ: char, e: Node): Node
    requires a.ArrN?
  {
    ArrN(kind, typ, a.elems + [e])
  }

  // ---- arrays ----

  /** parse_array at '[', filling the array a. */
  function ParseArray(src: string, vt: ValType, tok: Token, a: Node): (r: Res)
    requires Made(src, tok) && a.ArrN?
    ensures After(src, tok, r) && (r.Ok? ==> r.node.ArrN?)
    decreases |src| - tok.pos, 1
  {
    if tok.kind != LBracket then Fail
    else
      match Next(src, tok, false)
      case None => Fail
      case Some(t) => ParseElems(src, vt, t, a)
  }

  /** The loop of parse_array at its head. */
  function ParseElems(src: string, vt: ValType, tok: Token, a: Node): (r: Res)
    requires Made(src, tok) && a.ArrN?
    ensures After(src, tok, r) && (r.Ok? ==> r.node.ArrN?)
    decreases |src| - tok.pos, 2
  {
    match SkipNewlines(src, tok)
    case SkipFail => Fail
    case SkipHang => Hang
    case Skipped(t) =>
      match t.kind
      case RBracket => Close(src, t, a)
      case Str =>
        var raw := TokText(src, t);
        if !CanPush(a, Values) || (a.elems != [] && a.typ != vt(raw)) then Fail
        else
          (match Next(src, t, false)
           case None => Fail
           case Some(u) =>
             ParseElemsTail(src, vt, u, Push(a, Values, if a.elems == [] then vt(raw) else a.typ, Val(raw))))
      case LBracket =>
        if !CanPush(a, Arrays) then Fail
        else
          (match ParseArray(src, vt, t, NEW_ARRAY)
           case Fail => Fail
           case Hang => Hang
           case Ok(e, u) => ParseElemsTail(src, vt, u, Push(a, Arrays, a.typ, e)))
      case LBrace =>
        if !CanPush(a, Tables) then Fail
        else
          (match ParseTable(src, vt, t, NEW_TABLE)
           case Fail => Fail
           case Hang => Hang
           case Ok(e, u) => ParseElemsTail(src, vt, u, Push(a, Tables, a.typ, e)))
      case _ => Fail
  }

  /** The loop of parse_array after an element. */
  function ParseElemsTail(src: string, vt: ValType, tok: Token, a: Node): (r: Res)
    requires Made(src, tok) && a.ArrN?
    ensures After(src, tok, r) && (r.Ok? ==> r.node.ArrN?)
    decreases |src| - tok.pos, 0
  {
    match SkipNewlines(src, tok)
    case SkipFail => Fail
    case SkipHang => Hang
    case Skipped(t) =>
      match t.kind
      case Comma =>
        (match Next(src, t, false)
         case None => Fail
         case Some(u) => ParseElems(src, vt, u, a))
      case RBracket => Close(src, t, a)
      case _ => Fail
  }

  // ---- tables ----

  /** parse_table at '{', filling the table b. */
  function ParseTable(src: string, vt: ValType, tok: Token, b: Node): (r: Res)
    requires Made(src, tok) && b.TabN?
    ensures After(src, tok, r) && (r.Ok? ==> r.node.TabN? && r.node.implicit == b.implicit)
    decreases |src| - tok.pos, 1
  {
    if tok.kind != LBrace then Fail
    else
      match Next(src, tok, false)
      case None => Fail
      case Some(t) => ParseEntries(src, vt, t, b)
  }

  /** The loop of parse_table at its head. */
  function ParseEntries(src: string, vt: ValType, tok: Token, b: Node): (r: Res)
    requires Made(src, tok) && b.TabN?
    ensures After(src, tok, r) && (r.Ok? ==> r.node.TabN? && r.node.implicit == b.implicit)
    decreases |src| - tok.pos, 2
  {
    match SkipNewlines(src, tok)
    case SkipFail => Fail
    case SkipHang => Hang
    case Skipped(t) =>
      match t.kind
      case RBrace => Close(src, t, b)
      case Str =>
        (match ParseKeyval(src, vt, t, b)
         case Fail => Fail
         case Hang => Hang
         case Ok(c, u) => ParseEntriesTail(src, vt, u, c))
      case _ => Fail
  }

  /** The loop of parse_table after a key/value. */
  function ParseEntriesTail(src: string, vt: ValType, tok: Token, b: Node): (r: Res)
    requires Made(src, tok) && b.TabN?
    ensures After(src, tok, r) && (r.Ok? ==> r.node.TabN? && r.node.implicit == b.implicit)
    decreases |src| - tok.pos, 0
  {
    match SkipNewlines(src, tok)
    case SkipFail => Fail
    case SkipHang => Hang
    case Skipped(t) =>
      match t.kind
      case Comma =>
        (match Next(src, t, false)
         case None => Fail
         case Some(u) => ParseEntries(src, vt, u, b))
      case RBrace => Close(src, t, b)
      case _ => Fail
  }

  // ---- one round of the two loops ----

  /** What follows the loop of parse_array: the closing bracket. */
  function EndArray(src: string, tok: Token, a: Node): Res
    requires Made(src, tok)
  {
    if tok.kind == RBracket then Close(src, tok, a) else Fail
  }

  function EndTable(src: string, tok: Token, b: Node): Res
    requires Made(src, tok)
  {
    if tok.kind == RBrace then Close(src, tok, b) else Fail
  }

  lemma ElemsRound(src: string, vt: ValType, tok: Token, a: Node)
    requires Made(src, tok) && a.ArrN?
    ensures match SkipNewlines(src, tok)
            case SkipFail => ParseElems(src, vt, tok, a) == Fail
            case SkipHang => ParseElems(src, vt, tok, a) == Hang
            case Skipped(t) =>
              && ParseElems(src, vt, tok, a) == ParseElems(src, vt, t, a)
              && (t.kind == RBracket ==> ParseElems(src, vt, t, a) == Close(src, t, a))
  {
  }

  lemma ElemsTailRound(src: string, vt: ValType, tok: Token, a: Node)
    requires Made(src, tok) && a.ArrN?
    ensures match SkipNewlines(src, tok)
            case SkipFail => ParseElemsTail(src, vt, tok, a) == Fail
            case SkipHang => ParseElemsTail(src, vt, tok, a) == Hang
            case Skipped(t) =>
              match t.kind
              case Comma => ParseElemsTail(src, vt, tok, a) ==
                            (match Next(src, t, false) case None => Fail case Some(u) => ParseElems(src, vt, u, a))
              case RBracket => ParseElemsTail(src, vt, tok, a) == Close(src, t, a)
              case _ => ParseElemsTail(src, vt, tok, a) == Fail
  {
  }

  lemma EntriesRound(src: string, vt: ValType, tok: Token, b: Node)
    requires Made(src, tok) && b.TabN?
    ensures match SkipNewlines(src, tok)
            case SkipFail => ParseEntries(src, vt, tok, b) == Fail
            case SkipHang => ParseEntries(src, vt, tok, b) == Hang
            case Skipped(t) =>
              match t.kind
              case RBrace => ParseEntries(src, vt, tok, b) == Close(src, t, b)
              case Str => ParseEntries(src, vt, tok, b) ==
                          (match ParseKeyval(src, vt, t, b)
                           case Fail => Fail
                           case Hang => Hang
                           case Ok(c, u) => ParseEntriesTail(src, vt, u, c))
              case _ => ParseEntries(src, vt, tok, b) == Fail
  {
  }

  lemma EntriesTailRound(src: string, vt: ValType, tok: Token, b: Node)
    requires Made(src, tok) && b.TabN?
    ensures match SkipNewlines(src, tok)
            case SkipFail => ParseEntriesTail(src, vt, tok, b) == Fail
            case SkipHang => ParseEntriesTail(src, vt, tok, b) == Hang
            case Skipped(t) =>
              match t.kind
              case Comma => ParseEntriesTail(src, vt, tok, b) ==
                            (match Next(src, t, false) case None => Fail case Some(u) => ParseEntries(src, vt, u, b))
              case RBrace => ParseEntriesTail(src, vt, tok, b) == Close(src, t, b)
              case _ => ParseEntriesTail(src, vt, tok, b) == Fail
  {
  }

  // ---- key/values ----

  /** The token after the key and the equal sign; None for a lexical or syntax error. */
  function ValueTok(src: string, tok: Token): (r: Option<Token>)
    requires Made(src, tok)
    ensures r.Some? ==> Made(src, r.value) && tok.pos < r.value.pos
  {
    if tok.kind != Str then None
    else
      match Next(src, tok, false)
      case None => None
      case Some(t) => if t.kind != Equal then None else Next(src, t, false)
  }

  /** parse_keyval at a key: the table b with the entry added. */
  function ParseKeyval(src: string, vt: ValType, tok: Token, b: Node): (r: Res)
    requires Made(src, tok) && b.TabN?
    ensures After(src, tok, r) && (r.Ok? ==> r.node.TabN? && r.node.implicit == b.implicit)
    decreases |src| - tok.pos, 1
  {
    match ValueTok(src, tok)
    case None => Fail
    case Some(v) =>
      match NormalizeKey(TokText(src, tok))
      case None => Fail
      case Some(k) =>
        var was := Child(b, K(k));
        match v.kind
        case Str =>
          if was.Some? then Fail
          else
            (match Next(src, v, false)
             case None => Fail
             case Some(u) => Ok(SetKid(b, k, Val(TokText(src, v))), u))
        case LBracket =>
          if was.Some? then Fail
          else
            (match ParseArray(src, vt, v, NEW_ARRAY)
             case Fail => Fail
             case Hang => Hang
             case Ok(a, u) => Ok(SetKid(b, k, a), u))
        case LBrace =>
          (match OpenedTable(was)
           case None => Fail
           case Some(t) =>
             match ParseTable(src, vt, v, t)
             case Fail => Fail
             case Hang => Hang
             case Ok(c, u) => Ok(SetKid(b, k, c), u))
        case _ => Fail
  }

  // ---- headers ----

  datatype PathRes = Path(keys: seq<string>, tok: Token) | NoPath

  /** fill_tabpath from its round n on: the keys that are still to come, normalised. */
  function FillPath(src: string, tok: Token, n: nat): (r: PathRes)
    requires Made(src, tok)
    ensures r.Path? ==> Made(src, r.tok) && tok.pos <= r.tok.pos && r.tok.kind == RBracket
    ensures r.Path? ==> r.keys != [] && n + |r.keys| <= MAX_DEPTH
    decreases MAX_DEPTH - n
  {
    if n >= MAX_DEPTH || tok.kind != Str then NoPath
    else
      match NormalizeKey(TokText(src, tok))
      case None => NoPath
      case Some(k) =>
        match Next(src, tok, true)
        case None => NoPath
        case Some(t) =>
          if t.kind == RBracket then Path([k], t)
          else if t.kind != Dot then NoPath
          else
            match Next(src, t, true)
            case None => NoPath
            case Some(u) =>
              match FillPath(src, u, n + 1)
              case NoPath => NoPath
              case Path(keys, v) => Path([k] + keys, v)
  }

  /** The whole path, when keys have been read and tok is current. */
  function PathFrom(src: string, tok: Token, keys: seq<string>): PathRes
    requires Made(src, tok)
  {
    var r := FillPath(src, tok, |keys|);
    if r.NoPath? then NoPath else Path(keys + r.keys, r.tok)
  }

  /** One round of fill_tabpath. */
  lemma PathRound(src: string, tok: Token, keys: seq<string>)
    requires Made(src, tok)
    ensures var k := if |keys| >= MAX_DEPTH || tok.kind != Str then None else NormalizeKey(TokText(src, tok));
            PathFrom(src, tok, keys) == if k.None? then NoPath
                else PathAfterKey(src, Next(src, tok, true), keys + [k.value])
  {
    hide Next, NormalizeKey;
    if |keys| < MAX_DEPTH && tok.kind == Str && NormalizeKey(TokText(src, tok)).Some? &&
        FillPath(src, tok, |keys|).Path? {
      var k := NormalizeKey(TokText(src, tok)).value;
      var rest := FillPath(src, tok, |keys|).keys;
      assert rest[0] == k && keys + rest == (keys + [k]) + rest[1..];
    }
  }

  /** The same after a key, at the token that follows it. */
  function PathAfterKey(src: string, next: Option<Token>, keys: seq<string>): PathRes
    requires next.Some? ==> Made(src, next.value)
  {
    match next
    case None => NoPath
    case Some(t) =>
      if t.kind == RBracket then Path(keys, t)
      else if t.kind != Dot then NoPath
      else match Next(src, t, true) case None => NoPath case Some(u) => PathFrom(src, u, keys)
  }

  datatype SelRes = Selected(sel: Sel, tok: Token) | NotSelected

  /** The closing brackets of a header and the newline that must follow. */
  function CloseHeader(src: string, tok: Token, double: bool): (r: Option<Token>)
    requires Made(src, tok)
    ensures r.Some? ==> Made(src, r.value) && tok.pos < r.value.pos && r.value.kind == Newline
  {
    if tok.kind != RBracket then None
    else
      match Next(src, tok, false)
      case None => None
      case Some(t) =>
        var u := if !double then Some(t) else if t.kind == RBracket then Next(src, t, false) else None;
        if u.Some? && u.value.kind == Newline then u else None
  }

  /** The opening brackets of a header: whether there are two, and the token after them. */
  function OpenHeader(src: string, tok: Token): (r: Option<(bool, Token)>)
    requires Made(src, tok)
    ensures r.Some? ==> Made(src, r.value.1) && tok.pos < r.value.1.pos
  {
    if tok.kind != LBracket then None
    else
      match Next(src, tok, true)
      case None => None
      case Some(t) =>
        if t.kind != LBracket then Some((false, t))
        else match Next(src, t, true) case None => None case Some(u) => Some((true, u))
  }

  /** The rest of a header: the path, what it selects, and the closing brackets. */
  function SelectFrom(src: string, tok: Token, double: bool, root: Node): (r: SelRes)
    requires Made(src, tok) && root.TabN?
    ensures r.Selected? ==> Made(src, r.tok) && tok.pos < r.tok.pos && r.tok.kind == Newline
    ensures r.Selected? ==> r.sel.Valid() && r.sel.root.TabN?
  {
    match FillPath(src, tok, 0)
    case NoPath => NotSelected
    case Path(keys, v) =>
      match Select(root, double, keys)
      case None => NotSelected
      case Some(s) =>
        SelectValid(root, double, keys);
        SelectRoot(root, double, keys);
        match CloseHeader(src, v, double)
        case None => NotSelected
        case Some(w) => Selected(s, w)
  }

  /** parse_select at '[': the new tree and current table; the token is the newline after the header. */
  function ParseSelect(src: string, tok: Token, root: Node): (r: SelRes)
    requires Made(src, tok) && root.TabN?
    ensures r.Selected? ==> Made(src, r.tok) && tok.pos < r.tok.pos && r.tok.kind == Newline
    ensures r.Selected? ==> r.sel.Valid() && r.sel.root.TabN?
  {
    match OpenHeader(src, tok)
    case None => NotSelected
    case Some((double, u)) => SelectFrom(src, u, double, root)
  }

  // ---- the document ----

  datatype DocRes = Done(root: Node) | Refused | Stuck

  /** The statement at tok, with the newline that ends it: the state it leads to and the next token. */
  datatype LineRes = Line(sel: Sel, tok: Token) | LineFail | LineHang

  function ParseLine(src: string, vt: ValType, tok: Token, d: Sel): (r: LineRes)
    requires Made(src, tok) && d.Valid() && d.root.TabN?
    ensures r.Line? ==> Made(src, r.tok) && r.sel.Valid() && r.sel.root.TabN?
    ensures r.Line? && !tok.eof ==> tok.pos < r.tok.pos
  {
    match tok.kind
    case Newline =>
      (match Next(src, tok, true)
       case None => LineFail
       case Some(t) => Line(d, t))
    case Str =>
      (match ParseKeyval(src, vt, tok, d.Table())
       case Fail => LineFail
       case Hang => LineHang
       case Ok(t, u) =>
         if u.kind != Newline then LineFail
         else
           match Next(src, u, false)
           case None => LineFail
           case Some(v) => GetPut(d.root, d.at, t); Line(Sel(Put(d.root, d.at, t), d.at), v))
    case LBracket =>
      (match ParseSelect(src, tok, d.root)
       case NotSelected => LineFail
       case Selected(s, t) => Line(s, t))
    case _ => LineFail
  }

  /** The loop of toml_parse. */
  function ParseLines(src: string, vt: ValType, tok: Token, d: Sel): (r: DocRes)
    requires Made(src, tok) && d.Valid() && d.root.TabN?
    ensures r.Done? ==> r.root.TabN?
    decreases |src| - tok.pos
  {
    if tok.eof then Done(d.root)
    else
      match ParseLine(src, vt, tok, d)
      case LineFail => Refused
      case LineHang => Stuck
      case Line(e, t) => ParseLines(src, vt, t, e)
  }

  /** toml_parse. */
  function ParseDoc(src: string, vt: ValType): (r: DocRes)
    ensures r.Done? ==> r.root.TabN?
  {
    match Next(src, START, true)
    case None => Refused
    case Some(t) => ParseLines(src, vt, t, START_SEL)
  }
}
