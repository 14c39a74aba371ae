/** The recursive-descent parser: what it accepts, and the pointer-moving code that does it. */
module Parser {
  import opened CText
  import opened Numbers
  import opened Values
  import opened StringCodec
  import opened Printer
  import opened Tables
  import opened Containers

  datatype Parsed<+T> = Fail | Ok(value: T, end: nat)

  // ---- What the parser computes ----

  /** get_quoted_string: the stored C string, and the position after the closing quote. */
  function QuotedString(s: Buffer, p: nat): (r: Parsed<Bytes>)
    requires p < |s|
    ensures r.Ok? ==> p < r.end < |s|
  {
    if s[p] != QUOTE then Fail
    else
      match SkipBody(s, p + 1)
      case None => Fail
      case Some(end) =>
        match Process(s, p + 1, end - 1)
        case None => Fail
        case Some(processed) => Ok(CString(processed.text), end)
  }

  /** parse_boolean_value, parse_null_value */
  function Literal(s: Buffer, p: nat, t: Bytes, v: Value): (r: Parsed<Value>)
    requires p < |s| && NulFree(t)
    ensures r.Ok? ==> r.end == p + |t| < |s|
  {
    if Holds(s, p, t) then
      LiteralInside(s, p, t);
      Ok(v, p + |t|)
    else Fail
  }

  lemma LiteralInside(s: Buffer, p: nat, t: Bytes)
    requires Holds(s, p, t) && NulFree(t) && p < |s|
    ensures p + |t| < |s|
  {
  }

  /** parse_number_value */
  function NumberValue(lib: Lib, s: Buffer, p: nat): (r: Parsed<Value>)
    requires p < |s| && lib.Valid()
    ensures r.Ok? ==> p <= r.end < |s|
  {
    var scan := lib.strtod(s, p);
    if scan.rangeError || !DecimalForm(s[p..scan.end]) then Fail else Ok(Num(scan.value), scan.end)
  }

  /** SKIP_CHAR, which is not applied to the terminator. */
  function AfterByte(s: Buffer, p: nat): (q: nat)
    requires p < |s|
    ensures s[p] != 0 ==> q == p + 1 < |s|
    ensures q < |s|
  {
    if s[p] == 0 then p else p + 1
  }

  /** parse_value */
  function ParseValue(lib: Lib, s: Buffer, p: nat, nesting: nat): (r: Parsed<Value>)
    requires p < |s| && lib.Valid()
    ensures r.Ok? ==> p <= r.end < |s|
    decreases |s| - p, 3
  {
    if nesting > MAX_NESTING then Fail
    else
      var q := SkipSpaces(s, p);
      if s[q] == LBRACE then ParseObject(lib, s, q, nesting + 1)
      else if s[q] == LBRACKET then ParseArray(lib, s, q, nesting + 1)
      else if s[q] == QUOTE then
        match QuotedString(s, q)
        case Fail => Fail
        case Ok(t, end) => Ok(Str(t), end)
      else if s[q] == 102 || s[q] == 116 then
        if Holds(s, q, TRUE_TEXT) then Literal(s, q, TRUE_TEXT, Bool(true)) else Literal(s, q, FALSE_TEXT, Bool(false))
      else if s[q] == MINUS || IsDigit(s[q]) then NumberValue(lib, s, q)
      else if s[q] == 110 then Literal(s, q, NULL_TEXT, Null)
      else Fail
  }

  /** parse_array_value, at the '[' */
  function ParseArray(lib: Lib, s: Buffer, p: nat, nesting: nat): (r: Parsed<Value>)
    requires p < |s| && s[p] == LBRACKET && lib.Valid()
    ensures r.Ok? ==> p + 1 < r.end < |s|
    decreases |s| - p, 2
  {
    var q := SkipSpaces(s, p + 1);
    if s[q] == RBRACKET then Ok(Arr([], 0), q + 1)
    else ParseItems(lib, s, q, nesting, [])
  }

  /** The loop of parse_array_value, after the items `done`. */
  function ParseItems(lib: Lib, s: Buffer, p: nat, nesting: nat, done: seq<Value>): (r: Parsed<Value>)
    requires p < |s| && lib.Valid()
    ensures r.Ok? ==> p < r.end < |s|
    decreases |s| - p, 4
  {
    if s[p] == 0 then Fail
    else
      match ParseValue(lib, s, p, nesting)
      case Fail => Fail
      case Ok(v, end) =>
        if |done| >= ARRAY_MAX_CAPACITY then Fail
        else
          var q := SkipSpaces(s, end);
          var after := AfterByte(s, q);
          if s[q] == COMMA then ParseItems(lib, s, SkipSpaces(s, after), nesting, done + [v])
          else if s[q] == RBRACKET then Ok(Arr(done + [v], |done| + 1), after)
          else Fail
  }

  /** parse_object_value, at the '{' */
  function ParseObject(lib: Lib, s: Buffer, p: nat, nesting: nat): (r: Parsed<Value>)
    requires p < |s| && s[p] == LBRACE && lib.Valid()
    ensures r.Ok? ==> p + 1 < r.end < |s|
    decreases |s| - p, 2
  {
    var q := SkipSpaces(s, p + 1);
    if s[q] == RBRACE then Ok(Obj([], 0), q + 1)
    else ParseMembers(lib, s, q, nesting, [])
  }

  /** A member's name, and the position after the colon that must follow it. */
  function NameAndColon(s: Buffer, p: nat): (r: Parsed<Bytes>)
    requires p < |s|
    ensures r.Ok? ==> p < r.end < |s|
  {
    match QuotedString(s, p)
    case Fail => Fail
    case Ok(name, end) =>
      var colon := SkipSpaces(s, end);
      if s[colon] == COLON then Ok(name, colon + 1) else Fail
  }

  /** One member: name, colon and value. */
  function ParseMember(lib: Lib, s: Buffer, p: nat, nesting: nat): (r: Parsed<Member<Value>>)
    requires p < |s| && lib.Valid()
    ensures r.Ok? ==> p < r.end < |s|
    decreases |s| - p, 0
  {
    match NameAndColon(s, p)
    case Fail => Fail
    case Ok(name, afterColon) =>
      match ParseValue(lib, s, afterColon, nesting)
      case Fail => Fail
      case Ok(v, end) => Ok(Member(name, v), end)
  }

  /** The loop of parse_object_value, after the members `done`. */
  function ParseMembers(lib: Lib, s: Buffer, p: nat, nesting: nat, done: seq<Member<Value>>): (r: Parsed<Value>)
    requires p < |s| && lib.Valid()
    ensures r.Ok? ==> p < r.end < |s|
    decreases |s| - p, 1
  {
    if s[p] == 0 then Fail
    else
      match ParseMember(lib, s, p, nesting)
      case Fail => Fail
      case Ok(m, end) =>
        if m.name in Names(done) || |done| >= OBJECT_MAX_CAPACITY then Fail
        else
          var q := SkipSpaces(s, end);
          var after := AfterByte(s, q);
          if s[q] == COMMA then ParseMembers(lib, s, SkipSpaces(s, after), nesting, done + [m])
          else if s[q] == RBRACE then Ok(Obj(done + [m], |done| + 1), after)
          else Fail
  }

  /** One round of the array loop. */
  lemma ItemsUnfold(lib: Lib, s: Buffer, p: nat, nesting: nat, done: seq<Value>)
    requires p < |s| && lib.Valid()
    ensures var r, v := ParseItems(lib, s, p, nesting, done), ParseValue(lib, s, p, nesting);
      if s[p] == 0 || v.Fail? || |done| >= ARRAY_MAX_CAPACITY then r.Fail?
      else
        var q, more := SkipSpaces(s, v.end), done + [v.value];
        if s[q] == COMMA then q + 1 < |s| && r == ParseItems(lib, s, SkipSpaces(s, q + 1), nesting, more)
        else if s[q] == RBRACKET then q + 1 < |s| && r == Ok(Arr(more, |more|), q + 1)
        else r.Fail?
  {
    hide ParseValue, SkipSpaces, Lib.Valid;
  }

  /** One round of the object loop. */
  lemma MembersUnfold(lib: Lib, s: Buffer, p: nat, nesting: nat, done: seq<Member<Value>>)
    requires p < |s| && lib.Valid()
    ensures var r, name := ParseMembers(lib, s, p, nesting, done), NameAndColon(s, p);
      if s[p] == 0 || name.Fail? then r.Fail?
      else
        var v := ParseValue(lib, s, name.end, nesting);
        if v.Fail? || name.value in Names(done) || |done| >= OBJECT_MAX_CAPACITY then r.Fail?
        else
          var q, more := SkipSpaces(s, v.end), done + [Member(name.value, v.value)];
          if s[q] == COMMA then q + 1 < |s| && r == ParseMembers(lib, s, SkipSpaces(s, q + 1), nesting, more)
          else if s[q] == RBRACE then q + 1 < |s| && r == Ok(Obj(more, |more|), q + 1)
          else r.Fail?
  {
    hide ParseValue, SkipSpaces, NameAndColon, Names, Lib.Valid;
  }

  /** json_parse_string: a byte-order mark is skipped. */
  function ParseText(lib: Lib, s: Buffer): Parsed<Value>
    requires lib.Valid()
  {
    if s[0] == 0xEF && s[1] == 0xBB && s[2] == 0xBF then ParseValue(lib, s, 3, 0) else ParseValue(lib, s, 0, 0)
  }
}
