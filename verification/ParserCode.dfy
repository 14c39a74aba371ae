/** The parser as code: a pointer that moves over the text, buffers and containers that are filled. */
module ParserCode {
  import opened CText
  import opened Numbers
  import opened Values
  import opened Utf8
  import opened StringCodec
  import opened Printer
  import opened Tables
  import opened Containers
  import opened Parser

  /** The `const char **string` that the parsing functions share. */
  class Cursor {
    const text: Buffer
    var pos: nat

    ghost predicate Valid()
      reads this
    {
      pos < |text|
    }

    constructor (text: Buffer, pos: nat)
      requires pos < |text|
      ensures Valid() && this.text == text && this.pos == pos
    {
      this.text, this.pos := text, pos;
    }

    /** SKIP_WHITESPACES */
    method SkipWhitespace()
      requires Valid()
      modifies this
      ensures Valid() && pos == SkipSpaces(text, old(pos))
    {
      while IsSpace(text[pos])
        invariant Valid() && SkipSpaces(text, pos) == SkipSpaces(text, old(pos))
        decreases |text| - pos
      {
        pos := pos + 1;
      }
    }

    /** skip_quotes */
    method SkipQuotes() returns (ok: bool)
      requires Valid()
      modifies this
      ensures Valid() && pos >= old(pos)
      ensures ok <==> text[old(pos)] == QUOTE && SkipBody(text, old(pos) + 1).Some?
      ensures ok ==> pos == SkipBody(text, old(pos) + 1).value
    {
      if text[pos] != QUOTE {
        return false;
      }
      pos := pos + 1;
      while text[pos] != QUOTE
        invariant Valid() && pos > old(pos) && SkipBody(text, pos) == SkipBody(text, old(pos) + 1)
        decreases |text| - pos
      {
        if text[pos] == 0 {
          return false;
        } else if text[pos] == BACKSLASH {
          pos := pos + 1;
          if text[pos] == 0 {
            return false;
          }
        }
        pos := pos + 1;
      }
      pos := pos + 1;
      return true;
    }
  }

  /** parse_utf16: stores the bytes of the code point, and leaves the input pointer on the last digit. */
  method StoreUtf16(s: Buffer, p: nat, output: array<byte>, o: nat) returns (ok: bool, last: nat, next: nat)
    requires p < |s| && s[p] != 0
    requires ParseUtf16(s, p).Some? ==> o + |StoredBytes(ParseUtf16(s, p).value.cp)| <= output.Length
    requires o <= output.Length
    modifies output
    ensures ok <==> ParseUtf16(s, p).Some?
    ensures ok ==> last + 1 == ParseUtf16(s, p).value.end
    ensures ok ==> next == o + |StoredBytes(ParseUtf16(s, p).value.cp)|
    ensures ok ==> output[..next] == old(output[..o]) + StoredBytes(ParseUtf16(s, p).value.cp)
  {
    last, next := p + 1, o;
    var hex := ParseHex(s, last);
    if hex.None? {
      return false, last, next;
    }
    var cp := hex.value;
    if 0xD800 <= cp <= 0xDBFF {
      var lead := cp;
      last := last + 4;
      if s[last] != BACKSLASH || s[last + 1] != 117 {
        return false, last, next;
      }
      last := last + 2;
      hex := ParseHex(s, last);
      if hex.None? || hex.value < 0xDC00 || hex.value > 0xDFFF {
        return false, last, next;
      }
      JoinSurrogatesInverts(lead, hex.value);
      cp := JoinSurrogates(lead, hex.value);
    } else if 0xDC00 <= cp <= 0xDFFF {
      return false, last, next;
    }
    var bytes := StoredBytes(cp);
    forall i | 0 <= i < |bytes| {
      output[o + i] := bytes[i];
    }
    last, next := last + 3, o + |bytes|;
    assert output[..next] == output[..o] + output[o..next];
    return true, last, next;
  }

  /** process_string, on a string that skip_quotes has delimited. */
  method ProcessString(s: Buffer, input: nat, len: nat) returns (r: Option<Bytes>)
    requires input < |s| && SkipBody(s, input) == Some(input + len + 1)
    ensures r.Some? <==> Process(s, input, input + len).Some?
    ensures r.Some? ==> r.value == Process(s, input, input + len).value.text
  {
    hide ParseUtf16, StoredBytes, Utf8.Encode;
    var output := new byte[len + 1];
    var i, o := input, 0;
    ghost var whole := Process(s, input, input + len);
    ghost var done: Bytes := [];
    PrependNothing([], whole);
    while s[i] != 0 && i - input < len
      invariant input <= i < |s| && SkipBody(s, i) == Some(input + len + 1)
      invariant o == |done| <= i - input && output[..o] == done
      invariant Prepend(done, Process(s, i, input + len)) == whole
      decreases |s| - i
    {
      ghost var round := ProcessRound(s, i);
      ghost var rest := if round.Some? then Process(s, round.value.next, input + len) else None;
      if round.Some? {
        RoundInside(s, i, input + len);
        PrependAppend(done, round.value.stored, rest);
      }
      if s[i] == BACKSLASH {
        i := i + 1;
        if s[i] == 117 {
          var ok, last, next := StoreUtf16(s, i, output, o);
          if !ok {
            return None;
          }
          i, o := last, next;
        } else {
          var c := Unescaped(s[i]);
          if c.None? {
            return None;
          }
          output[o] := c.value;
          o := o + 1;
        }
      } else if s[i] < 0x20 {
        return None;
      } else {
        output[o] := s[i];
        o := o + 1;
      }
      i := i + 1;
      assert i == round.value.next && output[..o] == done + round.value.stored;
      done := done + round.value.stored;
    }
    ScannersStop(s, i, input + len);
    output[o] := 0;
    assert output[..o] == done;
    return Some(output[..o]);
  }

  lemma PrependAppend(a: Bytes, b: Bytes, r: Option<Processed>)
    ensures Prepend(a, Prepend(b, r)) == Prepend(a + b, r)
  {
    if r.Some? {
      AppendAssociates(a, b, r.value.text);
    }
  }

  /** A successful round stays within the delimited string and stores no more than it reads. */
  lemma RoundInside(s: Buffer, i: nat, e: nat)
    requires i < e < |s| && s[i] != 0 && SkipBody(s, i) == Some(e + 1) && ProcessRound(s, i).Some?
    ensures SkipBody(s, ProcessRound(s, i).value.next) == Some(e + 1)
    ensures ProcessRound(s, i).value.next <= e && |ProcessRound(s, i).value.stored| <= ProcessRound(s, i).value.next - i
  {
    hide *;
    RoundKinds(s, i);
    if s[i] == BACKSLASH && s[i + 1] == 117 {
      SkipBodyUtf16(s, i);
    } else if s[i] == BACKSLASH {
      LetterInside(s, i);
    } else {
      ByteInside(s, i, e);
    }
  }

  lemma LetterInside(s: Buffer, i: nat)
    requires i + 1 < |s| && s[i] == BACKSLASH && s[i + 1] != 117 && Unescaped(s[i + 1]).Some?
    ensures i + 2 < |s| && SkipBody(s, i) == SkipBody(s, i + 2)
  {
  }

  lemma ByteInside(s: Buffer, i: nat, e: nat)
    requires i < e < |s| && s[i] != 0 && s[i] != BACKSLASH && SkipBody(s, i) == Some(e + 1)
    ensures SkipBody(s, i) == SkipBody(s, i + 1)
  {
  }

  lemma ScannersStop(s: Buffer, i: nat, e: nat)
    requires i < |s| && SkipBody(s, i) == Some(e + 1) && (s[i] == 0 || i >= e)
    ensures Process(s, i, e) == Some(Processed([], i))
  {
  }

  /** get_quoted_string, read as the C string that its callers see. */
  method GetQuotedString(c: Cursor) returns (r: Option<Bytes>)
    requires c.Valid()
    modifies c
    ensures c.Valid() && c.pos >= old(c.pos) && Agrees(r, c.pos, QuotedString(c.text, old(c.pos)))
  {
    var start := c.pos;
    var ok := c.SkipQuotes();
    if !ok {
      return None;
    }
    var len := c.pos - start - 2;
    r := ProcessString(c.text, start + 1, len);
    if r.Some? {
      r := Some(CString(r.value));
    }
  }

  ghost predicate Agrees<T>(r: Option<T>, pos: nat, spec: Parsed<T>) {
    match spec
    case Fail => r.None?
    case Ok(v, end) => r == Some(v) && pos == end
  }

  /** parse_boolean_value and parse_null_value */
  method ParseLiteral(c: Cursor, t: Bytes, v: Value) returns (r: Option<Value>)
    requires c.Valid() && NulFree(t)
    modifies c
    ensures c.Valid() && c.pos >= old(c.pos) && Agrees(r, c.pos, Literal(c.text, old(c.pos), t, v))
  {
    if Holds(c.text, c.pos, t) {
      LiteralInside(c.text, c.pos, t);
      c.pos := c.pos + |t|;
      return Some(v);
    }
    return None;
  }

  /** parse_number_value */
  method ParseNumber(lib: Lib, c: Cursor) returns (r: Option<Value>)
    requires lib.Valid() && c.Valid()
    modifies c
    ensures c.Valid() && c.pos >= old(c.pos) && Agrees(r, c.pos, NumberValue(lib, c.text, old(c.pos)))
  {
    var scan := lib.strtod(c.text, c.pos);
    if scan.rangeError {
      return None;
    }
    var decimal := IsDecimal(c.text, c.pos, scan.end - c.pos);
    assert c.text[c.pos..c.pos + (scan.end - c.pos)] == c.text[c.pos..scan.end];
    if !decimal {
      return None;
    }
    c.pos := scan.end;
    return Some(Num(scan.value));
  }

  /** parse_value */
  method ParseValue(lib: Lib, c: Cursor, nesting: nat) returns (r: Option<Value>)
    requires lib.Valid() && c.Valid()
    modifies c
    ensures c.Valid() && c.pos >= old(c.pos) && Agrees(r, c.pos, Parser.ParseValue(lib, c.text, old(c.pos), nesting))
    decreases |c.text| - c.pos, 3
  {
    if nesting > MAX_NESTING {
      return None;
    }
    c.SkipWhitespace();
    var b := c.text[c.pos];
    if b == LBRACE {
      r := ParseObject(lib, c, nesting + 1);
    } else if b == LBRACKET {
      r := ParseArray(lib, c, nesting + 1);
    } else if b == QUOTE {
      var t := GetQuotedString(c);
      if t.None? {
        return None;
      }
      return Some(Str(t.value));
    } else if b == 102 || b == 116 {
      if Holds(c.text, c.pos, TRUE_TEXT) {
        r := ParseLiteral(c, TRUE_TEXT, Bool(true));
      } else {
        r := ParseLiteral(c, FALSE_TEXT, Bool(false));
      }
    } else if b == MINUS || IsDigit(b) {
      r := ParseNumber(lib, c);
    } else if b == 110 {
      r := ParseLiteral(c, NULL_TEXT, Null);
    } else {
      r := None;
    }
  }

  /** How one round of a container loop ends: with a failure, after a comma, or by leaving the loop. */
  datatype Round = Failed | Comma | Left

  /** What a loop still has to compute is what it had to compute at first. */
  ghost predicate ItemsLoop(round: Round, lib: Lib, s: Buffer, p: nat, nesting: nat, items: seq<Value>,
                            spec: Parsed<Value>)
    requires p < |s| && lib.Valid()
  {
    match round
    case Failed => spec.Fail?
    case Comma => ParseItems(lib, s, p, nesting, items) == spec
    case Left =>
      && items != [] && !IsSpace(s[p])
      && spec == (if s[p] == RBRACKET then Ok(Arr(items, |items|), p + 1) else Fail)
  }

  ghost predicate MembersLoop(round: Round, lib: Lib, s: Buffer, p: nat, nesting: nat, ms: seq<Member<Value>>,
                              spec: Parsed<Value>)
    requires p < |s| && lib.Valid()
  {
    match round
    case Failed => spec.Fail?
    case Comma => ParseMembers(lib, s, p, nesting, ms) == spec
    case Left =>
      && ms != [] && !IsSpace(s[p])
      && spec == (if s[p] == RBRACE then Ok(Obj(ms, |ms|), p + 1) else Fail)
  }

  /** The pointer has just passed a comma and the blank space after it. */
  ghost predicate AfterComma(s: Buffer, from: nat, pos: nat) {
    exists k: nat :: from <= k && k + 1 < |s| && s[k] == COMMA && pos == SkipSpaces(s, k + 1)
  }

  /** One round of the loop in parse_array_value. */
  method ParseItem(lib: Lib, c: Cursor, nesting: nat, a: JsonArray<Value>) returns (round: Round)
    requires lib.Valid() && c.Valid() && c.text[c.pos] != 0 && a.Valid() && GrownArray(a.capacity)
    modifies c, a, a.items
    ensures c.Valid() && a.Valid() && GrownArray(a.capacity)
    ensures a.items == old(a.items) || fresh(a.items)
    ensures ItemsLoop(round, lib, c.text, c.pos, nesting, a.Items(),
                      old(ParseItems(lib, c.text, c.pos, nesting, a.Items())))
    ensures c.pos >= old(c.pos) && (round.Comma? ==> c.pos > old(c.pos) && AfterComma(c.text, old(c.pos), c.pos))
    decreases |c.text| - c.pos, 4
  {
    hide Parser.ParseValue, ParseItems, SkipSpaces, IsSpace, GrownArray, Lib.Valid;
    ItemsUnfold(lib, c.text, c.pos, nesting, a.Items());
    var v := ParseValue(lib, c, nesting);
    if v.None? {
      return Failed;
    }
    GrowthReachesLimit(a.count, a.capacity);
    var added := a.Add(v.value);
    if !added {
      return Failed;
    }
    c.SkipWhitespace();
    if c.text[c.pos] != COMMA {
      return Left;
    }
    ghost var comma := c.pos;
    c.pos := c.pos + 1;
    c.SkipWhitespace();
    assert c.text[comma] == COMMA && c.pos == SkipSpaces(c.text, comma + 1);
    return Comma;
  }

  /** parse_array_value */
  method ParseArray(lib: Lib, c: Cursor, nesting: nat) returns (r: Option<Value>)
    requires lib.Valid() && c.Valid() && c.text[c.pos] == LBRACKET
    modifies c
    ensures c.Valid() && c.pos >= old(c.pos) && Agrees(r, c.pos, Parser.ParseArray(lib, c.text, old(c.pos), nesting))
    decreases |c.text| - c.pos, 2
  {
    hide Parser.ParseValue, Parser.ParseItems, Lib.Valid;
    var a := new JsonArray<Value>();
    c.pos := c.pos + 1;
    c.SkipWhitespace();
    if c.text[c.pos] == RBRACKET {
      c.pos := c.pos + 1;
      return Some(Arr(a.Items(), a.capacity));
    }
    ghost var spec := ParseItems(lib, c.text, c.pos, nesting, []);
    var round := Comma;
    while c.text[c.pos] != 0 && round == Comma
      invariant c.Valid() && c.pos > old(c.pos) && !round.Failed?
      invariant a.Valid() && GrownArray(a.capacity) && fresh(a) && fresh(a.items)
      invariant ItemsLoop(round, lib, c.text, c.pos, nesting, a.Items(), spec)
      decreases |c.text| - c.pos, round.Comma?
    {
      round := ParseItem(lib, c, nesting, a);
      if round.Failed? {
        return None;
      }
    }
    NothingAtEnd(lib, c.text, c.pos, nesting, a.Items(), []);
    c.SkipWhitespace();
    if c.text[c.pos] != RBRACKET {
      return None;
    }
    var trimmed := a.Resize(a.count);
    if !trimmed {
      return None;
    }
    c.pos := c.pos + 1;
    return Some(Arr(a.Items(), a.capacity));
  }

  /** A container cut short by the end of the text is refused. */
  lemma NothingAtEnd(lib: Lib, s: Buffer, p: nat, nesting: nat, items: seq<Value>, ms: seq<Member<Value>>)
    requires p < |s| && lib.Valid()
    ensures s[p] == 0 ==> SkipSpaces(s, p) == p
    ensures s[p] == 0 ==> ParseItems(lib, s, p, nesting, items).Fail? && ParseMembers(lib, s, p, nesting, ms).Fail?
    ensures !IsSpace(s[p]) ==> SkipSpaces(s, p) == p
  {
  }

  /** A member's name and the colon after it. */
  method ParseName(c: Cursor) returns (r: Option<Bytes>)
    requires c.Valid()
    modifies c
    ensures c.Valid() && c.pos >= old(c.pos)
    ensures Agrees(r, c.pos, NameAndColon(c.text, old(c.pos)))
  {
    r := GetQuotedString(c);
    c.SkipWhitespace();
    if r.None? || c.text[c.pos] != COLON {
      return None;
    }
    c.pos := c.pos + 1;
  }

  /** One round of the loop in parse_object_value. */
  method ParseMember(lib: Lib, c: Cursor, nesting: nat, t: JsonObject<Value>) returns (round: Round)
    requires lib.Valid() && c.Valid() && c.text[c.pos] != 0 && t.Valid() && GrownObject(t.capacity)
    modifies c, t, t.names, t.values
    ensures c.Valid() && t.Valid() && GrownObject(t.capacity)
    ensures (t.names == old(t.names) || fresh(t.names)) && (t.values == old(t.values) || fresh(t.values))
    ensures MembersLoop(round, lib, c.text, c.pos, nesting, t.Members(),
                        old(ParseMembers(lib, c.text, c.pos, nesting, t.Members())))
    ensures c.pos >= old(c.pos) && (round.Comma? ==> c.pos > old(c.pos) && AfterComma(c.text, old(c.pos), c.pos))
    decreases |c.text| - c.pos, 1
  {
    hide Parser.ParseValue, ParseMembers, SkipSpaces, NameAndColon, Names, UniqueNames, Lookup, Lib.Valid;
    MembersUnfold(lib, c.text, c.pos, nesting, t.Members());
    var name := ParseName(c);
    if name.None? {
      return Failed;
    }
    var v := ParseValue(lib, c, nesting);
    if v.None? {
      return Failed;
    }
    GrowthReachesLimit(t.count, t.capacity);
    var added := t.Add(name.value, v.value);
    if !added {
      return Failed;
    }
    c.SkipWhitespace();
    if c.text[c.pos] != COMMA {
      return Left;
    }
    ghost var comma := c.pos;
    c.pos := c.pos + 1;
    c.SkipWhitespace();
    assert c.text[comma] == COMMA && c.pos == SkipSpaces(c.text, comma + 1);
    return Comma;
  }

  /** parse_object_value */
  method ParseObject(lib: Lib, c: Cursor, nesting: nat) returns (r: Option<Value>)
    requires lib.Valid() && c.Valid() && c.text[c.pos] == LBRACE
    modifies c
    ensures c.Valid() && c.pos >= old(c.pos) && Agrees(r, c.pos, Parser.ParseObject(lib, c.text, old(c.pos), nesting))
    decreases |c.text| - c.pos, 2
  {
    hide Parser.ParseValue, Parser.ParseMembers, Lib.Valid;
    var t := new JsonObject<Value>();
    c.pos := c.pos + 1;
    c.SkipWhitespace();
    if c.text[c.pos] == RBRACE {
      c.pos := c.pos + 1;
      return Some(Obj(t.Members(), t.capacity));
    }
    ghost var spec := ParseMembers(lib, c.text, c.pos, nesting, []);
    var round := Comma;
    while c.text[c.pos] != 0 && round == Comma
      invariant c.Valid() && c.pos > old(c.pos) && !round.Failed?
      invariant t.Valid() && GrownObject(t.capacity) && fresh(t) && fresh(t.names) && fresh(t.values)
      invariant MembersLoop(round, lib, c.text, c.pos, nesting, t.Members(), spec)
      decreases |c.text| - c.pos, round.Comma?
    {
      round := ParseMember(lib, c, nesting, t);
      if round.Failed? {
        return None;
      }
    }
    NothingAtEnd(lib, c.text, c.pos, nesting, [], t.Members());
    c.SkipWhitespace();
    if c.text[c.pos] != RBRACE {
      return None;
    }
    var trimmed := t.Resize(t.count);
    if !trimmed {
      return None;
    }
    c.pos := c.pos + 1;
    return Some(Obj(t.Members(), t.capacity));
  }

  /** json_parse_string */
  method ParseString(lib: Lib, s: Buffer) returns (r: Option<Value>)
    requires lib.Valid()
    ensures r == (match ParseText(lib, s) case Fail => None case Ok(v, _) => Some(v))
  {
    var c := new Cursor(s, if s[0] == 0xEF && s[1] == 0xBB && s[2] == 0xBF then 3 else 0);
    r := ParseValue(lib, c, 0);
  }
}
