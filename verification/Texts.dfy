/** What the public entry points promise about whole texts. */
module Texts {
  import opened CText
  import opened Numbers
  import opened Values
  import opened StringCodec
  import opened Utf8
  import opened Printer
  import opened Parser
  import opened Tokens
  import opened RoundTrip

  // ---- Everything printed is a C string ----

  lemma NulFreeAppend(a: Bytes, b: Bytes)
    requires NulFree(a) && NulFree(b)
    ensures NulFree(a + b)
  {
  }

  lemma {:induction false} EscapeNulFree(t: Bytes)
    requires NulFree(t)
    ensures NulFree(Quoted(t))
  {
    if t == [] {
    } else {
      EscapeNulFree(t[1..]);
      assert Quoted(t[1..])[1..|Escape(t[1..])| + 1] == Escape(t[1..]);
      NulFreeAppend(EscapeByte(t[0]), Escape(t[1..]));
    }
  }

  lemma LayoutNulFree(level: nat, last: bool, pretty: bool)
    ensures NulFree(IfPretty(pretty, Indent(level))) && NulFree(AfterElement(last, pretty))
  {
  }

  lemma {:induction false} PrintNulFree(lib: Lib, v: Value, level: nat, pretty: bool)
    requires lib.Valid() && WellFormed(v)
    ensures NulFree(Print(lib, v, level, pretty))
    decreases v, 1
  {
    hide Escape, PrintItems, PrintMembers, Decimal;
    match v
    case Str(t) => EscapeNulFree(t);
    case Arr(items, _) => ItemsNulFree(lib, items, level, pretty);
    case Obj(ms, _) => MembersNulFree(lib, ms, level, pretty);
    case _ =>
  }

  lemma {:induction false} ItemsNulFree(lib: Lib, items: seq<Value>, level: nat, pretty: bool)
    requires lib.Valid() && forall i :: 0 <= i < |items| ==> WellFormed(items[i])
    ensures NulFree(PrintItems(lib, items, level, pretty))
    decreases items, 0
  {
    hide Print, Indent, AfterElement, WellFormed;
    LayoutNulFree(level, |items| == 1, pretty);
    if items == [] {
    } else {
      LayoutNulFree(level + 1, |items| == 1, pretty);
      PrintNulFree(lib, items[0], level + 1, pretty);
      ItemsNulFree(lib, items[1..], level, pretty);
    }
  }

  lemma {:induction false} MembersNulFree(lib: Lib, ms: seq<Member<Value>>, level: nat, pretty: bool)
    requires lib.Valid() && forall i :: 0 <= i < |ms| ==> NulFree(ms[i].name) && WellFormed(ms[i].value)
    ensures NulFree(PrintMembers(lib, ms, level, pretty))
    decreases ms, 0
  {
    hide PrintMember, Indent, WellFormed;
    LayoutNulFree(level, |ms| == 1, pretty);
    if ms == [] {
    } else {
      PrintNulFree(lib, ms[0].value, level + 1, pretty);
      MemberNulFree(lib, ms[0], |ms| == 1, level, pretty);
      MembersNulFree(lib, ms[1..], level, pretty);
    }
  }

  lemma MemberNulFree(lib: Lib, m: Member<Value>, last: bool, level: nat, pretty: bool)
    requires NulFree(m.name) && NulFree(Print(lib, m.value, level + 1, pretty))
    ensures NulFree(PrintMember(lib, m, last, level, pretty))
  {
    hide Print, Indent, AfterElement, Quoted;
    LayoutNulFree(level + 1, last, pretty);
    EscapeNulFree(m.name);
  }

  /** A text with its terminator. */
  function AsBuffer(t: Bytes): Buffer
    requires NulFree(t)
  {
    t + [0]
  }

  // ---- Round trips of whole texts ----

  lemma FirstTokenByte(lib: Lib, v: Value)
    requires lib.Valid()
    ensures TokensOf(lib, v)[0] != [] && TokensOf(lib, v)[0][0] < 0x80
  {
  }

  /** Whatever the blank space between its tokens, a text is parsed to the value that has these tokens, exactly when the
      value is at most 2048 containers deep. */
  lemma SpacedTextRoundTrip(lib: Lib, s: Buffer, v: Value, e: nat)
    requires lib.Valid() && WellFormed(v)
    requires ReadTokens(s, 0, TokensOf(lib, v)) == Some(e) && e < |s| && EndsValue(s[e])
    ensures ParseText(lib, s) == if Height(v) <= MAX_NESTING then Ok(Reread(lib, v), e) else Fail
    ensures ParseText(lib, s) == ParseValue(lib, s, 0, 0)
  {
    hide Lib.Valid, ParseValue, Fits, Height, Reread, WellFormed, EndsValue, TokensOf;
    var t := TokensOf(lib, v);
    FirstTokenByte(lib, v);
    assert t == [t[0]] + t[1..];
    ReadFirst(s, 0, t[0], t[1..]);
    HoldsAt(s, SkipSpaces(s, 0), t[0], 0);
    FitsByHeight(v, 0);
    TokensRoundTrip(lib, s, 0, v, e, 0);
  }

  /** Serializing at any level, in either layout, and parsing gives the value back, exactly when it is at most 2048
      containers deep; deeper values are printed but cannot be parsed. */
  lemma TextRoundTrip(lib: Lib, v: Value, level: nat, pretty: bool)
    requires lib.Valid() && WellFormed(v)
    ensures NulFree(Print(lib, v, level, pretty))
    ensures var t := Print(lib, v, level, pretty);
      ParseText(lib, AsBuffer(t)) == ParseValue(lib, AsBuffer(t), 0, 0)
      == if Height(v) <= MAX_NESTING then Ok(Reread(lib, v), |t|) else Fail
  {
    hide Print, Lib.Valid, ParseValue, ParseText, Height, Reread, WellFormed, ReadTokens, TokensOf;
    var t := Print(lib, v, level, pretty);
    PrintNulFree(lib, v, level, pretty);
    assert AsBuffer(t)[0..|t|] == t;
    PrintReads(lib, AsBuffer(t), 0, v, level, pretty);
    SpacedTextRoundTrip(lib, AsBuffer(t), v, |t|);
  }

  /** On integer trees the value comes back unchanged, spare capacity apart. */
  lemma IntegerTextRoundTrip(lib: Lib, v: Value, level: nat, pretty: bool)
    requires lib.Valid() && WellFormed(v) && IntegerTree(v) && Height(v) <= MAX_NESTING
    ensures NulFree(Print(lib, v, level, pretty))
    ensures ParseText(lib, AsBuffer(Print(lib, v, level, pretty))) == Ok(Trimmed(v), |Print(lib, v, level, pretty)|)
  {
    TextRoundTrip(lib, v, level, pretty);
    RereadIntegers(lib, v);
  }

  predicate SameOutcome(a: Parsed<Value>, b: Parsed<Value>) {
    match (a, b)
    case (Fail, Fail) => true
    case (Ok(v, _), Ok(w, _)) => v == w
    case _ => false
  }

  /** The layout and the starting level do not matter to the parser. */
  lemma LayoutIndependence(lib: Lib, v: Value, level: nat, pretty: bool, level': nat, pretty': bool)
    requires lib.Valid() && WellFormed(v)
    ensures NulFree(Print(lib, v, level, pretty)) && NulFree(Print(lib, v, level', pretty'))
    ensures SameOutcome(ParseText(lib, AsBuffer(Print(lib, v, level, pretty))),
                        ParseText(lib, AsBuffer(Print(lib, v, level', pretty'))))
  {
    TextRoundTrip(lib, v, level, pretty);
    TextRoundTrip(lib, v, level', pretty');
  }

  /** Neither does any other blank space between the tokens. */
  lemma SpacingIndependence(lib: Lib, s: Buffer, e: nat, s': Buffer, e': nat, v: Value)
    requires lib.Valid() && WellFormed(v) && e < |s| && EndsValue(s[e]) && e' < |s'| && EndsValue(s'[e'])
    requires ReadTokens(s, 0, TokensOf(lib, v)) == Some(e) && ReadTokens(s', 0, TokensOf(lib, v)) == Some(e')
    ensures SameOutcome(ParseText(lib, s), ParseText(lib, s'))
  {
    SpacedTextRoundTrip(lib, s, v, e);
    SpacedTextRoundTrip(lib, s', v, e');
  }

  // ---- What a successful parse yields ----

  /** Whatever the input, a parsed value is well formed, trimmed, and within the nesting and count limits. */
  lemma {:induction false} ParsedIsSound(lib: Lib, s: Buffer, p: nat, nesting: nat)
    requires lib.Valid() && p < |s|
    ensures var r := ParseValue(lib, s, p, nesting); r.Ok? ==> Sound(r.value, nesting)
    decreases |s| - p, 3
  {
    hide ParseItems, ParseMembers, Sound, QuotedString, NumberValue, Lib.Valid;
    var q := SkipSpaces(s, p);
    ScalarIsSound(lib, s, q, nesting);
    if nesting <= MAX_NESTING {
      if s[q] == LBRACE {
        NothingIsSound(nesting);
        ObjectIsSound(lib, s, SkipSpaces(s, q + 1), nesting + 1, []);
      } else if s[q] == LBRACKET {
        NothingIsSound(nesting);
        ArrayIsSound(lib, s, SkipSpaces(s, q + 1), nesting + 1, []);
      }
    }
  }

  ghost predicate Sound(v: Value, nesting: nat) {
    WellFormed(v) && Fits(v, nesting) && Trimmed(v) == v
  }

  lemma NothingIsSound(nesting: nat)
    requires nesting <= MAX_NESTING
    ensures Sound(Arr([], 0), nesting) && Sound(Obj([], 0), nesting)
    ensures SoundItems([], nesting) && SoundMembers([], nesting)
  {
  }

  lemma ScalarIsSound(lib: Lib, s: Buffer, q: nat, nesting: nat)
    requires lib.Valid() && q < |s|
    ensures nesting <= MAX_NESTING ==> Sound(Null, nesting) && Sound(Bool(true), nesting) && Sound(Bool(false), nesting)
    ensures nesting <= MAX_NESTING ==> var r := NumberValue(lib, s, q); r.Ok? ==> Sound(r.value, nesting)
    ensures nesting <= MAX_NESTING ==> var r := QuotedString(s, q); r.Ok? ==> Sound(Str(r.value), nesting)
  {
  }

  ghost predicate SoundItems(items: seq<Value>, nesting: nat) {
    forall i :: 0 <= i < |items| ==> Sound(items[i], nesting)
  }

  ghost predicate SoundMembers(ms: seq<Member<Value>>, nesting: nat) {
    UniqueNames(ms) && forall i :: 0 <= i < |ms| ==> NulFree(ms[i].name) && Sound(ms[i].value, nesting)
  }

  lemma SoundArray(items: seq<Value>, nesting: nat)
    requires nesting < MAX_NESTING + 1 && SoundItems(items, nesting + 1) && |items| <= ARRAY_MAX_CAPACITY
    ensures Sound(Arr(items, |items|), nesting)
  {
  }

  lemma SoundObject(ms: seq<Member<Value>>, nesting: nat)
    requires nesting < MAX_NESTING + 1 && SoundMembers(ms, nesting + 1) && |ms| <= OBJECT_MAX_CAPACITY
    ensures Sound(Obj(ms, |ms|), nesting)
  {
  }

  lemma SoundItemsMore(done: seq<Value>, v: Value, nesting: nat)
    requires SoundItems(done, nesting) && Sound(v, nesting)
    ensures SoundItems(done + [v], nesting)
  {
  }

  lemma {:induction false} ArrayIsSound(lib: Lib, s: Buffer, p: nat, nesting: nat, done: seq<Value>)
    requires lib.Valid() && p < |s| && 0 < nesting <= MAX_NESTING + 1 && SoundItems(done, nesting)
    ensures var r := ParseItems(lib, s, p, nesting, done); r.Ok? ==> Sound(r.value, nesting - 1)
    decreases |s| - p, 4
  {
    hide *;
    ItemsUnfold(lib, s, p, nesting, done);
    if ParseItems(lib, s, p, nesting, done).Ok? {
      ParsedIsSound(lib, s, p, nesting);
      var v := ParseValue(lib, s, p, nesting);
      var q := SkipSpaces(s, v.end);
      SoundItemsMore(done, v.value, nesting);
      SoundArray(done + [v.value], nesting - 1);
      if s[q] == COMMA {
        ArrayIsSound(lib, s, SkipSpaces(s, q + 1), nesting, done + [v.value]);
      }
    }
  }

  lemma {:induction false} ObjectIsSound(lib: Lib, s: Buffer, p: nat, nesting: nat, done: seq<Member<Value>>)
    requires lib.Valid() && p < |s| && 0 < nesting <= MAX_NESTING + 1 && SoundMembers(done, nesting)
    ensures var r := ParseMembers(lib, s, p, nesting, done); r.Ok? ==> Sound(r.value, nesting - 1)
    decreases |s| - p, 1
  {
    hide *;
    MembersUnfold(lib, s, p, nesting, done);
    if ParseMembers(lib, s, p, nesting, done).Ok? {
      var name := NameAndColon(s, p);
      NameIsCString(s, p);
      ParsedIsSound(lib, s, name.end, nesting);
      var v := ParseValue(lib, s, name.end, nesting);
      var q := SkipSpaces(s, v.end);
      SoundMembersMore(done, name.value, v.value, nesting);
      SoundObject(done + [Member(name.value, v.value)], nesting - 1);
      if s[q] == COMMA {
        ObjectIsSound(lib, s, SkipSpaces(s, q + 1), nesting, done + [Member(name.value, v.value)]);
      }
    }
  }

  lemma NameIsCString(s: Buffer, p: nat)
    requires p < |s| && NameAndColon(s, p).Ok?
    ensures NulFree(NameAndColon(s, p).value)
  {
  }

  lemma SoundMembersMore(done: seq<Member<Value>>, name: Bytes, v: Value, nesting: nat)
    requires SoundMembers(done, nesting) && name !in Names(done) && NulFree(name) && Sound(v, nesting)
    ensures SoundMembers(done + [Member(name, v)], nesting)
  {
  }

  /** Printing a parsed integer tree and parsing it again changes nothing at all. */
  lemma ReparseIsIdentity(lib: Lib, s: Buffer, level: nat, pretty: bool)
    requires lib.Valid() && ParseText(lib, s).Ok? && IntegerTree(ParseText(lib, s).value)
    ensures var v := ParseText(lib, s).value; var t := Print(lib, v, level, pretty);
      NulFree(t) && ParseText(lib, AsBuffer(t)) == Ok(v, |t|)
  {
    var v := ParseText(lib, s).value;
    ParsedIsSound(lib, s, if s[0] == 0xEF && s[1] == 0xBB && s[2] == 0xBF then 3 else 0, 0);
    FitsByHeight(v, 0);
    IntegerTextRoundTrip(lib, v, level, pretty);
  }

  /** A string whose quoted bytes are UTF-8 is stored as UTF-8, also when a stored NUL cuts it short. */
  lemma QuotedStringKeepsUtf8(s: Buffer, p: nat)
    requires p < |s| && QuotedString(s, p).Ok? && ValidUtf8(s[p + 1..QuotedString(s, p).end - 1])
    ensures ValidUtf8(QuotedString(s, p).value)
  {
    hide Process, SkipBody, ValidUtf8, CString;
    var e := QuotedString(s, p).end - 1;
    ProcessKeepsUtf8(s, p + 1, e);
    CStringValid(Process(s, p + 1, e).value.text);
  }

  // ---- Progress ----

  /** A successful parse advances exactly unless it starts at a minus sign with nothing to convert after it. */
  lemma SuccessAdvances(lib: Lib, s: Buffer, p: nat, nesting: nat)
    requires lib.Valid() && p < |s| && ParseValue(lib, s, p, nesting).Ok?
    ensures var q, r := SkipSpaces(s, p), ParseValue(lib, s, p, nesting);
      r.end >= q && (r.end > q <==> (s[q] == MINUS ==> ConvertsAfterMinus(s, q + 1)))
  {
    hide ParseItems, ParseMembers, QuotedString, DecimalForm, ConvertsAfterMinus;
  }

  /** That does happen: a lone minus sign is accepted as zero. */
  lemma LoneMinusIsZero(lib: Lib)
    requires lib.Valid()
    ensures ParseText(lib, [MINUS, 0]) == Ok(Num(0.0), 0)
  {
  }
}
