/** Printing and parsing undo each other, in both layouts, at every level, whatever follows the text. */
module RoundTrip {
  import opened CText
  import opened Numbers
  import opened Values
  import opened StringCodec
  import opened Printer
  import opened Parser
  import opened Tokens

  // ---- Printed text reads as the value's tokens ----

  lemma BlankLayout(pretty: bool, level: nat)
    ensures Blank(IfPretty(pretty, Indent(level)))
    ensures Blank(IfPretty(pretty, [NEWLINE])) && Blank(IfPretty(pretty, [SPACE]))
    ensures Blank([])
  {
  }

  /** Blank space before tokens. */
  lemma ReadAfterBlank(s: Buffer, p: nat, t: Bytes, ts: seq<Bytes>)
    requires Holds(s, p, t) && Blank(t) && p + |t| < |s| && ts != []
    ensures ReadTokens(s, p, ts) == ReadTokens(s, p + |t|, ts)
  {
    SkipsBlank(s, p, t);
  }

  /** A token where it stands. */
  lemma ReadToken(s: Buffer, p: nat, t: Bytes, ts: seq<Bytes>)
    requires Holds(s, p, t) && t != [] && !IsSpace(t[0])
    ensures ReadTokens(s, p, [t] + ts) == ReadTokens(s, p + |t|, ts)
  {
    hide Holds;
    HoldsAt(s, p, t, 0);
    HoldsBefore(s, p, t);
    SkipsNothing(s, p);
    assert ([t] + ts)[1..] == ts;
  }

  lemma HoldsBefore(s: Buffer, p: nat, t: Bytes)
    requires Holds(s, p, t) && t != []
    ensures p < |s|
  {
  }

  lemma FirstByte(lib: Lib, x: real)
    requires lib.Valid()
    ensures var t := NumberText(lib, x); |t| > 0 && !IsSpace(t[0])
  {
  }

  lemma {:induction false} PrintReads(lib: Lib, s: Buffer, p: nat, v: Value, level: nat, pretty: bool)
    requires lib.Valid()
    requires var t := Print(lib, v, level, pretty); Holds(s, p, t) && p + |t| < |s|
    ensures ReadTokens(s, p, TokensOf(lib, v)) == Some(p + |Print(lib, v, level, pretty)|)
    decreases v, 1
  {
    hide Lib.Valid, Holds, SkipSpaces, ReadTokens, PrintItems, PrintMembers, ItemTokens, MemberTokens;
    match v
    case Arr(items, _) => ArrayReads(lib, s, p, items, level, pretty);
    case Obj(ms, _) => ObjectReads(lib, s, p, ms, level, pretty);
    case _ => ScalarReads(lib, s, p, v, level, pretty);
  }

  lemma ScalarReads(lib: Lib, s: Buffer, p: nat, v: Value, level: nat, pretty: bool)
    requires lib.Valid() && !v.Arr? && !v.Obj?
    requires var t := Print(lib, v, level, pretty); Holds(s, p, t) && p + |t| < |s|
    ensures ReadTokens(s, p, TokensOf(lib, v)) == Some(p + |Print(lib, v, level, pretty)|)
  {
    hide Lib.Valid, Holds, SkipSpaces, ReadTokens, NumberText;
    var t := Print(lib, v, level, pretty);
    if v.Num? {
      FirstByte(lib, v.x);
    }
    assert TokensOf(lib, v) == [t] + [];
    ReadToken(s, p, t, []);
    NothingMore(s, p + |t|);
  }

  lemma {:induction false} ArrayReads(lib: Lib, s: Buffer, p: nat, items: seq<Value>, level: nat, pretty: bool)
    requires lib.Valid()
    requires var t := Print(lib, Arr(items, 0), level, pretty); Holds(s, p, t) && p + |t| < |s|
    ensures ReadTokens(s, p, [[LBRACKET]] + ItemTokens(lib, items))
      == Some(p + |Print(lib, Arr(items, 0), level, pretty)|)
    decreases items, 2
  {
    hide Lib.Valid, Holds, SkipSpaces, ReadTokens, PrintItems, ItemTokens, Blank, Indent;
    var line, body := IfPretty(pretty, [NEWLINE]), PrintItems(lib, items, level, pretty);
    if items == [] {
      EmptyReads(lib, s, p);
    } else {
      HoldsAppend(s, p, [LBRACKET] + line, body);
      HoldsAppend(s, p, [LBRACKET], line);
      ReadToken(s, p, [LBRACKET], ItemTokens(lib, items));
      BlankLayout(pretty, level);
      BodyNotEmpty(lib, items, [], level, pretty);
      ReadAfterBlank(s, p + 1, line, ItemTokens(lib, items));
      ItemsRead(lib, s, p + 1 + |line|, items, level, pretty);
    }
  }

  lemma EmptyReads(lib: Lib, s: Buffer, p: nat)
    requires p + 2 < |s|
    ensures Holds(s, p, [LBRACKET, RBRACKET]) ==> ReadTokens(s, p, [[LBRACKET]] + ItemTokens(lib, [])) == Some(p + 2)
    ensures Holds(s, p, [LBRACE, RBRACE]) ==> ReadTokens(s, p, [[LBRACE]] + MemberTokens(lib, [])) == Some(p + 2)
  {
    hide Holds, SkipSpaces;
    assert [LBRACKET, RBRACKET] == [LBRACKET] + [RBRACKET] && [LBRACE, RBRACE] == [LBRACE] + [RBRACE];
    HoldsAppend(s, p, [LBRACKET], [RBRACKET]);
    HoldsAppend(s, p, [LBRACE], [RBRACE]);
    assert [[RBRACKET]] + [] == [[RBRACKET]] && [[RBRACE]] + [] == [[RBRACE]];
    if Holds(s, p, [LBRACKET, RBRACKET]) {
      ReadToken(s, p, [LBRACKET], [[RBRACKET]]);
      ReadToken(s, p + 1, [RBRACKET], []);
    }
    if Holds(s, p, [LBRACE, RBRACE]) {
      ReadToken(s, p, [LBRACE], [[RBRACE]]);
      ReadToken(s, p + 1, [RBRACE], []);
    }
  }

  lemma BodyNotEmpty(lib: Lib, items: seq<Value>, ms: seq<Member<Value>>, level: nat, pretty: bool)
    ensures PrintItems(lib, items, level, pretty) != [] && PrintMembers(lib, ms, level, pretty) != []
  {
    hide Print, PrintName, Indent;
  }

  /** The end of a container. */
  lemma ClosingReads(s: Buffer, p: nat, level: nat, pretty: bool, close: byte)
    requires close == RBRACKET || close == RBRACE
    requires var t := IfPretty(pretty, Indent(level)) + [close]; Holds(s, p, t) && p + |t| < |s|
    ensures ReadTokens(s, p, [[close]]) == Some(p + |IfPretty(pretty, Indent(level)) + [close]|)
  {
    hide Holds, SkipSpaces, Indent, Blank;
    var indent := IfPretty(pretty, Indent(level));
    HoldsAppend(s, p, indent, [close]);
    BlankLayout(pretty, level);
    ReadAfterBlank(s, p, indent, [[close]]);
    assert [[close]] == [[close]] + [];
    ReadToken(s, p + |indent|, [close], []);
  }

  /** What follows an element: the comma unless it is the last one, then the line break. */
  lemma AfterElementReads(s: Buffer, p: nat, last: bool, pretty: bool, ts: seq<Bytes>)
    requires Holds(s, p, AfterElement(last, pretty)) && p + |AfterElement(last, pretty)| < |s| && ts != []
    ensures ReadTokens(s, p, CommaToken(last) + ts) == ReadTokens(s, p + |AfterElement(last, pretty)|, ts)
  {
    hide Holds, SkipSpaces, ReadTokens, Blank;
    var comma, line := if last then [] else [COMMA], IfPretty(pretty, [NEWLINE]);
    HoldsAppend(s, p, comma, line);
    BlankLayout(pretty, 0);
    ReadAfterBlank(s, p + |comma|, line, ts);
    if last {
      assert CommaToken(true) + ts == ts;
    } else {
      ReadToken(s, p, [COMMA], ts);
    }
  }

  lemma {:induction false} ItemsRead(lib: Lib, s: Buffer, p: nat, items: seq<Value>, level: nat, pretty: bool)
    requires lib.Valid()
    requires var t := PrintItems(lib, items, level, pretty); Holds(s, p, t) && p + |t| < |s|
    ensures ReadTokens(s, p, ItemTokens(lib, items)) == Some(p + |PrintItems(lib, items, level, pretty)|)
    decreases items, 0
  {
    hide Lib.Valid, Holds, SkipSpaces, ReadTokens, Print, TokensOf, Indent, Blank, AfterElement;
    if items == [] {
      ClosingReads(s, p, level, pretty, RBRACKET);
    } else {
      var last, rest := |items| == 1, PrintItems(lib, items[1..], level, pretty);
      var indent, body := IfPretty(pretty, Indent(level + 1)), Print(lib, items[0], level + 1, pretty);
      var after, more := AfterElement(last, pretty), ItemTokens(lib, items[1..]);
      var q := p + |indent|;
      HoldsAppend(s, p, indent + body + after, rest);
      HoldsAppend(s, p, indent + body, after);
      HoldsAppend(s, p, indent, body);
      BlankLayout(pretty, level + 1);
      BodyNotEmpty(lib, items[1..], [], level, pretty);
      ReadAfterBlank(s, p, indent, TokensOf(lib, items[0]) + (CommaToken(last) + more));
      ReadAppend(s, q, TokensOf(lib, items[0]), CommaToken(last) + more);
      PrintReads(lib, s, q, items[0], level + 1, pretty);
      AfterElementReads(s, q + |body|, last, pretty, more);
      ItemsRead(lib, s, q + |body| + |after|, items[1..], level, pretty);
    }
  }

  lemma {:induction false} ObjectReads(lib: Lib, s: Buffer, p: nat, ms: seq<Member<Value>>, level: nat, pretty: bool)
    requires lib.Valid()
    requires var t := Print(lib, Obj(ms, 0), level, pretty); Holds(s, p, t) && p + |t| < |s|
    ensures ReadTokens(s, p, [[LBRACE]] + MemberTokens(lib, ms))
      == Some(p + |Print(lib, Obj(ms, 0), level, pretty)|)
    decreases ms, 2
  {
    hide Lib.Valid, Holds, SkipSpaces, ReadTokens, PrintMembers, MemberTokens, Blank, Indent;
    var line, body := IfPretty(pretty, [NEWLINE]), PrintMembers(lib, ms, level, pretty);
    if ms == [] {
      EmptyReads(lib, s, p);
    } else {
      HoldsAppend(s, p, [LBRACE] + line, body);
      HoldsAppend(s, p, [LBRACE], line);
      ReadToken(s, p, [LBRACE], MemberTokens(lib, ms));
      BlankLayout(pretty, level);
      BodyNotEmpty(lib, [], ms, level, pretty);
      ReadAfterBlank(s, p + 1, line, MemberTokens(lib, ms));
      MembersRead(lib, s, p + 1 + |line|, ms, level, pretty);
    }
  }

  /** A printed name and its colon. */
  lemma NameReads(s: Buffer, p: nat, name: Bytes, pretty: bool, ts: seq<Bytes>)
    requires Holds(s, p, PrintName(name, pretty)) && p + |PrintName(name, pretty)| < |s| && ts != []
    ensures ReadTokens(s, p, [Quoted(name), [COLON]] + ts) == ReadTokens(s, p + |PrintName(name, pretty)|, ts)
  {
    hide Holds, SkipSpaces, Quoted, ReadTokens, Blank;
    var quoted, gap := Quoted(name), IfPretty(pretty, [SPACE]);
    HoldsAppend(s, p, quoted, [COLON] + gap);
    HoldsAppend(s, p + |quoted|, [COLON], gap);
    assert [quoted, [COLON]] + ts == [quoted] + ([[COLON]] + ts);
    ReadToken(s, p, quoted, [[COLON]] + ts);
    ReadToken(s, p + |quoted|, [COLON], ts);
    BlankLayout(pretty, 0);
    ReadAfterBlank(s, p + |quoted| + 1, gap, ts);
  }

  lemma MemberParts(s: Buffer, p: nat, indent: Bytes, name: Bytes, body: Bytes, after: Bytes, rest: Bytes)
    requires Holds(s, p, indent + name + (body + after) + rest)
    ensures var b := p + |indent| + |name|;
      && Holds(s, p, indent) && Holds(s, p + |indent|, name) && Holds(s, b, body) && Holds(s, b + |body|, after)
      && Holds(s, b + |body| + |after|, rest)
  {
    hide Holds;
    HoldsAppend(s, p, indent + name + (body + after), rest);
    HoldsAppend(s, p, indent + name, body + after);
    HoldsAppend(s, p, indent, name);
    HoldsAppend(s, p + |indent| + |name|, body, after);
  }

  /** The text and the tokens of some members, taken apart at the first. */
  lemma MembersText(lib: Lib, ms: seq<Member<Value>>, level: nat, pretty: bool)
    requires ms != []
    ensures var indent, name := IfPretty(pretty, Indent(level + 1)), PrintName(ms[0].name, pretty);
      var body, after := Print(lib, ms[0].value, level + 1, pretty), AfterElement(|ms| == 1, pretty);
      PrintMembers(lib, ms, level, pretty)
      == indent + name + (body + after) + PrintMembers(lib, ms[1..], level, pretty)
    ensures MemberTokens(lib, ms)
      == [Quoted(ms[0].name), [COLON]]
         + (TokensOf(lib, ms[0].value) + (CommaToken(|ms| == 1) + MemberTokens(lib, ms[1..])))
  {
  }

  lemma {:induction false} MembersRead(lib: Lib, s: Buffer, p: nat, ms: seq<Member<Value>>, level: nat, pretty: bool)
    requires lib.Valid()
    requires var t := PrintMembers(lib, ms, level, pretty); Holds(s, p, t) && p + |t| < |s|
    ensures ReadTokens(s, p, MemberTokens(lib, ms)) == Some(p + |PrintMembers(lib, ms, level, pretty)|)
    decreases ms, 0
  {
    hide *;
    if ms == [] {
      NoMembers(lib, level, pretty);
      ClosingReads(s, p, level, pretty, RBRACE);
    } else {
      var last, rest := |ms| == 1, PrintMembers(lib, ms[1..], level, pretty);
      var indent, name := IfPretty(pretty, Indent(level + 1)), PrintName(ms[0].name, pretty);
      var body, after := Print(lib, ms[0].value, level + 1, pretty), AfterElement(last, pretty);
      var value, more := TokensOf(lib, ms[0].value), MemberTokens(lib, ms[1..]);
      var b := p + |indent| + |name|;
      MembersText(lib, ms, level, pretty);
      MemberParts(s, p, indent, name, body, after, rest);
      BlankLayout(pretty, level + 1);
      BodyNotEmpty(lib, [], ms[1..], level, pretty);
      ReadAfterBlank(s, p, indent, MemberTokens(lib, ms));
      NameReads(s, p + |indent|, ms[0].name, pretty, value + (CommaToken(last) + more));
      ReadAppend(s, b, value, CommaToken(last) + more);
      PrintReads(lib, s, b, ms[0].value, level + 1, pretty);
      AfterElementReads(s, b + |body|, last, pretty, more);
      MembersRead(lib, s, b + |body| + |after|, ms[1..], level, pretty);
    }
  }

  lemma NoMembers(lib: Lib, level: nat, pretty: bool)
    ensures PrintMembers(lib, [], level, pretty) == IfPretty(pretty, Indent(level)) + [RBRACE]
    ensures MemberTokens(lib, []) == [[RBRACE]]
  {
  }

  // ---- The round trip ----

  /** Printing a value and parsing it, wherever the text stands and whatever ends it, gives back the value and stops
      right after the text, exactly when the value fits the parser's limits; otherwise parsing fails. */
  lemma ValueRoundTrip(lib: Lib, s: Buffer, p: nat, v: Value, level: nat, pretty: bool, nesting: nat)
    requires lib.Valid() && WellFormed(v)
    requires var t := Print(lib, v, level, pretty); Holds(s, p, t) && p + |t| < |s| && EndsValue(s[p + |t|])
    ensures ParseValue(lib, s, p, nesting)
      == if Fits(v, nesting) then Ok(Reread(lib, v), p + |Print(lib, v, level, pretty)|) else Fail
  {
    hide *;
    PrintReads(lib, s, p, v, level, pretty);
    TokensRoundTrip(lib, s, p, v, p + |Print(lib, v, level, pretty)|, nesting);
  }
}
