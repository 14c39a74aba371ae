/** Comments and blank space in any gap between the tokens of a value do not change how it is parsed. */
module CommentGaps {
  import opened CText
  import opened Numbers
  import opened Values
  import opened StringCodec
  import opened Printer
  import opened Parser
  import opened Tokens
  import opened RoundTrip
  import opened Texts
  import opened Comments

  /** The parts of a text: tokens, and what stands between them. A line comment ends with its line. */
  datatype Part = Word(t: Bytes) | Space(b: byte) | Block(body: Bytes) | Line(body: Bytes)

  function PartText(part: Part): Bytes {
    match part
    case Word(t) => t
    case Space(b) => [b]
    case Block(body) => OPEN_BLOCK + (body + CLOSE_BLOCK)
    case Line(body) => OPEN_LINE + (body + CLOSE_LINE)
  }

  function Text(parts: seq<Part>): Bytes {
    if parts == [] then [] else PartText(parts[0]) + Text(parts[1..])
  }

  function Words(parts: seq<Part>): seq<Bytes> {
    if parts == [] then []
    else (if parts[0].Word? then [parts[0].t] else []) + Words(parts[1..])
  }

  /** What a token must be: nothing in it is blank at its start, ends the text, or looks like a comment. */
  ghost predicate PlainWord(t: Bytes) {
    t != [] && !IsSpace(t[0]) && NulFree(t) && Neutral(t)
  }

  /** Where the first pass, which knows nothing of line comments, stands at the end of a line. */
  datatype LineEnd = Outside | InString | InComment

  function EndOfLine(t: Bytes, inString: bool, escaped: bool): LineEnd
    decreases |t|
  {
    if t == [] then if inString then InString else Outside
    else if t[0] == BACKSLASH && !escaped then EndOfLine(t[1..], inString, true)
    else if t[0] == QUOTE && !escaped then EndOfLine(t[1..], !inString, false)
    else if !inString && OPEN_BLOCK <= t then
      match Find(t[|OPEN_BLOCK|..], CLOSE_BLOCK)
      case None => InComment
      case Some(k) => EndOfLine(t[|OPEN_BLOCK| + k + |CLOSE_BLOCK|..], false, false)
    else EndOfLine(t[1..], inString, false)
  }

  /** A line comment that the first pass leaves as one: its quotes are balanced and its block comments closed. */
  predicate Harmless(body: Bytes) {
    (body == [] || body[0] != 42) && EndOfLine(body + CLOSE_LINE, false, false) == Outside
  }

  ghost predicate OneLine(body: Bytes) {
    NulFree(body) && NEWLINE !in body
  }

  ghost predicate ValidPart(part: Part) {
    match part
    case Word(t) => PlainWord(t)
    case Space(b) => IsSpace(b)
    case Block(body) => NulFree(body) && Find(body + CLOSE_BLOCK, CLOSE_BLOCK) == Some(|body|)
    case Line(body) => OneLine(body) && Harmless(body)
  }

  ghost predicate ValidParts(parts: seq<Part>) {
    forall i :: 0 <= i < |parts| ==> ValidPart(parts[i])
  }

  /** What the first pass makes of a line that starts outside strings. */
  function AfterBlocks(line: Bytes): (r: Bytes)
    ensures |r| == |line|
  {
    Strip(line, false, false, OPEN_BLOCK, CLOSE_BLOCK)
  }

  /** A part after the first pass, or after both: the comments they remove are blanks. */
  function Blanked(part: Part, both: bool): Bytes {
    match part
    case Block(_) => Blanks(|PartText(part)|)
    case Line(body) => if both then Blanks(|PartText(part)|) else OPEN_LINE + AfterBlocks(body + CLOSE_LINE)
    case _ => PartText(part)
  }

  function BlankedText(parts: seq<Part>, both: bool): Bytes {
    if parts == [] then [] else Blanked(parts[0], both) + BlankedText(parts[1..], both)
  }

  // ---- The passes ----

  /** The first occurrence of a token does not depend on what follows it. */
  lemma {:induction false} FindInPrefix(t: Bytes, rest: Bytes, token: Bytes)
    requires token != [] && Find(t, token).Some?
    ensures Find(t + rest, token) == Find(t, token)
    decreases |t|
  {
    var all := t + rest;
    if token <= t {
      assert token <= all;
    } else {
      assert !(token <= all) by {
        var k := Find(t, token).value;
        assert |token| <= |t|;
        assert all[..|token|] == t[..|token|];
      }
      assert all[1..] == t[1..] + rest;
      FindInPrefix(t[1..], rest, token);
    }
  }

  /** A comment at the start of a text, with a body that holds no closing token. */
  lemma StripBody(body: Bytes, rest: Bytes, open: Bytes, close: Bytes)
    requires open != [] && close != [] && open[0] == SLASH && Find(body + close, close) == Some(|body|)
    ensures var text := open + (body + close);
      Strip(text + rest, false, false, open, close) == Blanks(|text|) + Strip(rest, false, false, open, close)
  {
    hide *;
    var text := open + (body + close);
    FindInPrefix(body + close, rest, close);
    BodyParts(open, body + close, rest);
    CommentIsBlanked(text + rest, open, close, |body|, Blanks(|text|), rest);
  }

  lemma BodyParts(open: Bytes, body: Bytes, rest: Bytes)
    ensures var t := open + body + rest; open <= t && t[|open|..] == body + rest && t[|open| + |body|..] == rest
  {
    var t := open + body + rest;
    assert t == open + (body + rest);
  }

  /** The first pass on a whole line: what follows is passed over on its own, from where the line ends. */
  lemma {:induction false} LineStripped(t: Bytes, inString: bool, escaped: bool, rest: Bytes)
    requires if t == [] then !escaped else t[|t| - 1] == NEWLINE
    requires EndOfLine(t, inString, escaped) != InComment
    ensures var r := Strip(t, inString, escaped, OPEN_BLOCK, CLOSE_BLOCK);
      && (t != [] ==> r[|t| - 1] == NEWLINE)
      && Strip(t + rest, inString, escaped, OPEN_BLOCK, CLOSE_BLOCK)
         == r + Strip(rest, EndOfLine(t, inString, escaped) == InString, false, OPEN_BLOCK, CLOSE_BLOCK)
    decreases |t|
  {
    hide Find, Blanks;
    if t == [] {
      assert t + rest == rest;
    } else {
      OpensInLine(t, rest);
      if !inString && OPEN_BLOCK <= t {
        LineCommentStripped(t, escaped, rest);
      } else {
        LineByteStripped(t, inString, escaped, rest);
      }
    }
  }

  /** A byte that opens no block comment: the flags after it. */
  lemma ByteKept(t: Bytes, inString: bool, escaped: bool)
    requires t != [] && (inString || !(OPEN_BLOCK <= t))
    ensures var inString', escaped' := inString != (t[0] == QUOTE && !escaped), t[0] == BACKSLASH && !escaped;
      && EndOfLine(t, inString, escaped) == EndOfLine(t[1..], inString', escaped')
      && Strip(t, inString, escaped, OPEN_BLOCK, CLOSE_BLOCK)
         == [t[0]] + Strip(t[1..], inString', escaped', OPEN_BLOCK, CLOSE_BLOCK)
  {
    hide Find, Blanks;
  }

  lemma {:induction false} LineByteStripped(t: Bytes, inString: bool, escaped: bool, rest: Bytes)
    requires t != [] && t[|t| - 1] == NEWLINE && (inString || !(OPEN_BLOCK <= t))
    requires EndOfLine(t, inString, escaped) != InComment
    ensures var r := Strip(t, inString, escaped, OPEN_BLOCK, CLOSE_BLOCK);
      && r[|t| - 1] == NEWLINE
      && Strip(t + rest, inString, escaped, OPEN_BLOCK, CLOSE_BLOCK)
         == r + Strip(rest, EndOfLine(t, inString, escaped) == InString, false, OPEN_BLOCK, CLOSE_BLOCK)
    decreases |t|, 0
  {
    hide Strip, EndOfLine;
    var inString', escaped' := inString != (t[0] == QUOTE && !escaped), t[0] == BACKSLASH && !escaped;
    OpensInLine(t, rest);
    ByteKept(t, inString, escaped);
    ByteKept(t + rest, inString, escaped);
    assert (t + rest)[0] == t[0] && (t + rest)[1..] == t[1..] + rest;
    LineStripped(t[1..], inString', escaped', rest);
    AppendAssociates([t[0]], Strip(t[1..], inString', escaped', OPEN_BLOCK, CLOSE_BLOCK),
                     Strip(rest, EndOfLine(t, inString, escaped) == InString, false, OPEN_BLOCK, CLOSE_BLOCK));
  }

  lemma OpensInLine(t: Bytes, rest: Bytes)
    requires t != [] && t[|t| - 1] == NEWLINE
    ensures OPEN_BLOCK <= t + rest <==> OPEN_BLOCK <= t
  {
    var all := t + rest;
    assert all[0] == t[0] && (|t| > 1 ==> all[1] == t[1]);
    assert |t| == 1 ==> t[0] == NEWLINE;
    assert OPEN_BLOCK <= all <==> |all| >= 2 && all[0] == SLASH && all[1] == 42;
  }

  /** A block comment that is met on the way. */
  lemma BlockMet(t: Bytes, escaped: bool)
    requires OPEN_BLOCK <= t
    ensures var k := Find(t[2..], CLOSE_BLOCK);
      && (EndOfLine(t, false, escaped) == InComment <== k.None?)
      && (k.Some? ==>
            && k.value + 4 <= |t| && EndOfLine(t, false, escaped) == EndOfLine(t[k.value + 4..], false, false)
            && Strip(t, false, escaped, OPEN_BLOCK, CLOSE_BLOCK)
               == Blanks(k.value + 4) + Strip(t[k.value + 4..], false, false, OPEN_BLOCK, CLOSE_BLOCK))
  {
    hide Find, Blanks;
    assert t[0] == SLASH;
  }

  lemma CommentWithin(t: Bytes, rest: Bytes, k: nat)
    requires OPEN_BLOCK <= t && t[|t| - 1] == NEWLINE && Find(t[2..], CLOSE_BLOCK) == Some(k)
    ensures OPEN_BLOCK <= t + rest && Find((t + rest)[2..], CLOSE_BLOCK) == Some(k)
    ensures k + 4 < |t| && t[k + 4..][|t| - (k + 4) - 1] == NEWLINE && (t + rest)[k + 4..] == t[k + 4..] + rest
  {
    assert (t + rest)[2..] == t[2..] + rest;
    FindInPrefix(t[2..], rest, CLOSE_BLOCK);
    assert t[2..][k..k + 2][1] == t[k + 3];
  }

  lemma {:induction false} LineCommentStripped(t: Bytes, escaped: bool, rest: Bytes)
    requires OPEN_BLOCK <= t && t[|t| - 1] == NEWLINE && EndOfLine(t, false, escaped) != InComment
    ensures var r := Strip(t, false, escaped, OPEN_BLOCK, CLOSE_BLOCK);
      && r[|t| - 1] == NEWLINE
      && Strip(t + rest, false, escaped, OPEN_BLOCK, CLOSE_BLOCK)
         == r + Strip(rest, EndOfLine(t, false, escaped) == InString, false, OPEN_BLOCK, CLOSE_BLOCK)
    decreases |t|, 0
  {
    hide Strip, EndOfLine, Find, Blanks;
    BlockMet(t, escaped);
    var k := Find(t[2..], CLOSE_BLOCK).value;
    CommentWithin(t, rest, k);
    BlockMet(t + rest, escaped);
    var after := t[k + 4..];
    LineStripped(after, false, false, rest);
    AppendAssociates(Blanks(k + 4), Strip(after, false, false, OPEN_BLOCK, CLOSE_BLOCK),
                     Strip(rest, EndOfLine(t, false, escaped) == InString, false, OPEN_BLOCK, CLOSE_BLOCK));
  }

  lemma SlashesKept(t: Bytes)
    requires t != [] && t[0] != 42
    ensures Strip(OPEN_LINE + t, false, false, OPEN_BLOCK, CLOSE_BLOCK)
      == OPEN_LINE + Strip(t, false, false, OPEN_BLOCK, CLOSE_BLOCK)
  {
    var all := OPEN_LINE + t;
    assert all[1..][1..] == t && !(OPEN_BLOCK <= all) && !(OPEN_BLOCK <= all[1..]);
    assert Strip(all[1..], false, false, OPEN_BLOCK, CLOSE_BLOCK)
      == [SLASH] + Strip(t, false, false, OPEN_BLOCK, CLOSE_BLOCK);
  }

  /** A line comment after the first pass still is one. */
  lemma LineAfterBlocks(body: Bytes, rest: Bytes)
    requires OneLine(body) && (body == [] || body[0] != 42) && EndOfLine(body + CLOSE_LINE, false, false) != InComment
    ensures Strip(OPEN_LINE + (body + CLOSE_LINE) + rest, false, false, OPEN_BLOCK, CLOSE_BLOCK)
      == OPEN_LINE + AfterBlocks(body + CLOSE_LINE)
         + Strip(rest, EndOfLine(body + CLOSE_LINE, false, false) == InString, false, OPEN_BLOCK, CLOSE_BLOCK)
    ensures AfterBlocks(body + CLOSE_LINE)[|body|] == NEWLINE
  {
    var line := body + CLOSE_LINE;
    hide Strip, EndOfLine;
    LineStripped(line, false, false, rest);
    assert OPEN_LINE + line + rest == OPEN_LINE + (line + rest);
    assert (line + rest)[0] != 42;
    SlashesKept(line + rest);
  }

  /** Comment removal only blanks bytes. */
  lemma {:induction false} StripOnlyBlanks(t: Bytes, inString: bool, escaped: bool, open: Bytes, close: Bytes, i: nat)
    requires open != [] && close != [] && i < |t|
    ensures var r := Strip(t, inString, escaped, open, close); r[i] == t[i] || r[i] == SPACE
    decreases |t|
  {
    if !inString && open <= t && (escaped || (t[0] != BACKSLASH && t[0] != QUOTE)) {
      var k := Find(t[|open|..], close);
      if k.Some? && i >= |open| + k.value + |close| {
        StripOnlyBlanks(t[|open| + k.value + |close|..], false, false, open, close, i - (|open| + k.value + |close|));
      }
    } else {
      var inString', escaped' := inString != (t[0] == QUOTE && !escaped), t[0] == BACKSLASH && !escaped;
      if i == 0 {
      } else {
        StripOnlyBlanks(t[1..], inString', escaped', open, close, i - 1);
      }
    }
  }

  /** The second pass removes what the first has left of a line comment. */
  lemma LineIsBlanked(body: Bytes, rest: Bytes)
    requires OneLine(body) && AfterBlocks(body + CLOSE_LINE)[|body|] == NEWLINE
    ensures Strip(OPEN_LINE + AfterBlocks(body + CLOSE_LINE) + rest, false, false, OPEN_LINE, CLOSE_LINE)
      == Blanks(|body| + 3) + Strip(rest, false, false, OPEN_LINE, CLOSE_LINE)
  {
    var line := body + CLOSE_LINE;
    var r := AfterBlocks(line);
    forall i | 0 <= i < |body|
      ensures r[..|body|][i] != NEWLINE
    {
      StripOnlyBlanks(line, false, false, OPEN_BLOCK, CLOSE_BLOCK, i);
      assert line[i] == body[i];
    }
    hide Strip, AfterBlocks;
    assert r == r[..|body|] + CLOSE_LINE;
    FindNewline(r[..|body|]);
    StripBody(r[..|body|], rest, OPEN_LINE, CLOSE_LINE);
  }

  lemma {:induction false} FindNewline(body: Bytes)
    requires forall i :: 0 <= i < |body| ==> body[i] != NEWLINE
    ensures Find(body + CLOSE_LINE, CLOSE_LINE) == Some(|body|)
    decreases |body|
  {
    var t := body + CLOSE_LINE;
    if body == [] {
      assert CLOSE_LINE <= t;
    } else {
      assert t[0] == body[0] && t[1..] == body[1..] + CLOSE_LINE;
      assert !(CLOSE_LINE <= t);
      FindNewline(body[1..]);
    }
  }

  lemma NeutralParts(part: Part)
    requires ValidPart(part)
    ensures part.Word? || part.Space? ==> Neutral(PartText(part))
    ensures Neutral(Blanks(|PartText(part)|))
  {
    NeutralPlain(Blanks(|PartText(part)|));
    if part.Space? {
      NeutralPlain([part.b]);
    }
  }

  lemma StripNeutral(a: Bytes, rest: Bytes, open: Bytes, close: Bytes)
    requires open != [] && close != [] && open[0] == SLASH && Neutral(a)
    ensures Strip(a + rest, false, false, open, close) == a + Strip(rest, false, false, open, close)
  {
    StripAfter(a, rest, false, false, open, close);
  }

  /** The first pass blanks block comments and keeps the rest; the second blanks line comments. */
  lemma PassOver(part: Part, rest: Bytes)
    requires ValidPart(part)
    ensures Strip(PartText(part) + rest, false, false, OPEN_BLOCK, CLOSE_BLOCK)
      == Blanked(part, false) + Strip(rest, false, false, OPEN_BLOCK, CLOSE_BLOCK)
    ensures Strip(Blanked(part, false) + rest, false, false, OPEN_LINE, CLOSE_LINE)
      == Blanked(part, true) + Strip(rest, false, false, OPEN_LINE, CLOSE_LINE)
  {
    hide Strip, Find, Blanks, Neutral, EndOfLine, AfterBlocks;
    NeutralParts(part);
    match part
    case Block(body) =>
      StripBody(body, rest, OPEN_BLOCK, CLOSE_BLOCK);
      StripNeutral(Blanks(|PartText(part)|), rest, OPEN_LINE, CLOSE_LINE);
    case Line(body) =>
      LineAfterBlocks(body, rest);
      LineIsBlanked(body, rest);
    case _ =>
      StripNeutral(PartText(part), rest, OPEN_BLOCK, CLOSE_BLOCK);
      StripNeutral(PartText(part), rest, OPEN_LINE, CLOSE_LINE);
  }

  lemma {:induction false} PassesOver(parts: seq<Part>)
    requires ValidParts(parts)
    ensures Strip(Text(parts), false, false, OPEN_BLOCK, CLOSE_BLOCK) == BlankedText(parts, false)
    ensures Strip(BlankedText(parts, false), false, false, OPEN_LINE, CLOSE_LINE)
      == BlankedText(parts, true)
    decreases |parts|
  {
    hide PartText, Blanked, ValidPart;
    if parts == [] {
    } else {
      PassesOver(parts[1..]);
      PassOver(parts[0], Text(parts[1..]));
      PassOver(parts[0], BlankedText(parts[1..], false));
    }
  }

  lemma {:induction false} TextNulFree(parts: seq<Part>)
    requires ValidParts(parts)
    ensures NulFree(Text(parts))
  {
    if parts == [] {
    } else {
      assert NulFree(PartText(parts[0]));
      TextNulFree(parts[1..]);
    }
  }

  // ---- What is left ----

  lemma BlankedIsBlank(part: Part)
    requires ValidPart(part) && !part.Word?
    ensures Blank(Blanked(part, true))
  {
  }

  /** It reads as the tokens, with blank space only after the last. */
  lemma {:induction false} BlankedReads(s: Buffer, p: nat, parts: seq<Part>)
    requires ValidParts(parts)
    requires var t := BlankedText(parts, true); Holds(s, p, t) && p + |t| < |s|
    ensures var r, end := ReadTokens(s, p, Words(parts)), p + |BlankedText(parts, true)|;
      r.Some? && r.value <= end && forall i :: r.value <= i < end ==> IsSpace(s[i])
    decreases |parts|
  {
    hide SkipSpaces, Blanked, Neutral, NulFree, Find, EndOfLine;
    if parts == [] {
    } else {
      var t, rest := Blanked(parts[0], true), BlankedText(parts[1..], true);
      HoldsAppend(s, p, t, rest);
      BlankedReads(s, p + |t|, parts[1..]);
      if parts[0].Word? {
        WordKept(parts[0]);
        ReadToken(s, p, t, Words(parts[1..]));
      } else {
        BlankedIsBlank(parts[0]);
        BlankHeld(s, p, t);
        assert Words(parts) == Words(parts[1..]);
        if Words(parts) != [] {
          ReadAfterBlank(s, p, t, Words(parts));
        }
      }
    }
  }

  lemma WordKept(part: Part)
    requires part.Word?
    ensures Blanked(part, true) == part.t
  {
  }

  lemma BlankHeld(s: Buffer, p: nat, t: Bytes)
    requires Holds(s, p, t) && Blank(t)
    ensures forall i :: p <= i < p + |t| ==> IsSpace(s[i])
  {
    forall i | p <= i < p + |t|
      ensures IsSpace(s[i])
    {
      HoldsAt(s, p, t, i - p);
    }
  }

  lemma StrippedText(parts: seq<Part>)
    requires ValidParts(parts)
    ensures var t := BlankedText(parts, true); WithoutComments(Text(parts)) == t && NulFree(t)
  {
    hide Strip, ValidParts, Text, BlankedText;
    PassesOver(parts);
    TextNulFree(parts);
    WithoutCommentsNulFree(Text(parts));
  }

  lemma WholeBuffer(t: Bytes)
    requires NulFree(t)
    ensures var s := AsBuffer(t); |s| == |t| + 1 && Holds(s, 0, t) && EndsValue(s[|t|])
    ensures forall b: byte :: IsSpace(b) ==> EndsValue(b)
  {
  }

  // ---- Values with comments ----

  /** The tokens of a value are such words. */
  lemma {:induction false} TokensArePlain(lib: Lib, v: Value)
    requires lib.Valid() && WellFormed(v)
    ensures forall t :: t in TokensOf(lib, v) ==> PlainWord(t)
    decreases v, 1
  {
    hide PlainWord, Quoted, NumberText, Lib.Valid;
    match v
    case Arr(items, _) =>
      StructureIsPlain();
      ItemTokensArePlain(lib, items);
    case Obj(ms, _) =>
      StructureIsPlain();
      MemberTokensArePlain(lib, ms);
    case Str(t) => QuotedIsPlain(t);
    case Num(x) => NumberIsPlain(lib, x);
    case _ => StructureIsPlain();
  }

  lemma StructureIsPlain()
    ensures PlainWord([LBRACKET]) && PlainWord([RBRACKET]) && PlainWord([LBRACE]) && PlainWord([RBRACE])
    ensures PlainWord([COMMA]) && PlainWord([COLON])
    ensures PlainWord(TRUE_TEXT) && PlainWord(FALSE_TEXT) && PlainWord(NULL_TEXT)
  {
    NeutralPlain([LBRACKET]);
    NeutralPlain([RBRACKET]);
    NeutralPlain([LBRACE]);
    NeutralPlain([RBRACE]);
    NeutralPlain([COMMA]);
    NeutralPlain([COLON]);
    NeutralPlain(TRUE_TEXT);
    NeutralPlain(FALSE_TEXT);
    NeutralPlain(NULL_TEXT);
  }

  lemma QuotedIsPlain(t: Bytes)
    requires NulFree(t)
    ensures PlainWord(Quoted(t))
  {
    EscapeNulFree(t);
    NeutralQuoted(t);
    hide Neutral, NulFree;
  }

  lemma NumberIsPlain(lib: Lib, x: real)
    requires lib.Valid()
    ensures PlainWord(NumberText(lib, x))
  {
    hide Neutral;
    NeutralPlain(NumberText(lib, x));
  }

  lemma {:induction false} ItemTokensArePlain(lib: Lib, items: seq<Value>)
    requires lib.Valid() && forall i :: 0 <= i < |items| ==> WellFormed(items[i])
    ensures forall t :: t in ItemTokens(lib, items) ==> PlainWord(t)
    decreases items, 0
  {
    hide PlainWord, TokensOf, WellFormed, Lib.Valid;
    StructureIsPlain();
    if items == [] {
    } else {
      TokensArePlain(lib, items[0]);
      ItemTokensArePlain(lib, items[1..]);
    }
  }

  lemma {:induction false} MemberTokensArePlain(lib: Lib, ms: seq<Member<Value>>)
    requires lib.Valid() && forall i :: 0 <= i < |ms| ==> NulFree(ms[i].name) && WellFormed(ms[i].value)
    ensures forall t :: t in MemberTokens(lib, ms) ==> PlainWord(t)
    decreases ms, 0
  {
    hide PlainWord, TokensOf, WellFormed, Quoted, Lib.Valid;
    StructureIsPlain();
    if ms == [] {
    } else {
      QuotedIsPlain(ms[0].name);
      TokensArePlain(lib, ms[0].value);
      MemberTokensArePlain(lib, ms[1..]);
    }
  }

  /** What stands between the words is blank space and comments. */
  ghost predicate ValidGaps(parts: seq<Part>) {
    forall i :: 0 <= i < |parts| && !parts[i].Word? ==> ValidPart(parts[i])
  }

  lemma {:induction false} WordsHold(parts: seq<Part>, i: nat)
    requires i < |parts| && parts[i].Word?
    ensures parts[i].t in Words(parts)
  {
    if i == 0 {
    } else {
      WordsHold(parts[1..], i - 1);
    }
  }

  lemma WordsArePlain(lib: Lib, v: Value, parts: seq<Part>)
    requires lib.Valid() && WellFormed(v) && ValidGaps(parts) && Words(parts) == TokensOf(lib, v)
    ensures ValidParts(parts)
  {
    hide Lib.Valid, PlainWord, Words, TokensOf;
    TokensArePlain(lib, v);
    forall i | 0 <= i < |parts| && parts[i].Word?
      ensures PlainWord(parts[i].t)
    {
      WordsHold(parts, i);
    }
  }

  /** Without its comments, the text is parsed to the value, unless it is too high. */
  ghost predicate ParsedAs(lib: Lib, parts: seq<Part>, v: Value)
    requires lib.Valid()
  {
    var t := WithoutComments(Text(parts));
    && NulFree(t)
    && var r := ParseValue(lib, AsBuffer(t), 0, 0);
       if Height(v) <= MAX_NESTING then r.Ok? && r.value == Reread(lib, v) else r.Fail?
  }

  /** Comments of both kinds, and blank space, before, between and after the tokens of a value leave the outcome and the
      value as they are. */
  lemma CommentsIgnored(lib: Lib, v: Value, parts: seq<Part>)
    requires lib.Valid() && WellFormed(v) && ValidGaps(parts) && Words(parts) == TokensOf(lib, v)
    ensures ParsedAs(lib, parts, v)
  {
    hide *;
    WordsArePlain(lib, v, parts);
    var t := BlankedText(parts, true);
    StrippedText(parts);
    WholeBuffer(t);
    BlankedReads(AsBuffer(t), 0, parts);
    SpacedTextRoundTrip(lib, AsBuffer(t), v, ReadTokens(AsBuffer(t), 0, Words(parts)).value);
    ParsedAsIs(lib, parts, v);
  }

  lemma ParsedAsIs(lib: Lib, parts: seq<Part>, v: Value)
    requires lib.Valid()
    ensures ParsedAs(lib, parts, v)
      <==> NulFree(WithoutComments(Text(parts)))
           && var r := ParseValue(lib, AsBuffer(WithoutComments(Text(parts))), 0, 0);
              if Height(v) <= MAX_NESTING then r.Ok? && r.value == Reread(lib, v) else r.Fail?
  {
  }
}
