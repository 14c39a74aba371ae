/** The printed text, byte for byte, from the tokens alone: run together in the compact layout; in the pretty layout set
    by a walk that only looks at two neighbouring tokens and at the depth. */
module Layout {
  import opened CText
  import opened Numbers
  import opened Values
  import opened StringCodec
  import opened Printer
  import opened Tokens
  import opened RoundTrip

  // ---- The two layouts ----

  function Compact(ts: seq<Bytes>): Bytes {
    if ts == [] then [] else ts[0] + Compact(ts[1..])
  }

  predicate Opens(t: Bytes) {
    t == [LBRACKET] || t == [LBRACE]
  }

  predicate Closes(t: Bytes) {
    t == [RBRACKET] || t == [RBRACE]
  }

  function Turn(t: Bytes): int {
    if Opens(t) then 1 else if Closes(t) then -1 else 0
  }

  /** A line break and four blanks for each container that is open. */
  function LineAt(depth: int): Bytes {
    [10] + seq(if depth > 0 then 4 * depth else 0, _ => 32)
  }

  /** What stands between two tokens, where `depth` containers are open after the first. */
  function Gap(a: Bytes, b: Bytes, depth: int): Bytes {
    if Opens(a) && Closes(b) then []
    else if Closes(b) then LineAt(depth - 1)
    else if Opens(a) || a == [COMMA] then LineAt(depth)
    else if a == [COLON] then [32]
    else []
  }

  function Pretty(ts: seq<Bytes>, depth: int): Bytes {
    if ts == [] then []
    else if |ts| == 1 then ts[0]
    else
      var inner := depth + Turn(ts[0]);
      ts[0] + (Gap(ts[0], ts[1], inner) + Pretty(ts[1..], inner))
  }

  function DepthOver(ts: seq<Bytes>, depth: int): int {
    if ts == [] then depth else DepthOver(ts[1..], depth + Turn(ts[0]))
  }

  // ---- Runs of tokens ----

  lemma {:induction false} CompactAppend(a: seq<Bytes>, b: seq<Bytes>)
    ensures Compact(a + b) == Compact(a) + Compact(b)
    decreases |a|
  {
    if a == [] {
      assert a + b == b;
    } else {
      assert (a + b)[0] == a[0] && (a + b)[1..] == a[1..] + b;
      CompactAppend(a[1..], b);
      AppendAssociates(a[0], Compact(a[1..]), Compact(b));
    }
  }

  lemma CompactOne(t: Bytes)
    ensures Compact([t]) == t
  {
    assert t + [] == t;
  }

  lemma {:induction false} DepthAppend(a: seq<Bytes>, b: seq<Bytes>, depth: int)
    ensures DepthOver(a + b, depth) == DepthOver(b, DepthOver(a, depth))
    decreases |a|
  {
    if a == [] {
      assert a + b == b;
    } else {
      assert (a + b)[0] == a[0] && (a + b)[1..] == a[1..] + b;
      DepthAppend(a[1..], b, depth + Turn(a[0]));
    }
  }

  lemma PrettyHead(t: Bytes, ts: seq<Bytes>, depth: int)
    requires ts != []
    ensures var inner := depth + Turn(t);
      && Pretty([t] + ts, depth) == t + (Gap(t, ts[0], inner) + Pretty(ts, inner))
      && DepthOver([t] + ts, depth) == DepthOver(ts, inner)
  {
    hide Gap, Turn;
    assert ([t] + ts)[1..] == ts;
  }

  lemma OneToken(t: Bytes, depth: int)
    ensures Pretty([t], depth) == t && DepthOver([t], depth) == depth + Turn(t)
  {
    assert [t][1..] == [];
  }

  lemma {:induction false} PrettyAppend(a: seq<Bytes>, b: seq<Bytes>, depth: int)
    requires a != [] && b != []
    ensures var inner := DepthOver(a, depth);
      Pretty(a + b, depth) == Pretty(a, depth) + (Gap(a[|a| - 1], b[0], inner) + Pretty(b, inner))
    decreases |a|
  {
    hide Gap, Turn, Pretty, DepthOver;
    var rest := a[1..];
    if rest == [] {
      assert a == [a[0]];
      PrettyHead(a[0], b, depth);
      OneToken(a[0], depth);
    } else {
      var inner := depth + Turn(a[0]);
      HeadAndRest(a, b);
      PrettyHead(a[0], rest + b, depth);
      PrettyHead(a[0], rest, depth);
      PrettyAppend(rest, b, inner);
      Splice(a[0], Gap(a[0], rest[0], inner), Pretty(rest, inner),
             Gap(rest[|rest| - 1], b[0], DepthOver(rest, inner)) + Pretty(b, DepthOver(rest, inner)));
    }
  }

  lemma HeadAndRest(a: seq<Bytes>, b: seq<Bytes>)
    requires |a| > 1
    ensures var rest := a[1..];
      && a == [a[0]] + rest && a + b == [a[0]] + (rest + b)
      && rest[|rest| - 1] == a[|a| - 1] && (rest + b)[0] == rest[0]
  {
  }

  lemma Splice(t: Bytes, gap: Bytes, text: Bytes, more: Bytes)
    ensures t + (gap + text) + more == t + (gap + (text + more))
  {
  }

  // ---- Compact text ----

  /** The compact text is the tokens and nothing else. */
  lemma {:induction false} CompactText(lib: Lib, v: Value, level: nat)
    ensures Print(lib, v, level, false) == Compact(TokensOf(lib, v))
    decreases v, 1
  {
    match v
    case Arr(items, _) =>
      CompactItems(lib, items, level);
      CompactAppend([[LBRACKET]], ItemTokens(lib, items));
      CompactOne([LBRACKET]);
    case Obj(ms, _) =>
      CompactMembers(lib, ms, level);
      CompactAppend([[LBRACE]], MemberTokens(lib, ms));
      CompactOne([LBRACE]);
    case _ => CompactOne(TokensOf(lib, v)[0]);
  }

  lemma CommaText(last: bool)
    ensures Compact(CommaToken(last)) == AfterElement(last, false)
  {
    CompactOne([COMMA]);
  }

  lemma {:induction false} CompactItems(lib: Lib, items: seq<Value>, level: nat)
    ensures PrintItems(lib, items, level, false) == Compact(ItemTokens(lib, items))
    decreases items, 0
  {
    hide Compact, AfterElement, Print, TokensOf, Indent;
    if items == [] {
      CompactOne([RBRACKET]);
    } else {
      var comma, more := CommaToken(|items| == 1), ItemTokens(lib, items[1..]);
      CompactText(lib, items[0], level + 1);
      CompactItems(lib, items[1..], level);
      CommaText(|items| == 1);
      CompactAppend(TokensOf(lib, items[0]), comma + more);
      CompactAppend(comma, more);
    }
  }

  lemma CompactName(name: Bytes, level: nat, body: Bytes, after: Bytes, rest: Bytes)
    ensures Compact([Quoted(name), [COLON]]) == PrintName(name, false)
    ensures IfPretty(false, Indent(level)) + PrintName(name, false) + (body + after) + rest
      == PrintName(name, false) + (body + (after + rest))
  {
    hide Quoted, Compact;
    CompactOne(Quoted(name));
    CompactOne([COLON]);
    assert [Quoted(name), [COLON]] == [Quoted(name)] + [[COLON]];
    CompactAppend([Quoted(name)], [[COLON]]);
  }

  lemma {:induction false} CompactMembers(lib: Lib, ms: seq<Member<Value>>, level: nat)
    ensures PrintMembers(lib, ms, level, false) == Compact(MemberTokens(lib, ms))
    decreases ms, 0
  {
    hide *;
    if ms == [] {
      NoMembers(lib, level, false);
      CompactOne([RBRACE]);
      NoIndent(level, [RBRACE]);
    } else {
      var comma, more := CommaToken(|ms| == 1), MemberTokens(lib, ms[1..]);
      var name, value := [Quoted(ms[0].name), [COLON]], TokensOf(lib, ms[0].value);
      MembersText(lib, ms, level, false);
      CompactName(ms[0].name, level + 1, Print(lib, ms[0].value, level + 1, false), AfterElement(|ms| == 1, false),
                  PrintMembers(lib, ms[1..], level, false));
      CompactText(lib, ms[0].value, level + 1);
      CompactMembers(lib, ms[1..], level);
      CommaText(|ms| == 1);
      CompactAppend(name, value + (comma + more));
      CompactAppend(value, comma + more);
      CompactAppend(comma, more);
    }
  }

  lemma NoIndent(level: nat, t: Bytes)
    ensures IfPretty(false, Indent(level)) + t == t
  {
  }

  // ---- Pretty text ----

  /** A token that is neither a bracket nor a separator. */
  predicate Inner(t: Bytes) {
    !Opens(t) && !Closes(t) && t != [COMMA] && t != [COLON]
  }

  /** A run of tokens that begins and ends as a value does, and closes what it opens. */
  ghost predicate Whole(ts: seq<Bytes>, depth: int) {
    && ts != [] && DepthOver(ts, depth) == depth
    && (Inner(ts[0]) || Opens(ts[0])) && (Inner(ts[|ts| - 1]) || Closes(ts[|ts| - 1]))
  }

  lemma IndentIs(level: nat)
    ensures [NEWLINE] + Indent(level) == LineAt(level)
  {
  }

  lemma ScalarIsInner(lib: Lib, v: Value)
    requires lib.Valid() && !v.Arr? && !v.Obj?
    ensures |TokensOf(lib, v)| == 1 && Inner(TokensOf(lib, v)[0])
  {
    hide Quoted;
    if v.Num? {
      var t := NumberText(lib, v.x);
      assert t != [] && (IsDigit(t[0]) || t[0] == MINUS);
    }
  }

  lemma QuotedIsInner(t: Bytes)
    ensures Inner(Quoted(t))
  {
    hide Escape;
    assert Quoted(t)[0] == QUOTE;
  }

  /** The pretty text of a value is its tokens, laid out by the walk. */
  lemma {:induction false} PrettyText(lib: Lib, v: Value, level: nat)
    requires lib.Valid()
    ensures Print(lib, v, level, true) == Pretty(TokensOf(lib, v), level)
    ensures Whole(TokensOf(lib, v), level)
    decreases v, 1
  {
    hide Lib.Valid, Inner, Pretty, Whole, PrintItems, PrintMembers, ItemTokens, MemberTokens, Quoted;
    match v
    case Arr(items, _) => PrettyArray(lib, items, level);
    case Obj(ms, _) => PrettyObject(lib, ms, level);
    case _ =>
      ScalarIsInner(lib, v);
      OneIsWhole(TokensOf(lib, v)[0], level);
  }

  lemma OneIsWhole(t: Bytes, depth: int)
    requires Inner(t)
    ensures Whole([t], depth) && Pretty([t], depth) == t
  {
    OneToken(t, depth);
  }

  /** The rest of a container: it begins as an element does, and closes the container. */
  ghost predicate Rest(ts: seq<Bytes>, depth: int) {
    ts != [] && (Inner(ts[0]) || Opens(ts[0])) && Closes(ts[|ts| - 1]) && DepthOver(ts, depth) == depth - 1
  }

  lemma NoGaps(t: Bytes, depth: int)
    requires Inner(t) || Closes(t)
    ensures Gap(t, [COMMA], depth) == [] && Gap(t, [COLON], depth) == []
  {
  }

  /** The last element of a container, and its closing bracket. */
  lemma LastElement(ts: seq<Bytes>, close: Bytes, level: nat)
    requires Whole(ts, level + 1) && Closes(close)
    ensures Pretty(ts + [close], level + 1) == Pretty(ts, level + 1) + ([NEWLINE] + (Indent(level) + close))
    ensures Rest(ts + [close], level + 1)
  {
    hide Indent, Pretty;
    PrettyAppend(ts, [close], level + 1);
    DepthAppend(ts, [close], level + 1);
    OneToken(close, level + 1);
    IndentIs(level);
    AppendAssociates([NEWLINE], Indent(level), close);
    assert (ts + [close])[0] == ts[0];
  }

  /** An element with another one after it. */
  lemma NextElement(ts: seq<Bytes>, more: seq<Bytes>, level: nat)
    requires Whole(ts, level + 1) && Rest(more, level + 1)
    ensures Pretty(ts + ([[COMMA]] + more), level + 1)
      == Pretty(ts, level + 1) + ([COMMA] + [NEWLINE] + (Indent(level + 1) + Pretty(more, level + 1)))
    ensures Rest(ts + ([[COMMA]] + more), level + 1)
  {
    hide Indent, Pretty;
    var rest := [[COMMA]] + more;
    PrettyAppend(ts, rest, level + 1);
    DepthAppend(ts, rest, level + 1);
    PrettyHead([COMMA], more, level + 1);
    NoGaps(ts[|ts| - 1], level + 1);
    IndentIs(level + 1);
    var text := Pretty(more, level + 1);
    AppendAssociates([NEWLINE], Indent(level + 1), text);
    AppendAssociates([COMMA], [NEWLINE], Indent(level + 1) + text);
    assert [] + Pretty(rest, level + 1) == Pretty(rest, level + 1);
    assert (ts + rest)[0] == ts[0] && (ts + rest)[|ts + rest| - 1] == more[|more| - 1];
  }

  /** A container that is not empty. */
  lemma Opening(open: Bytes, ts: seq<Bytes>, level: nat)
    requires Opens(open) && Rest(ts, level + 1)
    ensures Pretty([open] + ts, level) == open + [NEWLINE] + (Indent(level + 1) + Pretty(ts, level + 1))
    ensures Whole([open] + ts, level)
  {
    hide Indent, Pretty;
    PrettyHead(open, ts, level);
    IndentIs(level + 1);
    AppendAssociates([NEWLINE], Indent(level + 1), Pretty(ts, level + 1));
    AppendAssociates(open, [NEWLINE], Indent(level + 1) + Pretty(ts, level + 1));
    assert ([open] + ts)[|ts|] == ts[|ts| - 1];
  }

  lemma EmptyContainer(open: Bytes, close: Bytes, level: nat)
    requires Opens(open) && Closes(close)
    ensures Pretty([open] + [close], level) == open + close && Whole([open] + [close], level)
  {
    PrettyHead(open, [close], level);
    OneToken(close, level + 1);
  }

  lemma {:induction false} PrettyArray(lib: Lib, items: seq<Value>, level: nat)
    requires lib.Valid()
    ensures Print(lib, Arr(items, 0), level, true) == Pretty([[LBRACKET]] + ItemTokens(lib, items), level)
    ensures Whole([[LBRACKET]] + ItemTokens(lib, items), level)
    decreases items, 2
  {
    hide Lib.Valid, Pretty, Whole, PrintItems, Indent, Rest;
    if items == [] {
      EmptyContainer([LBRACKET], [RBRACKET], level);
    } else {
      hide ItemTokens;
      PrettyItems(lib, items, level);
      Opening([LBRACKET], ItemTokens(lib, items), level);
    }
  }

  lemma ItemsText(lib: Lib, items: seq<Value>, level: nat)
    requires items != []
    ensures PrintItems(lib, items, level, true)
      == Indent(level + 1) + Print(lib, items[0], level + 1, true) + AfterElement(|items| == 1, true)
         + PrintItems(lib, items[1..], level, true)
    ensures |items| == 1 ==>
      && AfterElement(true, true) == [NEWLINE]
      && PrintItems(lib, items[1..], level, true) == Indent(level) + [RBRACKET]
      && ItemTokens(lib, items) == TokensOf(lib, items[0]) + [[RBRACKET]]
    ensures |items| > 1 ==>
      && AfterElement(false, true) == [COMMA] + [NEWLINE]
      && ItemTokens(lib, items) == TokensOf(lib, items[0]) + ([[COMMA]] + ItemTokens(lib, items[1..]))
  {
    hide Print, TokensOf, Indent;
    if |items| == 1 {
      assert items[1..] == [] && [] + [[RBRACKET]] == [[RBRACKET]] && [] + [NEWLINE] == [NEWLINE];
    }
  }

  lemma Regroup(a: Bytes, b: Bytes, c: Bytes, d: Bytes)
    ensures a + b + c + d == a + (b + (c + d))
  {
  }

  lemma {:induction false} PrettyItems(lib: Lib, items: seq<Value>, level: nat)
    requires lib.Valid() && items != []
    ensures PrintItems(lib, items, level, true) == Indent(level + 1) + Pretty(ItemTokens(lib, items), level + 1)
    ensures Rest(ItemTokens(lib, items), level + 1)
    decreases items, 0
  {
    hide *;
    var rest := PrintItems(lib, items[1..], level, true);
    ItemsText(lib, items, level);
    PrettyText(lib, items[0], level + 1);
    Regroup(Indent(level + 1), Print(lib, items[0], level + 1, true), AfterElement(|items| == 1, true), rest);
    if |items| == 1 {
      BracketsClose();
      LastElement(TokensOf(lib, items[0]), [RBRACKET], level);
    } else {
      PrettyItems(lib, items[1..], level);
      NextElement(TokensOf(lib, items[0]), ItemTokens(lib, items[1..]), level);
    }
  }

  lemma BracketsClose()
    ensures Closes([RBRACKET]) && Closes([RBRACE]) && Opens([LBRACE]) && Opens([LBRACKET])
  {
  }

  lemma {:induction false} PrettyObject(lib: Lib, ms: seq<Member<Value>>, level: nat)
    requires lib.Valid()
    ensures Print(lib, Obj(ms, 0), level, true) == Pretty([[LBRACE]] + MemberTokens(lib, ms), level)
    ensures Whole([[LBRACE]] + MemberTokens(lib, ms), level)
    decreases ms, 2
  {
    hide Lib.Valid, Pretty, Whole, PrintMembers, Indent, Rest;
    if ms == [] {
      EmptyContainer([LBRACE], [RBRACE], level);
    } else {
      hide MemberTokens;
      PrettyMembers(lib, ms, level);
      Opening([LBRACE], MemberTokens(lib, ms), level);
    }
  }

  /** A name, its colon, and one blank. */
  lemma NamedElement(name: Bytes, ts: seq<Bytes>, depth: int)
    requires Whole(ts, depth)
    ensures Pretty([Quoted(name), [COLON]] + ts, depth) == PrintName(name, true) + Pretty(ts, depth)
    ensures Whole([Quoted(name), [COLON]] + ts, depth)
  {
    hide Quoted, Pretty;
    QuotedIsInner(name);
    var pair := [[COLON]] + ts;
    assert [Quoted(name), [COLON]] + ts == [Quoted(name)] + pair;
    PrettyHead(Quoted(name), pair, depth);
    PrettyHead([COLON], ts, depth);
    NoGaps(Quoted(name), depth);
    assert [] + Pretty(pair, depth) == Pretty(pair, depth);
    AppendAssociates([COLON], [SPACE], Pretty(ts, depth));
    AppendAssociates(Quoted(name), [COLON] + [SPACE], Pretty(ts, depth));
    assert ([Quoted(name)] + pair)[|pair|] == ts[|ts| - 1];
  }

  lemma MembersEnd(lib: Lib, ms: seq<Member<Value>>, level: nat)
    requires ms != []
    ensures var element := [Quoted(ms[0].name), [COLON]] + TokensOf(lib, ms[0].value);
      && (|ms| == 1 ==>
            && AfterElement(true, true) == [NEWLINE]
            && PrintMembers(lib, ms[1..], level, true) == Indent(level) + [RBRACE]
            && MemberTokens(lib, ms) == element + [[RBRACE]])
      && (|ms| > 1 ==>
            && AfterElement(false, true) == [COMMA] + [NEWLINE]
            && MemberTokens(lib, ms) == element + ([[COMMA]] + MemberTokens(lib, ms[1..])))
  {
    hide Print, TokensOf, Indent, Quoted;
    var name, value := [Quoted(ms[0].name), [COLON]], TokensOf(lib, ms[0].value);
    AppendAssociates(name, value, CommaToken(|ms| == 1) + MemberTokens(lib, ms[1..]));
    if |ms| == 1 {
      assert ms[1..] == [] && [] + [[RBRACE]] == [[RBRACE]] && [] + [NEWLINE] == [NEWLINE];
    }
  }

  lemma RegroupMember(indent: Bytes, name: Bytes, body: Bytes, after: Bytes, rest: Bytes)
    ensures IfPretty(true, indent) + name + (body + after) + rest == indent + (name + body + (after + rest))
  {
  }

  lemma {:induction false} PrettyMembers(lib: Lib, ms: seq<Member<Value>>, level: nat)
    requires lib.Valid() && ms != []
    ensures PrintMembers(lib, ms, level, true) == Indent(level + 1) + Pretty(MemberTokens(lib, ms), level + 1)
    ensures Rest(MemberTokens(lib, ms), level + 1)
    decreases ms, 0
  {
    hide *;
    var element := [Quoted(ms[0].name), [COLON]] + TokensOf(lib, ms[0].value);
    MembersText(lib, ms, level, true);
    MembersEnd(lib, ms, level);
    PrettyText(lib, ms[0].value, level + 1);
    NamedElement(ms[0].name, TokensOf(lib, ms[0].value), level + 1);
    RegroupMember(Indent(level + 1), PrintName(ms[0].name, true), Print(lib, ms[0].value, level + 1, true),
                  AfterElement(|ms| == 1, true), PrintMembers(lib, ms[1..], level, true));
    if |ms| == 1 {
      BracketsClose();
      LastElement(element, [RBRACE], level);
    } else {
      PrettyMembers(lib, ms[1..], level);
      NextElement(element, MemberTokens(lib, ms[1..]), level);
    }
  }

  /** The integers of C's int and unsigned int are printed in decimal, every other number by "%f". */
  lemma NumbersInText(lib: Lib, x: real, n: int)
    ensures x == n as real && -2_147_483_648 <= n <= 4_294_967_295 ==> NumberText(lib, x) == Decimal(n)
    ensures x != x.Floor as real || x < -2_147_483_648.0 || x > 4_294_967_295.0 ==> NumberText(lib, x) == lib.formatF(x)
  {
  }

  /** Both texts of a value: its tokens run together, and its tokens as the walk lays them out from depth zero. */
  lemma TextLayout(lib: Lib, v: Value)
    requires lib.Valid()
    ensures Print(lib, v, 0, false) == Compact(TokensOf(lib, v))
    ensures Print(lib, v, 0, true) == Pretty(TokensOf(lib, v), 0)
  {
    CompactText(lib, v, 0);
    PrettyText(lib, v, 0);
  }
}
