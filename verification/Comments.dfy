/** Comment removal, which overwrites comments with spaces, and why it leaves printed values alone. */
module Comments {
  import opened CText
  import opened Numbers
  import opened Values
  import opened StringCodec
  import opened Printer
  import opened Parser
  import opened Tokens
  import opened RoundTrip
  import opened Texts
  import ParserCode

  const OPEN_BLOCK: Bytes := [47, 42]
  const CLOSE_BLOCK: Bytes := [42, 47]
  const OPEN_LINE: Bytes := [47, 47]
  const CLOSE_LINE: Bytes := [NEWLINE]

  function Blanks(n: nat): (t: Bytes)
    ensures |t| == n && forall i :: 0 <= i < n ==> t[i] == SPACE
  {
    seq(n, _ => SPACE)
  }

  /** strstr */
  function Find(t: Bytes, token: Bytes): (r: Option<nat>)
    ensures r.Some? ==> r.value + |token| <= |t| && t[r.value..r.value + |token|] == token
  {
    if token <= t then Some(0)
    else if t == [] then None
    else
      match Find(t[1..], token)
      case None => None
      case Some(k) =>
        SliceOfTail(t, k, |token|);
        Some(k + 1)
  }

  lemma SliceOfTail(t: Bytes, k: nat, n: nat)
    requires k + 1 + n <= |t|
    ensures t[k + 1..k + 1 + n] == t[1..][k..k + n]
  {
    var a, b := t[k + 1..k + 1 + n], t[1..][k..k + n];
    forall i | 0 <= i < n
      ensures a[i] == b[i]
    {
    }
    assert a == b;
  }

  /** What remove_comments leaves of the rest of a text, by its two flags. */
  function Strip(t: Bytes, inString: bool, escaped: bool, open: Bytes, close: Bytes): (r: Bytes)
    requires open != [] && close != []
    ensures |r| == |t|
    decreases |t|
  {
    if t == [] then []
    else if t[0] == BACKSLASH && !escaped then [t[0]] + Strip(t[1..], inString, true, open, close)
    else if t[0] == QUOTE && !escaped then [t[0]] + Strip(t[1..], !inString, false, open, close)
    else if !inString && open <= t then
      match Find(t[|open|..], close)
      case None => Blanks(|open|) + t[|open|..]
      case Some(k) => Blanks(|open| + k + |close|) + Strip(t[|open| + k + |close|..], inString, false, open, close)
    else [t[0]] + Strip(t[1..], inString, false, open, close)
  }

  /** The state of the loop: what is done is final, and the rest is still the original text `t`. */
  ghost predicate Progress(now: Bytes, t: Bytes, p: nat, inString: bool, escaped: bool, open: Bytes, close: Bytes)
    requires open != [] && close != []
  {
    && |now| == |t| + 1 && p <= |t| && now[p..] == t[p..] + [0]
    && now[..p] + Strip(t[p..], inString, escaped, open, close) == Strip(t, false, false, open, close)
  }

  lemma ProgressByte(now: Bytes, t: Bytes, p: nat, inString: bool, escaped: bool, open: Bytes, close: Bytes)
    requires open != [] && close != [] && NulFree(t) && NulFree(open)
    requires p < |now| && p <= |t| && Progress(now, t, p, inString, escaped, open, close)
    ensures now[p] == 0 <==> p == |t|
    ensures p < |t| && now[p] == BACKSLASH && !escaped ==> Progress(now, t, p + 1, inString, true, open, close)
    ensures p < |t| && now[p] == QUOTE && !escaped ==> Progress(now, t, p + 1, !inString, false, open, close)
    ensures p < |t| && ((now[p] != BACKSLASH && now[p] != QUOTE) || escaped) && (inString || !Holds(now, p, open)) ==>
      Progress(now, t, p + 1, inString, false, open, close)
  {
    assert now[p] == now[p..][0];
    if p < |t| {
      assert t[p..][1..] == t[p + 1..] && t[p..][0] == t[p] == now[p];
      assert now[..p + 1] == now[..p] + [t[p]];
      assert now[p + 1..] == now[p..][1..];
      TokenSeen(now, t, p, open);
      AppendAssociates(now[..p], [t[p]], Strip(t[p + 1..], inString, true, open, close));
      AppendAssociates(now[..p], [t[p]], Strip(t[p + 1..], !inString, false, open, close));
      AppendAssociates(now[..p], [t[p]], Strip(t[p + 1..], inString, false, open, close));
    }
  }

  lemma TokenSeen(now: Bytes, t: Bytes, p: nat, open: Bytes)
    requires |now| == |t| + 1 && p <= |t| && now[p..] == t[p..] + [0] && NulFree(open)
    ensures Holds(now, p, open) <==> open <= t[p..]
  {
    if Holds(now, p, open) {
      assert now[p..][..|open|] == open;
      if |open| > 0 {
        assert now[p..][|open| - 1] == open[|open| - 1];
      }
      assert t[p..][..|open|] == open;
    }
    if open <= t[p..] {
      assert now[p..p + |open|] == now[p..][..|open|] == t[p..][..|open|];
    }
  }

  /** What Strip makes of a comment that starts the rest of the text. */
  lemma StripComment(t: Bytes, p: nat, escaped: bool, open: Bytes, close: Bytes)
    requires open != [] && close != [] && p < |t| && open <= t[p..]
    requires (t[p] != BACKSLASH && t[p] != QUOTE) || escaped
    ensures p + |open| <= |t|
    ensures var k := Find(t[p + |open|..], close); k.None? ==>
      Strip(t[p..], false, escaped, open, close) == Blanks(|open|) + t[p + |open|..]
    ensures var k := Find(t[p + |open|..], close); k.Some? ==>
      && p + |open| + k.value + |close| <= |t|
      && Strip(t[p..], false, escaped, open, close)
         == Blanks(|open| + k.value + |close|) + Strip(t[p + |open| + k.value + |close|..], false, false, open, close)
  {
    var rest := t[p..];
    assert rest[0] == t[p];
    assert rest[|open|..] == t[p + |open|..];
    var k := Find(t[p + |open|..], close);
    if k.Some? {
      assert rest[|open| + k.value + |close|..] == t[p + |open| + k.value + |close|..];
    }
  }

  lemma ProgressComment(was: Bytes, now: Bytes, t: Bytes, p: nat, escaped: bool, next: nat, open: Bytes, close: Bytes)
    requires open != [] && close != [] && p < next <= |t| && Progress(was, t, p, false, escaped, open, close)
    requires Strip(t[p..], false, escaped, open, close)
      == Blanks(next - p) + Strip(t[next..], false, false, open, close)
    requires now == was[..p] + Blanks(next - p) + t[next..] + [0]
    ensures Progress(now, t, next, false, false, open, close)
  {
  }

  /** remove_comments */
  method RemoveComments(buffer: array<byte>, open: Bytes, close: Bytes)
    requires Terminated(buffer[..]) && NulFree(open) && NulFree(close)
    modifies buffer
    ensures open == [] || close == [] ==> buffer[..] == old(buffer[..])
    ensures open != [] && close != [] ==>
      buffer[..] == Strip(old(buffer[..buffer.Length - 1]), false, false, open, close) + [0]
  {
    hide Strip, Progress, Holds, Find;
    if |open| == 0 || |close| == 0 {
      return;
    }
    ghost var t := buffer[..buffer.Length - 1];
    ProgressStart(t, open, close);
    assert buffer[..] == t + [0];
    var inString, escaped, p := false, false, 0;
    while buffer[p] != 0
      invariant 0 <= p <= |t| && |t| == buffer.Length - 1
      invariant Progress(buffer[..], t, p, inString, escaped, open, close)
      decreases buffer.Length - p
    {
      ProgressByte(buffer[..], t, p, inString, escaped, open, close);
      if buffer[p] == BACKSLASH && !escaped {
        escaped := true;
        p := p + 1;
        continue;
      } else if buffer[p] == QUOTE && !escaped {
        inString := !inString;
      } else if !inString && Holds(buffer[..], p, open) {
        var ended, next := BlankComment(buffer, t, p, escaped, open, close);
        if ended {
          return;
        }
        p := next - 1;
      }
      escaped := false;
      p := p + 1;
    }
    ProgressByte(buffer[..], t, p, inString, escaped, open, close);
    ProgressEnd(buffer[..], t, inString, escaped, open, close);
  }

  /** The branch of the loop that meets a comment. */
  method BlankComment(buffer: array<byte>, ghost t: Bytes, p: nat, ghost escaped: bool, open: Bytes, close: Bytes)
    returns (ended: bool, next: nat)
    requires open != [] && close != [] && NulFree(open) && p < |t| && |t| == buffer.Length - 1
    requires Progress(buffer[..], t, p, false, escaped, open, close) && Holds(buffer[..], p, open)
    requires (buffer[p] != BACKSLASH && buffer[p] != QUOTE) || escaped
    modifies buffer
    ensures ended ==> buffer[..] == Strip(t, false, false, open, close) + [0]
    ensures !ended ==> p < next <= |t| && Progress(buffer[..], t, next, false, false, open, close)
  {
    hide Strip, Progress, Find;
    ghost var was := buffer[..];
    ProgressRest(was, t, p, escaped, open, close);
    TokenSeen(was, t, p, open);
    StripComment(t, p, escaped, open, close);
    SliceRest(was, t, p, |open|);
    var found := Find(buffer[p + |open|..buffer.Length - 1], close);
    Overwrite(buffer, p, |open|);
    if found.None? {
      UnendedComment(was, t, p, escaped, open, close);
      return true, p;
    }
    next := p + |open| + found.value + |close|;
    ghost var mid := buffer[..];
    Overwrite(buffer, p + |open|, next - (p + |open|));
    TwoBlanks(was, mid, t, p, |open|, next);
    ProgressComment(was, buffer[..], t, p, escaped, next, open, close);
    return false, next;
  }

  lemma ProgressRest(now: Bytes, t: Bytes, p: nat, escaped: bool, open: Bytes, close: Bytes)
    requires open != [] && close != [] && Progress(now, t, p, false, escaped, open, close)
    ensures |now| == |t| + 1 && p <= |t| && now[p..] == t[p..] + [0]
    ensures p < |t| ==> now[p] == t[p]
  {
  }

  lemma SliceRest(now: Bytes, t: Bytes, p: nat, n: nat)
    requires |now| == |t| + 1 && p + n <= |t| && now[p..] == t[p..] + [0]
    ensures now[p + n..|t|] == t[p + n..] && now[p + n..] == t[p + n..] + [0]
  {
  }

  lemma UnendedComment(was: Bytes, t: Bytes, p: nat, escaped: bool, open: Bytes, close: Bytes)
    requires open != [] && close != [] && Progress(was, t, p, false, escaped, open, close) && p + |open| <= |t|
    requires Strip(t[p..], false, escaped, open, close) == Blanks(|open|) + t[p + |open|..]
    ensures was[..p] + Blanks(|open|) + was[p + |open|..] == Strip(t, false, false, open, close) + [0]
  {
  }

  lemma TwoBlanks(was: Bytes, mid: Bytes, t: Bytes, p: nat, n: nat, next: nat)
    requires |was| == |t| + 1 && p + n <= next <= |t| && was[p..] == t[p..] + [0]
    requires mid == was[..p] + Blanks(n) + was[p + n..]
    ensures mid[..p + n] + Blanks(next - (p + n)) + mid[next..] == was[..p] + Blanks(next - p) + t[next..] + [0]
  {
  }

  lemma ProgressStart(t: Bytes, open: Bytes, close: Bytes)
    requires open != [] && close != []
    ensures Progress(t + [0], t, 0, false, false, open, close)
  {
  }

  lemma ProgressEnd(now: Bytes, t: Bytes, inString: bool, escaped: bool, open: Bytes, close: Bytes)
    requires open != [] && close != [] && Progress(now, t, |t|, inString, escaped, open, close)
    ensures now == Strip(t, false, false, open, close) + [0]
  {
  }

  method Overwrite(buffer: array<byte>, from: nat, n: nat)
    requires from + n <= buffer.Length
    modifies buffer
    ensures buffer[..] == old(buffer[..from]) + Blanks(n) + old(buffer[from + n..])
  {
    var i := 0;
    while i < n
      invariant 0 <= i <= n
      invariant buffer[..] == old(buffer[..from]) + Blanks(i) + old(buffer[from + i..])
    {
      buffer[from + i] := SPACE;
      i := i + 1;
    }
  }

  // ---- Printed values have no comments ----

  /** The two flags of the loop, or a '/' met outside every string. */
  datatype Scanned = Flags(inString: bool, escaped: bool) | SlashOutside

  function Scan(t: Bytes, st: Scanned): Scanned
    decreases |t|
  {
    if t == [] || st.SlashOutside? then st
    else if t[0] == BACKSLASH && !st.escaped then Scan(t[1..], Flags(st.inString, true))
    else if t[0] == QUOTE && !st.escaped then Scan(t[1..], Flags(!st.inString, false))
    else if t[0] == SLASH && !st.inString then SlashOutside
    else Scan(t[1..], Flags(st.inString, false))
  }

  /** Without a '/' outside strings nothing is overwritten. */
  lemma {:induction false} ScannedIsKept(t: Bytes, inString: bool, escaped: bool, open: Bytes, close: Bytes)
    requires open != [] && close != [] && open[0] == SLASH
    requires Scan(t, Flags(inString, escaped)).Flags?
    ensures Strip(t, inString, escaped, open, close) == t
    decreases |t|
  {
    if t == [] {
    } else {
      assert [t[0]] + t[1..] == t;
      if t[0] == BACKSLASH && !escaped {
        ScannedIsKept(t[1..], inString, true, open, close);
      } else if t[0] == QUOTE && !escaped {
        ScannedIsKept(t[1..], !inString, false, open, close);
      } else {
        ScannedIsKept(t[1..], inString, false, open, close);
      }
    }
  }

  lemma {:induction false} ScanAppend(a: Bytes, b: Bytes, st: Scanned)
    ensures Scan(a + b, st) == Scan(b, Scan(a, st))
    decreases |a|
  {
    if a == [] {
      assert a + b == b;
    } else if st.Flags? {
      assert (a + b)[1..] == a[1..] + b && (a + b)[0] == a[0];
      ScanAppend(a[1..], b, Flags(st.inString, true));
      ScanAppend(a[1..], b, Flags(!st.inString, false));
      ScanAppend(a[1..], b, Flags(st.inString, false));
    } else if b != [] {
      assert a + b != [];
    }
  }

  const OUTSIDE: Scanned := Flags(false, false)
  const INSIDE: Scanned := Flags(true, false)

  /** A text that starts and ends outside strings, with no '/' outside them. */
  ghost predicate Neutral(t: Bytes) {
    Scan(t, OUTSIDE) == OUTSIDE
  }

  lemma NeutralAppend(a: Bytes, b: Bytes)
    requires Neutral(a) && Neutral(b)
    ensures Neutral(a + b)
  {
    ScanAppend(a, b, OUTSIDE);
  }

  lemma {:induction false} NeutralPlain(t: Bytes)
    requires forall i :: 0 <= i < |t| ==> t[i] != QUOTE && t[i] != BACKSLASH && t[i] != SLASH
    ensures Neutral(t)
    decreases |t|
  {
    if t == [] {
    } else {
      NeutralPlain(t[1..]);
    }
  }

  lemma EscapeByteInside(c: byte)
    ensures Scan(EscapeByte(c), INSIDE) == INSIDE
  {
    var t := EscapeByte(c);
    if |t| == 2 {
      assert t == [BACKSLASH, t[1]];
      ScanPair(t[1]);
    } else if |t| == 6 {
      var x, y := t[4], t[5];
      assert t == [BACKSLASH, 117] + [48, 48, x, y];
      ScanAppend([BACKSLASH, 117], [48, 48, x, y], INSIDE);
      ScanPair(117);
      ScanDigits(x, y);
    }
  }

  lemma ScanPair(x: byte)
    ensures Scan([BACKSLASH, x], INSIDE) == INSIDE
  {
    assert [BACKSLASH, x][1..] == [x] && [x][1..] == [];
    assert Scan([x], Flags(true, true)) == Scan([], INSIDE);
  }

  lemma ScanDigits(x: byte, y: byte)
    requires x != QUOTE && x != BACKSLASH && y != QUOTE && y != BACKSLASH
    ensures Scan([48, 48, x, y], INSIDE) == INSIDE
  {
    assert [48, 48, x, y][1..] == [48, x, y] && [48, x, y][1..] == [x, y] && [x, y][1..] == [y] && [y][1..] == [];
    assert Scan([y], INSIDE) == INSIDE;
    assert Scan([x, y], INSIDE) == INSIDE;
    assert Scan([48, x, y], INSIDE) == INSIDE;
  }

  lemma {:induction false} EscapeInside(t: Bytes)
    ensures Scan(Escape(t), INSIDE) == INSIDE
  {
    if t == [] {
    } else {
      EscapeByteInside(t[0]);
      EscapeInside(t[1..]);
      ScanAppend(EscapeByte(t[0]), Escape(t[1..]), INSIDE);
    }
  }

  lemma NeutralQuoted(t: Bytes)
    ensures Neutral(Quoted(t))
  {
    EscapeInside(t);
    ScanAppend([QUOTE] + Escape(t), [QUOTE], OUTSIDE);
    ScanAppend([QUOTE], Escape(t), OUTSIDE);
    assert Scan([QUOTE], OUTSIDE) == INSIDE && Scan([QUOTE], INSIDE) == OUTSIDE;
  }

  lemma NeutralLayout(level: nat, last: bool, pretty: bool, close: byte)
    requires close == RBRACKET || close == RBRACE
    ensures Neutral(IfPretty(pretty, Indent(level))) && Neutral(AfterElement(last, pretty))
    ensures Neutral(IfPretty(pretty, Indent(level)) + [close]) && Neutral([COLON] + IfPretty(pretty, [SPACE]))
  {
    NeutralPlain(IfPretty(pretty, Indent(level)));
    NeutralPlain(AfterElement(last, pretty));
    NeutralPlain(IfPretty(pretty, Indent(level)) + [close]);
    NeutralPlain([COLON] + IfPretty(pretty, [SPACE]));
  }

  lemma {:induction false} PrintNeutral(lib: Lib, v: Value, level: nat, pretty: bool)
    requires lib.Valid()
    ensures Neutral(Print(lib, v, level, pretty))
    decreases v, 1
  {
    match v
    case Str(t) => NeutralQuoted(t);
    case Arr(items, _) =>
      ItemsNeutral(lib, items, level, pretty);
      BracketNeutral(LBRACKET, RBRACKET, pretty, PrintItems(lib, items, level, pretty));
    case Obj(ms, _) =>
      MembersNeutral(lib, ms, level, pretty);
      BracketNeutral(LBRACE, RBRACE, pretty, PrintMembers(lib, ms, level, pretty));
    case _ => NeutralPlain(Print(lib, v, level, pretty));
  }

  lemma BracketNeutral(open: byte, close: byte, pretty: bool, body: Bytes)
    requires Neutral(body) && open >= LBRACKET && close > BACKSLASH && open != BACKSLASH
    ensures Neutral([open] + IfPretty(pretty, [NEWLINE]) + body) && Neutral([open, close])
  {
    NeutralPlain([open] + IfPretty(pretty, [NEWLINE]));
    NeutralAppend([open] + IfPretty(pretty, [NEWLINE]), body);
    NeutralPlain([open, close]);
  }

  lemma {:induction false} ItemsNeutral(lib: Lib, items: seq<Value>, level: nat, pretty: bool)
    requires lib.Valid()
    ensures Neutral(PrintItems(lib, items, level, pretty))
    decreases items, 0
  {
    hide Print, Neutral, Indent, AfterElement;
    NeutralLayout(level, |items| == 1, pretty, RBRACKET);
    if items == [] {
    } else {
      NeutralLayout(level + 1, |items| == 1, pretty, RBRACKET);
      PrintNeutral(lib, items[0], level + 1, pretty);
      ItemsNeutral(lib, items[1..], level, pretty);
      var indent, body := IfPretty(pretty, Indent(level + 1)), Print(lib, items[0], level + 1, pretty);
      NeutralAppend(indent, body);
      NeutralAppend(indent + body, AfterElement(|items| == 1, pretty));
      NeutralAppend(PrintItem(lib, items[0], |items| == 1, level, pretty), PrintItems(lib, items[1..], level, pretty));
    }
  }

  lemma {:induction false} MembersNeutral(lib: Lib, ms: seq<Member<Value>>, level: nat, pretty: bool)
    requires lib.Valid()
    ensures Neutral(PrintMembers(lib, ms, level, pretty))
    decreases ms, 0
  {
    hide Print, Neutral, Indent, AfterElement, Quoted;
    NeutralLayout(level, |ms| == 1, pretty, RBRACE);
    if ms == [] {
    } else {
      NeutralLayout(level + 1, |ms| == 1, pretty, RBRACE);
      PrintNeutral(lib, ms[0].value, level + 1, pretty);
      MembersNeutral(lib, ms[1..], level, pretty);
      NeutralQuoted(ms[0].name);
      var indent, body := IfPretty(pretty, Indent(level + 1)), Print(lib, ms[0].value, level + 1, pretty);
      var after := AfterElement(|ms| == 1, pretty);
      NeutralAppend(Quoted(ms[0].name), [COLON] + IfPretty(pretty, [SPACE]));
      NeutralAppend(indent, PrintName(ms[0].name, pretty));
      NeutralAppend(body, after);
      NeutralAppend(indent + PrintName(ms[0].name, pretty), body + after);
      NeutralAppend(PrintMember(lib, ms[0], |ms| == 1, level, pretty), PrintMembers(lib, ms[1..], level, pretty));
    }
  }

  /** Both passes leave the text of every value unchanged, whatever its strings contain. */
  lemma StripKeepsPrinted(lib: Lib, v: Value, level: nat, pretty: bool)
    requires lib.Valid()
    ensures Strip(Print(lib, v, level, pretty), false, false, OPEN_BLOCK, CLOSE_BLOCK) == Print(lib, v, level, pretty)
    ensures Strip(Print(lib, v, level, pretty), false, false, OPEN_LINE, CLOSE_LINE) == Print(lib, v, level, pretty)
  {
    PrintNeutral(lib, v, level, pretty);
    ScannedIsKept(Print(lib, v, level, pretty), false, false, OPEN_BLOCK, CLOSE_BLOCK);
    ScannedIsKept(Print(lib, v, level, pretty), false, false, OPEN_LINE, CLOSE_LINE);
  }

  /** A prefix that ends outside strings, with no '/' outside them, is kept, and what follows is stripped on its own. */
  lemma {:induction false} StripAfter(a: Bytes, rest: Bytes, inString: bool, escaped: bool, open: Bytes, close: Bytes)
    requires open != [] && close != [] && open[0] == SLASH
    requires Scan(a, Flags(inString, escaped)) == OUTSIDE
    ensures Strip(a + rest, inString, escaped, open, close) == a + Strip(rest, false, false, open, close)
    decreases |a|
  {
    if a == [] {
      assert a + rest == rest;
    } else {
      var t := a + rest;
      assert t[0] == a[0] && t[1..] == a[1..] + rest && a == [a[0]] + a[1..];
      var inString', escaped' := inString != (a[0] == QUOTE && !escaped), a[0] == BACKSLASH && !escaped;
      StripAfter(a[1..], rest, inString', escaped', open, close);
      AppendAssociates([a[0]], a[1..], Strip(rest, false, false, open, close));
    }
  }

  /** A comment outside strings is overwritten with blanks, from its opening to its first closing token, and what
      follows it, `after`, is stripped on its own. */
  lemma CommentIsBlanked(t: Bytes, open: Bytes, close: Bytes, k: nat, blanks: Bytes, after: Bytes)
    requires open != [] && close != [] && open[0] == SLASH && open <= t && Find(t[|open|..], close) == Some(k)
    requires |open| + k + |close| <= |t|
    requires blanks == Blanks(|open| + k + |close|) && after == t[|open| + k + |close|..]
    ensures Strip(t, false, false, open, close) == blanks + Strip(after, false, false, open, close)
  {
    hide Find, Blanks;
    assert t[0] == open[0];
  }

  /** Of a comment that is never closed only the opening is overwritten, and nothing after it is looked at. */
  lemma UnclosedComment(t: Bytes, open: Bytes, close: Bytes, opening: Bytes, after: Bytes)
    requires open != [] && close != [] && open[0] == SLASH && t == open + after && Find(after, close).None?
    requires opening == Blanks(|open|)
    ensures Strip(t, false, false, open, close) == opening + after
  {
    hide Find, Blanks;
    assert t[0] == open[0] && t[|open|..] == after;
  }

  /** The text that json_parse_string_with_comments hands to the parser. */
  function WithoutComments(t: Bytes): Bytes {
    Strip(Strip(t, false, false, OPEN_BLOCK, CLOSE_BLOCK), false, false, OPEN_LINE, CLOSE_LINE)
  }

  lemma NulFreeParts(t: Bytes, k: nat)
    requires NulFree(t) && k <= |t|
    ensures NulFree(t[k..]) && (t != [] ==> NulFree([t[0]])) && NulFree(Blanks(k))
  {
  }

  /** Comment removal never removes or adds a terminator. */
  lemma {:induction false} StripNulFree(t: Bytes, inString: bool, escaped: bool, open: Bytes, close: Bytes)
    requires NulFree(t) && open != [] && close != []
    ensures NulFree(Strip(t, inString, escaped, open, close))
    decreases |t|
  {
    hide NulFree, Blanks;
    if t == [] {
    } else if !inString && open <= t && (escaped || (t[0] != BACKSLASH && t[0] != QUOTE)) {
      var k := Find(t[|open|..], close);
      var n := |open| + if k.Some? then k.value + |close| else 0;
      NulFreeParts(t, n);
      if k.Some? {
        StripNulFree(t[n..], inString, false, open, close);
        NulFreeAppend(Blanks(n), Strip(t[n..], inString, false, open, close));
      } else {
        NulFreeAppend(Blanks(n), t[n..]);
      }
    } else {
      var inString', escaped' := inString != (t[0] == QUOTE && !escaped), t[0] == BACKSLASH && !escaped;
      NulFreeParts(t, 1);
      StripNulFree(t[1..], inString', escaped', open, close);
      NulFreeAppend([t[0]], Strip(t[1..], inString', escaped', open, close));
    }
  }

  lemma WithoutCommentsNulFree(t: Bytes)
    requires NulFree(t)
    ensures NulFree(Strip(t, false, false, OPEN_BLOCK, CLOSE_BLOCK)) && NulFree(WithoutComments(t))
  {
    hide Strip;
    StripNulFree(t, false, false, OPEN_BLOCK, CLOSE_BLOCK);
    StripNulFree(Strip(t, false, false, OPEN_BLOCK, CLOSE_BLOCK), false, false, OPEN_LINE, CLOSE_LINE);
  }

  /** Both passes over a copy of the text. */
  method RemoveBothKinds(s: Buffer) returns (copy: array<byte>)
    ensures fresh(copy) && NulFree(WithoutComments(s[..|s| - 1]))
    ensures copy[..] == AsBuffer(WithoutComments(s[..|s| - 1]))
  {
    hide Strip;
    ghost var t := s[..|s| - 1];
    WithoutCommentsNulFree(t);
    copy := new byte[|s|](i requires 0 <= i < |s| => s[i]);
    assert copy[..] == s;
    assert copy[..copy.Length - 1] == t;
    RemoveComments(copy, OPEN_BLOCK, CLOSE_BLOCK);
    assert copy[..copy.Length - 1] == Strip(t, false, false, OPEN_BLOCK, CLOSE_BLOCK);
    RemoveComments(copy, OPEN_LINE, CLOSE_LINE);
  }

  /** json_parse_string_with_comments */
  method ParseStringWithComments(lib: Lib, s: Buffer) returns (r: Option<Value>)
    requires lib.Valid()
    ensures NulFree(WithoutComments(s[..|s| - 1]))
    ensures r == match ParseValue(lib, AsBuffer(WithoutComments(s[..|s| - 1])), 0, 0)
                 case Fail => None
                 case Ok(v, _) => Some(v)
  {
    hide Strip, WithoutComments, Lib.Valid, ParseValue;
    var copy := RemoveBothKinds(s);
    var c := new ParserCode.Cursor(copy[..], 0);
    r := ParserCode.ParseValue(lib, c, 0);
  }

  /** So the comment-tolerant parser reads printed values exactly as the plain one does. */
  lemma CommentsRoundTrip(lib: Lib, v: Value, level: nat, pretty: bool)
    requires lib.Valid() && WellFormed(v)
    ensures NulFree(Print(lib, v, level, pretty))
    ensures WithoutComments(Print(lib, v, level, pretty)) == Print(lib, v, level, pretty)
    ensures ParseValue(lib, AsBuffer(WithoutComments(Print(lib, v, level, pretty))), 0, 0)
      == if Height(v) <= MAX_NESTING then Ok(Reread(lib, v), |Print(lib, v, level, pretty)|) else Fail
  {
    StripKeepsPrinted(lib, v, level, pretty);
    TextRoundTrip(lib, v, level, pretty);
  }
}
