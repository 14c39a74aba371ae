/** The tokens of a value. Any text that reads as these tokens, whatever blank space lies between them, is parsed back
    to the value. */
module Tokens {
  import opened CText
  import opened Numbers
  import opened Values
  import opened Utf8
  import opened StringCodec
  import opened Printer
  import opened Parser

  function TokensOf(lib: Lib, v: Value): (ts: seq<Bytes>)
    ensures ts != []
    decreases v, 1
  {
    match v
    case Null => [NULL_TEXT]
    case Bool(b) => [if b then TRUE_TEXT else FALSE_TEXT]
    case Num(x) => [NumberText(lib, x)]
    case Str(t) => [Quoted(t)]
    case Arr(items, _) => [[LBRACKET]] + ItemTokens(lib, items)
    case Obj(ms, _) => [[LBRACE]] + MemberTokens(lib, ms)
  }

  function CommaToken(last: bool): seq<Bytes> {
    if last then [] else [[COMMA]]
  }

  /** The remaining items of an array, with the closing bracket. */
  function ItemTokens(lib: Lib, items: seq<Value>): (ts: seq<Bytes>)
    ensures ts != []
    decreases items, 0
  {
    if items == [] then [[RBRACKET]]
    else TokensOf(lib, items[0]) + (CommaToken(|items| == 1) + ItemTokens(lib, items[1..]))
  }

  /** The remaining members of an object, with the closing brace. */
  function MemberTokens(lib: Lib, ms: seq<Member<Value>>): (ts: seq<Bytes>)
    ensures ts != []
    decreases ms, 0
  {
    if ms == [] then [[RBRACE]]
    else
      [Quoted(ms[0].name), [COLON]]
      + (TokensOf(lib, ms[0].value) + (CommaToken(|ms| == 1) + MemberTokens(lib, ms[1..])))
  }

  /** Where the buffer ends a run of tokens, if it holds them from `p`, with blank space before any of them. */
  function ReadTokens(s: Buffer, p: nat, ts: seq<Bytes>): (r: Option<nat>)
    ensures r.Some? ==> p <= r.value
    decreases |ts|
  {
    if ts == [] then Some(p)
    else if p >= |s| || !Holds(s, SkipSpaces(s, p), ts[0]) then None
    else ReadTokens(s, SkipSpaces(s, p) + |ts[0]|, ts[1..])
  }

  lemma {:induction false} ReadAppend(s: Buffer, p: nat, a: seq<Bytes>, b: seq<Bytes>)
    ensures ReadTokens(s, p, a + b)
      == match ReadTokens(s, p, a) case None => None case Some(m) => ReadTokens(s, m, b)
    decreases |a|
  {
    if a == [] {
      assert a + b == b;
    } else {
      assert (a + b)[0] == a[0] && (a + b)[1..] == a[1..] + b;
      if p < |s| && Holds(s, SkipSpaces(s, p), a[0]) {
        ReadAppend(s, SkipSpaces(s, p) + |a[0]|, a[1..], b);
      }
    }
  }

  lemma ReadFirst(s: Buffer, p: nat, t: Bytes, ts: seq<Bytes>)
    requires ReadTokens(s, p, [t] + ts).Some?
    ensures p < |s| && Holds(s, SkipSpaces(s, p), t)
    ensures ReadTokens(s, SkipSpaces(s, p) + |t|, ts) == ReadTokens(s, p, [t] + ts)
    ensures SkipSpaces(s, p) + |t| <= ReadTokens(s, p, [t] + ts).value
  {
    assert ([t] + ts)[1..] == ts;
  }

  lemma SkipsNothing(s: Buffer, q: nat)
    requires q < |s| && !IsSpace(s[q])
    ensures SkipSpaces(s, q) == q
  {
  }

  lemma ReadSkips(s: Buffer, p: nat, ts: seq<Bytes>)
    requires p < |s| && ts != []
    ensures ReadTokens(s, SkipSpaces(s, p), ts) == ReadTokens(s, p, ts)
  {
    SkipsNothing(s, SkipSpaces(s, p));
  }

  ghost predicate Blank(t: Bytes) {
    forall i :: 0 <= i < |t| ==> IsSpace(t[i])
  }

  lemma SkipsBlank(s: Buffer, p: nat, t: Bytes)
    requires Holds(s, p, t) && Blank(t) && p + |t| < |s|
    ensures SkipSpaces(s, p) == SkipSpaces(s, p + |t|)
  {
    forall i | p <= i < p + |t|
      ensures IsSpace(s[i])
    {
      HoldsAt(s, p, t, i - p);
    }
    SkipSpacesFrom(s, p, p + |t|);
  }

  // ---- What comes back ----

  function RereadNumber(lib: Lib, x: real): real {
    if Integral(x) && Printable(x.Floor) then x else lib.rounded(x)
  }

  /** The tree that parsing the text of `v` yields: containers trimmed, and every number that is not printed as an
      integer rounded as "%f" rounds it. */
  function Reread(lib: Lib, v: Value): Value
    decreases v, 0
  {
    match v
    case Num(x) => Num(RereadNumber(lib, x))
    case Arr(items, _) => Arr(RereadItems(lib, items), |items|)
    case Obj(ms, _) => Obj(RereadMembers(lib, ms), |ms|)
    case _ => v
  }

  function RereadItems(lib: Lib, items: seq<Value>): (r: seq<Value>)
    ensures |r| == |items| && forall i :: 0 <= i < |r| ==> r[i] == Reread(lib, items[i])
    decreases items, 1
  {
    if items == [] then [] else [Reread(lib, items[0])] + RereadItems(lib, items[1..])
  }

  function RereadMembers(lib: Lib, ms: seq<Member<Value>>): (r: seq<Member<Value>>)
    ensures |r| == |ms| && forall i :: 0 <= i < |r| ==> r[i] == Member(ms[i].name, Reread(lib, ms[i].value))
    decreases ms, 1
  {
    if ms == [] then [] else [Member(ms[0].name, Reread(lib, ms[0].value))] + RereadMembers(lib, ms[1..])
  }

  /** On integers nothing changes but spare capacity. */
  lemma {:induction false} RereadIntegers(lib: Lib, v: Value)
    requires IntegerTree(v)
    ensures Reread(lib, v) == Trimmed(v)
  {
    match v
    case Arr(items, _) =>
      forall i | 0 <= i < |items| ensures Reread(lib, items[i]) == Trimmed(items[i]) {
        RereadIntegers(lib, items[i]);
      }
      assert RereadItems(lib, items) == TrimmedItems(items);
    case Obj(ms, _) =>
      forall i | 0 <= i < |ms| ensures Reread(lib, ms[i].value) == Trimmed(ms[i].value) {
        RereadIntegers(lib, ms[i].value);
      }
      assert RereadMembers(lib, ms) == TrimmedMembers(ms);
    case _ =>
  }

  /** A quoted name or string is read back, and the scan ends right after it. */
  lemma QuotedRoundTrip(s: Buffer, p: nat, t: Bytes)
    requires NulFree(t) && Holds(s, p, Quoted(t)) && p + |Quoted(t)| < |s|
    ensures QuotedString(s, p) == Ok(t, p + |Quoted(t)|)
  {
    hide Holds, Escape, Process, SkipBody, CString;
    var e := p + 1 + |Escape(t)|;
    HoldsAt(s, p, Quoted(t), 0);
    HoldsAt(s, p, Quoted(t), 1 + |Escape(t)|);
    HoldsAppend(s, p, [QUOTE] + Escape(t), [QUOTE]);
    HoldsAppend(s, p, [QUOTE], Escape(t));
    StringRoundTrip(s, p + 1, t, e);
    CStringOfNulFree(t);
  }

  ghost predicate ItemsFit(items: seq<Value>, nesting: nat) {
    forall i :: 0 <= i < |items| ==> Fits(items[i], nesting)
  }

  ghost predicate MembersFit(ms: seq<Member<Value>>, nesting: nat) {
    forall i :: 0 <= i < |ms| ==> Fits(ms[i].value, nesting)
  }

  lemma NothingFits(nesting: nat)
    ensures ItemsFit([], nesting) && MembersFit([], nesting) && QUOTE != RBRACE
  {
  }

  /** An array is parsed by the byte after its bracket. */
  lemma ArrayParsed(lib: Lib, s: Buffer, p: nat, nesting: nat)
    requires lib.Valid() && p < |s| && s[p] == LBRACKET
    ensures nesting > MAX_NESTING ==> ParseValue(lib, s, p, nesting) == Fail
    ensures p + 1 < |s|
    ensures var q := SkipSpaces(s, p + 1); nesting <= MAX_NESTING && s[q] == RBRACKET ==>
      ParseValue(lib, s, p, nesting) == Ok(Arr([], 0), q + 1)
    ensures var q := SkipSpaces(s, p + 1); nesting <= MAX_NESTING && s[q] != RBRACKET ==>
      ParseValue(lib, s, p, nesting) == ParseItems(lib, s, q, nesting + 1, [])
    ensures !EndsValue(s[SkipSpaces(s, p + 1)]) ==> s[SkipSpaces(s, p + 1)] != RBRACKET
  {
    hide ParseItems, QuotedString, NumberValue, Lib.Valid;
    SkipsNothing(s, p);
  }

  lemma ObjectParsed(lib: Lib, s: Buffer, p: nat, nesting: nat)
    requires lib.Valid() && p < |s| && s[p] == LBRACE
    ensures nesting > MAX_NESTING ==> ParseValue(lib, s, p, nesting) == Fail
    ensures p + 1 < |s|
    ensures var q := SkipSpaces(s, p + 1); nesting <= MAX_NESTING && s[q] == RBRACE ==>
      ParseValue(lib, s, p, nesting) == Ok(Obj([], 0), q + 1)
    ensures var q := SkipSpaces(s, p + 1); nesting <= MAX_NESTING && s[q] != RBRACE ==>
      ParseValue(lib, s, p, nesting) == ParseMembers(lib, s, q, nesting + 1, [])
  {
    hide ParseMembers, QuotedString, NumberValue, Lib.Valid;
    SkipsNothing(s, p);
  }

  lemma RereadNothing(lib: Lib)
    ensures RereadItems(lib, []) == [] && RereadMembers(lib, []) == []
  {
  }

  lemma RereadMore(lib: Lib, done: seq<Value>, items: seq<Value>)
    requires items != []
    ensures done + [Reread(lib, items[0])] + RereadItems(lib, items[1..]) == done + RereadItems(lib, items)
    ensures |items| == 1 ==> done + [Reread(lib, items[0])] == done + RereadItems(lib, items)
  {
    AppendAssociates(done, [Reread(lib, items[0])], RereadItems(lib, items[1..]));
    if |items| == 1 {
      assert items[1..] == [];
    }
  }

  lemma RereadMembersMore(lib: Lib, done: seq<Member<Value>>, ms: seq<Member<Value>>)
    requires ms != []
    ensures var m := Member(ms[0].name, Reread(lib, ms[0].value));
      done + [m] + RereadMembers(lib, ms[1..]) == done + RereadMembers(lib, ms)
      && (|ms| == 1 ==> done + [m] == done + RereadMembers(lib, ms))
  {
    AppendAssociates(done, [Member(ms[0].name, Reread(lib, ms[0].value))], RereadMembers(lib, ms[1..]));
    if |ms| == 1 {
      assert ms[1..] == [];
    }
  }

  ghost predicate PrintableItems(items: seq<Value>) {
    forall i :: 0 <= i < |items| ==> WellFormed(items[i])
  }

  lemma ItemsRest(items: seq<Value>, nesting: nat)
    requires items != [] && PrintableItems(items)
    ensures WellFormed(items[0]) && PrintableItems(items[1..])
    ensures ItemsFit(items, nesting) <==> Fits(items[0], nesting) && ItemsFit(items[1..], nesting)
    ensures |items| == 1 ==> ItemsFit(items[1..], nesting)
  {
  }

  lemma NoNamesApart(ms: seq<Member<Value>>)
    ensures NamesApart([], ms)
  {
  }

  /** What a printed object's members satisfy. */
  ghost predicate PrintableMembers(ms: seq<Member<Value>>) {
    && UniqueNames(ms)
    && forall i :: 0 <= i < |ms| ==> NulFree(ms[i].name) && WellFormed(ms[i].value)
  }

  lemma MembersRest(ms: seq<Member<Value>>, nesting: nat)
    requires ms != [] && PrintableMembers(ms)
    ensures NulFree(ms[0].name) && WellFormed(ms[0].value)
    ensures PrintableMembers(ms[1..]) && UniqueNames(ms)
    ensures |ms| == 1 ==> MembersFit(ms[1..], nesting)
    ensures MembersFit(ms, nesting) <==> Fits(ms[0].value, nesting) && MembersFit(ms[1..], nesting)
  {
  }

  ghost predicate NamesApart(done: seq<Member<Value>>, ms: seq<Member<Value>>) {
    forall i :: 0 <= i < |ms| ==> ms[i].name !in Names(done)
  }

  lemma NamesApartMore(lib: Lib, done: seq<Member<Value>>, ms: seq<Member<Value>>)
    requires ms != [] && NamesApart(done, ms) && UniqueNames(ms)
    ensures ms[0].name !in Names(done)
    ensures NamesApart(done + [Member(ms[0].name, Reread(lib, ms[0].value))], ms[1..])
  {
  }


  // ---- Scalars ----

  /** The byte before a token, or the token's first byte, ends the value before it. */
  lemma EndedBy(s: Buffer, m: nat, t: Bytes)
    requires m < |s| && t != [] && EndsValue(t[0]) && Holds(s, SkipSpaces(s, m), t)
    ensures EndsValue(s[m]) && s[SkipSpaces(s, m)] == t[0]
  {
    HoldsAt(s, SkipSpaces(s, m), t, 0);
  }

  lemma LiteralIs(s: Buffer, q: nat, t: Bytes)
    requires q < |s| && Holds(s, q, t) && (t == TRUE_TEXT || t == FALSE_TEXT || t == NULL_TEXT)
    ensures s[q] == t[0] && (Holds(s, q, TRUE_TEXT) <==> t == TRUE_TEXT)
  {
    HoldsAt(s, q, t, 0);
    if Holds(s, q, TRUE_TEXT) {
      HoldsAt(s, q, TRUE_TEXT, 0);
    }
  }

  /** Only the first byte that is not blank decides how a value is parsed. */
  lemma ParseValueSkips(lib: Lib, s: Buffer, p: nat, nesting: nat)
    requires lib.Valid() && p < |s|
    ensures ParseValue(lib, s, p, nesting) == ParseValue(lib, s, SkipSpaces(s, p), nesting)
  {
    hide Lib.Valid, ParseItems, ParseMembers, QuotedString, NumberValue;
    SkipsNothing(s, SkipSpaces(s, p));
  }

  lemma LiteralParsed(lib: Lib, s: Buffer, q: nat, t: Bytes, v: Value, nesting: nat)
    requires lib.Valid() && q < |s| && Holds(s, q, t)
    requires (t, v) == (TRUE_TEXT, Bool(true)) || (t, v) == (FALSE_TEXT, Bool(false)) || (t, v) == (NULL_TEXT, Null)
    ensures ParseValue(lib, s, q, nesting) == (if nesting <= MAX_NESTING then Ok(v, q + |t|) else Fail)
    ensures s[q] == t[0]
  {
    hide Lib.Valid, ParseItems, ParseMembers, QuotedString, NumberValue, Holds;
    LiteralIs(s, q, t);
    SkipsNothing(s, q);
  }

  lemma StringParsed(lib: Lib, s: Buffer, q: nat, t: Bytes, nesting: nat)
    requires lib.Valid() && NulFree(t) && Holds(s, q, Quoted(t)) && q + |Quoted(t)| < |s|
    ensures ParseValue(lib, s, q, nesting) == if nesting <= MAX_NESTING then Ok(Str(t), q + |Quoted(t)|) else Fail
    ensures s[q] == QUOTE
  {
    hide Lib.Valid, ParseItems, ParseMembers, Quoted, QuotedString, NumberValue, Holds;
    HoldsAt(s, q, Quoted(t), 0);
    QuotedRoundTrip(s, q, t);
    SkipsNothing(s, q);
  }

  lemma NumberTextReads(lib: Lib, s: Buffer, q: nat, x: real)
    requires lib.Valid()
    requires var t := NumberText(lib, x); Holds(s, q, t) && q + |t| < |s| && EndsValue(s[q + |t|])
    ensures var t := NumberText(lib, x); |t| > 0 && (IsDigit(t[0]) || t[0] == MINUS) && DecimalForm(t)
    ensures lib.strtod(s, q) == NumScan(RereadNumber(lib, x), q + |NumberText(lib, x)|, false)
  {
    hide Holds, EndsValue, DecimalForm, Digits, ConvertsAfterMinus, IsStructural;
    if Integral(x) && Printable(x.Floor) {
      DecimalIsDecimalForm(x.Floor);
    }
  }

  lemma NumberParsed(lib: Lib, s: Buffer, q: nat, x: real, nesting: nat)
    requires lib.Valid()
    requires var t := NumberText(lib, x); Holds(s, q, t) && q + |t| < |s| && EndsValue(s[q + |t|])
    ensures ParseValue(lib, s, q, nesting)
      == if nesting <= MAX_NESTING then Ok(Num(RereadNumber(lib, x)), q + |NumberText(lib, x)|) else Fail
    ensures s[q] == MINUS || IsDigit(s[q])
  {
    hide Lib.Valid, ParseItems, ParseMembers, QuotedString, DecimalForm, NumberText, RereadNumber;
    var t := NumberText(lib, x);
    NumberTextReads(lib, s, q, x);
    HoldsAt(s, q, t, 0);
    assert s[q..q + |t|] == t;
    SkipsNothing(s, q);
  }

  lemma ScalarRoundTrip(lib: Lib, s: Buffer, p: nat, v: Value, e: nat, nesting: nat)
    requires lib.Valid() && WellFormed(v) && !v.Arr? && !v.Obj? && p < |s|
    requires ReadTokens(s, p, TokensOf(lib, v)) == Some(e) && e < |s| && EndsValue(s[e])
    ensures ParseValue(lib, s, p, nesting) == if nesting <= MAX_NESTING then Ok(Reread(lib, v), e) else Fail
    ensures !EndsValue(s[SkipSpaces(s, p)])
  {
    hide Lib.Valid, ParseValue, Holds, Quoted, NumberText, SkipSpaces, RereadNumber;
    var t, q := TokensOf(lib, v)[0], SkipSpaces(s, p);
    assert TokensOf(lib, v) == [t] + [];
    ReadFirst(s, p, t, []);
    ParseValueSkips(lib, s, p, nesting);
    match v
    case Str(x) => StringParsed(lib, s, q, x, nesting);
    case Num(x) => NumberParsed(lib, s, q, x, nesting);
    case Bool(b) => LiteralParsed(lib, s, q, t, v, nesting);
    case _ => LiteralParsed(lib, s, q, t, v, nesting);
  }

  // ---- Containers ----

  /** Whatever blank space separates its tokens, a text that reads as the tokens of a value is parsed to that value, up
      to the end of the last token, exactly when the value fits the parser's limits; otherwise parsing fails. */
  lemma {:induction false} TokensRoundTrip(lib: Lib, s: Buffer, p: nat, v: Value, e: nat, nesting: nat)
    requires lib.Valid() && WellFormed(v) && p < |s|
    requires ReadTokens(s, p, TokensOf(lib, v)) == Some(e) && e < |s| && EndsValue(s[e])
    ensures ParseValue(lib, s, p, nesting) == if Fits(v, nesting) then Ok(Reread(lib, v), e) else Fail
    ensures !EndsValue(s[SkipSpaces(s, p)])
    decreases v, 1
  {
    hide Lib.Valid, ParseValue, SkipSpaces, ReadTokens, ItemTokens, MemberTokens;
    match v
    case Arr(items, _) =>
      assert PrintableItems(items);
      ArrayRoundTrip(lib, s, p, items, e, nesting);
    case Obj(ms, _) =>
      assert PrintableMembers(ms);
      ObjectRoundTrip(lib, s, p, ms, e, nesting);
    case _ => ScalarRoundTrip(lib, s, p, v, e, nesting);
  }

  lemma {:induction false} ArrayRoundTrip(lib: Lib, s: Buffer, p: nat, items: seq<Value>, e: nat, nesting: nat)
    requires lib.Valid() && PrintableItems(items) && p < |s|
    requires ReadTokens(s, p, [[LBRACKET]] + ItemTokens(lib, items)) == Some(e) && e < |s|
    ensures ParseValue(lib, s, p, nesting)
      == if nesting <= MAX_NESTING && |items| <= ARRAY_MAX_CAPACITY && ItemsFit(items, nesting + 1)
         then Ok(Arr(RereadItems(lib, items), |items|), e) else Fail
    ensures s[SkipSpaces(s, p)] == LBRACKET
    decreases items, 2
  {
    hide *;
    var q := SkipSpaces(s, p);
    ReadFirst(s, p, [LBRACKET], ItemTokens(lib, items));
    HoldsAt(s, q, [LBRACKET], 0);
    ParseValueSkips(lib, s, p, nesting);
    ArrayParsed(lib, s, q, nesting);
    RereadNothing(lib);
    NothingFits(nesting + 1);
    if items == [] {
      NoItems(lib, s, q + 1, e);
    } else {
      ItemsRoundTrip(lib, s, q + 1, items, e, nesting + 1, []);
      assert [] + RereadItems(lib, items) == RereadItems(lib, items);
    }
  }

  lemma NoItems(lib: Lib, s: Buffer, p: nat, e: nat)
    requires p < |s| && e < |s|
    ensures ReadTokens(s, p, ItemTokens(lib, [])) == Some(e) ==>
      s[SkipSpaces(s, p)] == RBRACKET && e == SkipSpaces(s, p) + 1
    ensures ReadTokens(s, p, MemberTokens(lib, [])) == Some(e) ==>
      s[SkipSpaces(s, p)] == RBRACE && e == SkipSpaces(s, p) + 1
  {
    hide SkipSpaces;
    assert [[RBRACKET]] + [] == [[RBRACKET]] && [[RBRACE]] + [] == [[RBRACE]];
    if ReadTokens(s, p, [[RBRACKET]] + []) == Some(e) {
      ReadFirst(s, p, [RBRACKET], []);
      HoldsAt(s, SkipSpaces(s, p), [RBRACKET], 0);
    }
    if ReadTokens(s, p, [[RBRACE]] + []) == Some(e) {
      ReadFirst(s, p, [RBRACE], []);
      HoldsAt(s, SkipSpaces(s, p), [RBRACE], 0);
    }
  }

  /** The tokens of some items: the first item, and the comma or closing bracket after it. */
  lemma ItemTokensUnfold(lib: Lib, items: seq<Value>)
    requires items != []
    ensures |items| > 1 ==>
      ItemTokens(lib, items) == TokensOf(lib, items[0]) + ([[COMMA]] + ItemTokens(lib, items[1..]))
    ensures |items| == 1 ==> ItemTokens(lib, items) == TokensOf(lib, items[0]) + ([[RBRACKET]] + [])
    ensures EndsValue(COMMA) && EndsValue(RBRACKET) && COMMA != RBRACKET
  {
    hide TokensOf;
    if |items| == 1 {
      assert items[1..] == [] && CommaToken(true) + [[RBRACKET]] == [[RBRACKET]] + [];
    }
  }

  lemma {:induction false} ItemsRoundTrip(lib: Lib, s: Buffer, p: nat, items: seq<Value>, e: nat, nesting: nat,
                                          done: seq<Value>)
    requires lib.Valid() && items != [] && PrintableItems(items) && p < |s|
    requires ReadTokens(s, p, ItemTokens(lib, items)) == Some(e) && e < |s|
    ensures !EndsValue(s[SkipSpaces(s, p)])
    ensures ParseItems(lib, s, SkipSpaces(s, p), nesting, done)
      == if |done| + |items| <= ARRAY_MAX_CAPACITY && ItemsFit(items, nesting)
         then Ok(Arr(done + RereadItems(lib, items), |done| + |items|), e) else Fail
    decreases items, 0
  {
    hide *;
    var next := if |items| == 1 then [RBRACKET] else [COMMA];
    var more := if |items| == 1 then [] else ItemTokens(lib, items[1..]);
    var q := SkipSpaces(s, p);
    ItemTokensUnfold(lib, items);
    ItemsRest(items, nesting);
    RereadMore(lib, done, items);
    ReadAppend(s, p, TokensOf(lib, items[0]), [next] + more);
    var m := ReadTokens(s, p, TokensOf(lib, items[0])).value;
    ReadFirst(s, m, next, more);
    EndedBy(s, m, next);
    ReadSkips(s, p, TokensOf(lib, items[0]));
    TokensRoundTrip(lib, s, q, items[0], m, nesting);
    SkipsTwice(s, p);
    ItemsUnfold(lib, s, q, nesting, done);
    if |items| == 1 {
      NothingMore(s, SkipSpaces(s, m) + 1);
    } else {
      ItemsRoundTrip(lib, s, SkipSpaces(s, m) + 1, items[1..], e, nesting, done + [Reread(lib, items[0])]);
    }
  }

  lemma NothingMore(s: Buffer, p: nat)
    ensures ReadTokens(s, p, []) == Some(p)
  {
  }

  lemma SkipsTwice(s: Buffer, p: nat)
    requires p < |s|
    ensures SkipSpaces(s, SkipSpaces(s, p)) == SkipSpaces(s, p)
    ensures !EndsValue(s[SkipSpaces(s, p)]) ==> s[SkipSpaces(s, p)] != 0
  {
    SkipsNothing(s, SkipSpaces(s, p));
  }

  // ---- Objects, in the same way ----

  lemma {:induction false} ObjectRoundTrip(lib: Lib, s: Buffer, p: nat, ms: seq<Member<Value>>, e: nat, nesting: nat)
    requires lib.Valid() && PrintableMembers(ms) && p < |s|
    requires ReadTokens(s, p, [[LBRACE]] + MemberTokens(lib, ms)) == Some(e) && e < |s|
    ensures ParseValue(lib, s, p, nesting)
      == if nesting <= MAX_NESTING && |ms| <= OBJECT_MAX_CAPACITY && MembersFit(ms, nesting + 1)
         then Ok(Obj(RereadMembers(lib, ms), |ms|), e) else Fail
    ensures s[SkipSpaces(s, p)] == LBRACE
    decreases ms, 2
  {
    hide *;
    var q := SkipSpaces(s, p);
    ReadFirst(s, p, [LBRACE], MemberTokens(lib, ms));
    HoldsAt(s, q, [LBRACE], 0);
    ParseValueSkips(lib, s, p, nesting);
    ObjectParsed(lib, s, q, nesting);
    RereadNothing(lib);
    NothingFits(nesting + 1);
    if ms == [] {
      NoItems(lib, s, q + 1, e);
    } else {
      NoNamesApart(ms);
      MembersRoundTrip(lib, s, q + 1, ms, e, nesting + 1, []);
      assert [] + RereadMembers(lib, ms) == RereadMembers(lib, ms);
    }
  }

  /** The tokens of some members: name, colon and value, and the comma or closing brace after them. */
  lemma MemberTokensUnfold(lib: Lib, ms: seq<Member<Value>>)
    requires ms != []
    ensures var ts := if |ms| == 1 then [[RBRACE]] + [] else [[COMMA]] + MemberTokens(lib, ms[1..]);
      MemberTokens(lib, ms) == [Quoted(ms[0].name)] + ([[COLON]] + (TokensOf(lib, ms[0].value) + ts))
    ensures EndsValue(COMMA) && EndsValue(RBRACE) && COMMA != RBRACE
  {
    hide TokensOf, Quoted;
    var rest := CommaToken(|ms| == 1) + MemberTokens(lib, ms[1..]);
    if |ms| == 1 {
      assert ms[1..] == [] && rest == [[RBRACE]] + [];
    }
    var value := TokensOf(lib, ms[0].value) + rest;
    assert [Quoted(ms[0].name), [COLON]] + value == [Quoted(ms[0].name)] + ([[COLON]] + value);
  }

  /** A member's name and colon, read as tokens. */
  lemma NameRead(s: Buffer, p: nat, name: Bytes, ts: seq<Bytes>, e: nat)
    requires NulFree(name) && p < |s| && e < |s|
    requires ReadTokens(s, p, [Quoted(name)] + ([[COLON]] + ts)) == Some(e)
    ensures s[SkipSpaces(s, p)] == QUOTE
    ensures var r := NameAndColon(s, SkipSpaces(s, p));
      r.Ok? && r.value == name && r.end < |s| && ReadTokens(s, r.end, ts) == Some(e)
  {
    hide Quoted, QuotedString, ReadTokens, SkipSpaces;
    var q := SkipSpaces(s, p);
    ReadFirst(s, p, Quoted(name), [[COLON]] + ts);
    HoldsAt(s, q, Quoted(name), 0);
    QuotedRoundTrip(s, q, name);
    ReadFirst(s, q + |Quoted(name)|, [COLON], ts);
    HoldsAt(s, SkipSpaces(s, q + |Quoted(name)|), [COLON], 0);
  }

  lemma {:induction false} MembersRoundTrip(lib: Lib, s: Buffer, p: nat, ms: seq<Member<Value>>, e: nat, nesting: nat,
                                            done: seq<Member<Value>>)
    requires lib.Valid() && ms != [] && PrintableMembers(ms) && NamesApart(done, ms) && p < |s|
    requires ReadTokens(s, p, MemberTokens(lib, ms)) == Some(e) && e < |s|
    ensures s[SkipSpaces(s, p)] == QUOTE
    ensures ParseMembers(lib, s, SkipSpaces(s, p), nesting, done)
      == if |done| + |ms| <= OBJECT_MAX_CAPACITY && MembersFit(ms, nesting)
         then Ok(Obj(done + RereadMembers(lib, ms), |done| + |ms|), e) else Fail
    decreases ms, 0
  {
    hide *;
    var next, more := if |ms| == 1 then [RBRACE] else [COMMA], if |ms| == 1 then [] else MemberTokens(lib, ms[1..]);
    var q, value := SkipSpaces(s, p), TokensOf(lib, ms[0].value);
    MemberTokensUnfold(lib, ms);
    MembersRest(ms, nesting);
    NamesApartMore(lib, done, ms);
    RereadMembersMore(lib, done, ms);
    NameRead(s, p, ms[0].name, value + ([next] + more), e);
    var b := NameAndColon(s, q).end;
    ReadAppend(s, b, value, [next] + more);
    var m := ReadTokens(s, b, value).value;
    ReadFirst(s, m, next, more);
    EndedBy(s, m, next);
    TokensRoundTrip(lib, s, b, ms[0].value, m, nesting);
    MembersUnfold(lib, s, q, nesting, done);
    QuoteIsNotZero();
    if |ms| == 1 {
      NothingMore(s, SkipSpaces(s, m) + 1);
    } else {
      MembersRoundTrip(lib, s, SkipSpaces(s, m) + 1, ms[1..], e, nesting,
                       done + [Member(ms[0].name, Reread(lib, ms[0].value))]);
    }
  }

  lemma QuoteIsNotZero()
    ensures QUOTE != 0 && QUOTE != RBRACE
  {
  }
}
