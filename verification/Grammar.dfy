/** The language that the parser accepts, as documents and their tokens, and the proof that it accepts nothing else and
    nothing less. */
module Grammar {
  import opened CText
  import opened Numbers
  import opened Values
  import opened StringCodec
  import opened Spelling
  import opened Printer
  import opened Parser
  import opened Tokens

  type Pieces = ps: seq<Piece> | ValidPieces(ps)

  /** A document as it may be written: which spelling each string has, and which number each numeral denotes. */
  datatype Doc =
    | Nothing
    | Truth(b: bool)
    | Numeral(x: real)
    | Quote(pieces: Pieces)
    | List(items: seq<Doc>)
    | Record(entries: seq<Entry>)

  datatype Entry = Entry(name: Pieces, doc: Doc)

  datatype Token = Fixed(t: Bytes) | Spelled(pieces: Pieces) | Number(x: real)

  // ---- The tokens of a document ----

  const OPEN_LIST: Token := Fixed([91])
  const CLOSE_LIST: Token := Fixed([93])
  const OPEN_RECORD: Token := Fixed([123])
  const CLOSE_RECORD: Token := Fixed([125])
  const SEPARATOR: Token := Fixed([44])
  const BINDER: Token := Fixed([58])

  function DocTokens(doc: Doc): (ts: seq<Token>)
    decreases doc, 1
  {
    match doc
    case Nothing => [Fixed([110, 117, 108, 108])]
    case Truth(b) => [Fixed(if b then [116, 114, 117, 101] else [102, 97, 108, 115, 101])]
    case Numeral(x) => [Number(x)]
    case Quote(pieces) => [Spelled(pieces)]
    case List(items) => [OPEN_LIST] + ListTokens(items)
    case Record(entries) => [OPEN_RECORD] + RecordTokens(entries)
  }

  /** The remaining items of a list, with its closing bracket. */
  function ListTokens(items: seq<Doc>): seq<Token>
    decreases items, 0
  {
    if items == [] then [CLOSE_LIST]
    else DocTokens(items[0]) + (if |items| == 1 then [CLOSE_LIST] else [SEPARATOR] + ListTokens(items[1..]))
  }

  /** The remaining entries of a record, with its closing brace. */
  function RecordTokens(entries: seq<Entry>): seq<Token>
    decreases entries, 0
  {
    if entries == [] then [CLOSE_RECORD]
    else
      [Spelled(entries[0].name)] + ([BINDER] + (DocTokens(entries[0].doc)
        + (if |entries| == 1 then [CLOSE_RECORD] else [SEPARATOR] + RecordTokens(entries[1..]))))
  }

  // ---- What stands in a buffer ----

  /** The six bytes of white space: blank, tabulators, line feed, form feed and carriage return. */
  predicate White(b: byte) {
    b == 32 || b == 9 || b == 10 || b == 11 || b == 12 || b == 13
  }

  function AfterWhite(s: Buffer, p: nat): (q: nat)
    requires p < |s|
    ensures p <= q < |s|
    decreases |s| - p
  {
    if White(s[p]) then AfterWhite(s, p + 1) else p
  }

  /** No needless leading zero after an optional minus sign, and no 'x' of either case. */
  predicate PlainNumeral(t: Bytes) {
    var digits := if t != [] && t[0] == 45 then t[1..] else t;
    && !(|digits| > 1 && digits[0] == 48 && digits[1] != 46)
    && forall i :: 0 <= i < |t| ==> t[i] != 120 && t[i] != 88
  }

  /** Where a token that stands at `q` ends. A numeral is what `strtod` consumes. */
  ghost function TokenEnd(lib: Lib, s: Buffer, q: nat, token: Token): (r: Option<nat>)
    requires lib.Valid() && q < |s|
    ensures r.Some? ==> q <= r.value < |s|
  {
    match token
    case Fixed(t) => if q + |t| < |s| && s[q..q + |t|] == t then Some(q + |t|) else None
    case Spelled(pieces) =>
      if SpelledAt(s, q, pieces, q + |WrittenAll(pieces)| + 2) then Some(q + |WrittenAll(pieces)| + 2) else None
    case Number(x) =>
      var scan := lib.strtod(s, q);
      if (s[q] == 45 || 48 <= s[q] <= 57) && scan.value == x && !scan.rangeError && PlainNumeral(s[q..scan.end])
      then Some(scan.end) else None
  }

  /** Where the buffer ends a run of tokens, if it holds them from `p`, with any white space before any of them. */
  ghost function Reads(lib: Lib, s: Buffer, p: nat, ts: seq<Token>): (r: Option<nat>)
    requires lib.Valid() && p < |s|
    ensures r.Some? ==> p <= r.value < |s|
    decreases |ts|
  {
    if ts == [] then Some(p)
    else
      match TokenEnd(lib, s, AfterWhite(s, p), ts[0])
      case None => None
      case Some(m) => Reads(lib, s, m, ts[1..])
  }

  // ---- What a document denotes, and the limits ----

  function Denoted(doc: Doc): Value
    decreases doc, 0
  {
    match doc
    case Nothing => Null
    case Truth(b) => Bool(b)
    case Numeral(x) => Num(x)
    case Quote(pieces) => Str(CString(MeantAll(pieces)))
    case List(items) => Arr(DenotedAll(items), |items|)
    case Record(entries) => Obj(DenotedEntries(entries), |entries|)
  }

  function DenotedAll(items: seq<Doc>): (r: seq<Value>)
    ensures |r| == |items| && forall i :: 0 <= i < |r| ==> r[i] == Denoted(items[i])
    decreases items, 1
  {
    if items == [] then [] else [Denoted(items[0])] + DenotedAll(items[1..])
  }

  function DenotedEntries(entries: seq<Entry>): (r: seq<Member<Value>>)
    ensures |r| == |entries|
    ensures forall i :: 0 <= i < |r| ==> r[i] == Member(CString(MeantAll(entries[i].name)), Denoted(entries[i].doc))
    decreases entries, 1
  {
    if entries == [] then []
    else [Member(CString(MeantAll(entries[0].name)), Denoted(entries[0].doc))] + DenotedEntries(entries[1..])
  }

  /** Nesting, counts and names are within what the engine takes. */
  ghost predicate Admissible(doc: Doc, nesting: nat) {
    && nesting <= 2048
    && match doc
       case List(items) => |items| <= 122880 && forall i :: 0 <= i < |items| ==> Admissible(items[i], nesting + 1)
       case Record(entries) =>
         && |entries| <= 960 && UniqueNames(DenotedEntries(entries))
         && forall i :: 0 <= i < |entries| ==> Admissible(entries[i].doc, nesting + 1)
       case _ => true
  }

  // ---- Scanning ----

  lemma {:induction false} WhiteIsSpace(s: Buffer, p: nat)
    requires p < |s|
    ensures AfterWhite(s, p) == SkipSpaces(s, p)
    decreases |s| - p
  {
    if IsSpace(s[p]) {
      WhiteIsSpace(s, p + 1);
    }
  }

  lemma PlainIsDecimalForm(s: Buffer, q: nat, e: nat)
    requires q <= e < |s|
    ensures PlainNumeral(s[q..e]) <==> DecimalForm(s[q..e])
  {
    var t := s[q..e];
    assert forall i :: 0 <= i < |t| ==> t[i] == s[q + i] && t[i] != 0;
  }

  lemma {:induction false} ReadsAppend(lib: Lib, s: Buffer, p: nat, a: seq<Token>, b: seq<Token>)
    requires lib.Valid() && p < |s|
    ensures Reads(lib, s, p, a + b)
      == match Reads(lib, s, p, a) case None => None case Some(m) => Reads(lib, s, m, b)
    decreases |a|
  {
    hide TokenEnd, Lib.Valid;
    if a == [] {
      assert a + b == b;
    } else {
      assert (a + b)[0] == a[0] && (a + b)[1..] == a[1..] + b;
      var m := TokenEnd(lib, s, AfterWhite(s, p), a[0]);
      if m.Some? {
        ReadsAppend(lib, s, m.value, a[1..], b);
      }
    }
  }

  lemma ReadsHead(lib: Lib, s: Buffer, p: nat, t: Token, ts: seq<Token>)
    requires lib.Valid() && p < |s|
    ensures Reads(lib, s, p, [t] + ts)
      == match TokenEnd(lib, s, SkipSpaces(s, p), t) case None => None case Some(m) => Reads(lib, s, m, ts)
  {
    hide TokenEnd, Lib.Valid;
    WhiteIsSpace(s, p);
    assert ([t] + ts)[1..] == ts;
  }

  lemma ReadsOne(lib: Lib, s: Buffer, p: nat, t: Token)
    requires lib.Valid() && p < |s|
    ensures Reads(lib, s, p, [t]) == TokenEnd(lib, s, SkipSpaces(s, p), t)
  {
    hide TokenEnd, Lib.Valid;
    assert [t] + [] == [t];
    ReadsHead(lib, s, p, t, []);
  }

  /** A token of one byte. */
  lemma ByteToken(lib: Lib, s: Buffer, q: nat, b: byte)
    requires lib.Valid() && q < |s| && b != 0
    ensures TokenEnd(lib, s, q, Fixed([b])) == if s[q] == b then Some(q + 1) else None
  {
    if s[q] == b {
      assert s[q..q + 1] == [b];
    } else if q + 1 < |s| {
      assert s[q..q + 1][0] == s[q];
    }
  }

  // ---- Scalars ----

  /** A byte at which a value can start. */
  predicate Starts(b: byte) {
    b == 123 || b == 91 || b == 34 || b == 45 || 48 <= b <= 57 || b == 102 || b == 110 || b == 116
  }

  lemma WordToken(lib: Lib, s: Buffer, q: nat, t: Bytes, v: Value, nesting: nat)
    requires lib.Valid() && q < |s|
    requires (t, v) == (TRUE_TEXT, Bool(true)) || (t, v) == (FALSE_TEXT, Bool(false)) || (t, v) == (NULL_TEXT, Null)
    ensures TokenEnd(lib, s, q, Fixed(t)) == if Holds(s, q, t) then Some(q + |t|) else None
    ensures Holds(s, q, t) ==>
      s[q] == t[0] && ParseValue(lib, s, q, nesting) == if nesting <= MAX_NESTING then Ok(v, q + |t|) else Fail
  {
    hide ParseValue, Lib.Valid;
    if Holds(s, q, t) {
      LiteralInside(s, q, t);
      LiteralParsed(lib, s, q, t, v, nesting);
    }
  }

  /** A string at its opening quote, or a number at its sign or first digit. */
  lemma ScalarParsed(lib: Lib, s: Buffer, q: nat, nesting: nat)
    requires lib.Valid() && q < |s| && nesting <= MAX_NESTING
    ensures s[q] == QUOTE ==>
      ParseValue(lib, s, q, nesting)
      == match QuotedString(s, q) case Fail => Fail case Ok(t, end) => Ok(Str(t), end)
    ensures s[q] == MINUS || IsDigit(s[q]) ==> ParseValue(lib, s, q, nesting) == NumberValue(lib, s, q)
  {
    hide Lib.Valid, ParseObject, ParseArray, QuotedString, NumberValue;
    if s[q] == QUOTE || s[q] == MINUS || IsDigit(s[q]) {
      SkipsNothing(s, q);
    }
  }

  lemma TooDeep(lib: Lib, s: Buffer, q: nat, nesting: nat)
    requires lib.Valid() && q < |s| && nesting > MAX_NESTING
    ensures ParseValue(lib, s, q, nesting) == Fail
  {
  }

  lemma NumberToken(lib: Lib, s: Buffer, q: nat, x: real)
    requires lib.Valid() && q < |s|
    ensures TokenEnd(lib, s, q, Number(x)).Some?
      <==> (s[q] == MINUS || IsDigit(s[q])) && NumberValue(lib, s, q).Ok? && NumberValue(lib, s, q).value == Num(x)
    ensures TokenEnd(lib, s, q, Number(x)).Some? ==>
      TokenEnd(lib, s, q, Number(x)).value == NumberValue(lib, s, q).end
  {
    hide PlainNumeral, DecimalForm;
    var scan := lib.strtod(s, q);
    assert q <= scan.end < |s|;
    PlainIsDecimalForm(s, q, scan.end);
  }

  lemma QuoteToken(lib: Lib, s: Buffer, q: nat, pieces: Pieces)
    requires lib.Valid() && q < |s| && TokenEnd(lib, s, q, Spelled(pieces)).Some?
    ensures s[q] == QUOTE
    ensures QuotedString(s, q) == Ok(CString(MeantAll(pieces)), TokenEnd(lib, s, q, Spelled(pieces)).value)
  {
    hide WrittenAll, MeantAll, CString, QuotedString, Lib.Valid;
    var end := q + |WrittenAll(pieces)| + 2;
    SpelledIsQuoted(s, q, pieces, end);
    HoldsAt(s, q, [34] + (WrittenAll(pieces) + [34]), 0);
  }

  lemma ScalarDocParsed(lib: Lib, s: Buffer, p: nat, doc: Doc, nesting: nat)
    requires lib.Valid() && p < |s| && !doc.List? && !doc.Record? && Reads(lib, s, p, DocTokens(doc)).Some?
    ensures ParseValue(lib, s, p, nesting)
      == if nesting <= 2048 then Ok(Denoted(doc), Reads(lib, s, p, DocTokens(doc)).value) else Fail
    ensures Starts(s[SkipSpaces(s, p)])
  {
    hide Lib.Valid, ParseValue, TokenEnd, Reads, SkipSpaces, CString, MeantAll, QuotedString, NumberValue, Holds;
    var q, t := SkipSpaces(s, p), DocTokens(doc)[0];
    ReadsOne(lib, s, p, t);
    ParseValueSkips(lib, s, p, nesting);
    match doc
    case Nothing => WordToken(lib, s, q, NULL_TEXT, Null, nesting);
    case Truth(b) => WordToken(lib, s, q, if b then TRUE_TEXT else FALSE_TEXT, Bool(b), nesting);
    case Numeral(x) =>
      NumberToken(lib, s, q, x);
      ScalarOrDeep(lib, s, q, nesting);
    case Quote(pieces) =>
      QuoteToken(lib, s, q, pieces);
      ScalarOrDeep(lib, s, q, nesting);
  }

  lemma ScalarOrDeep(lib: Lib, s: Buffer, q: nat, nesting: nat)
    requires lib.Valid() && q < |s|
    ensures nesting > 2048 ==> ParseValue(lib, s, q, nesting) == Fail
    ensures nesting <= 2048 && s[q] == QUOTE ==>
      ParseValue(lib, s, q, nesting)
      == match QuotedString(s, q) case Fail => Fail case Ok(t, end) => Ok(Str(t), end)
    ensures nesting <= 2048 && (s[q] == MINUS || IsDigit(s[q])) ==>
      ParseValue(lib, s, q, nesting) == NumberValue(lib, s, q)
  {
    hide Lib.Valid, ParseValue, QuotedString, NumberValue;
    if nesting > 2048 {
      TooDeep(lib, s, q, nesting);
    } else {
      ScalarParsed(lib, s, q, nesting);
    }
  }

  // ---- Every document is parsed ----

  ghost predicate ItemsAdmissible(items: seq<Doc>, nesting: nat) {
    forall i :: 0 <= i < |items| ==> Admissible(items[i], nesting)
  }

  ghost predicate EntriesAdmissible(entries: seq<Entry>, nesting: nat) {
    forall i :: 0 <= i < |entries| ==> Admissible(entries[i].doc, nesting)
  }

  /** A document that its tokens read is parsed to what it denotes, up to the end of its last token, exactly when it is
      admissible; otherwise parsing fails. */
  lemma {:induction false} DocParsed(lib: Lib, s: Buffer, p: nat, doc: Doc, nesting: nat)
    requires lib.Valid() && p < |s| && Reads(lib, s, p, DocTokens(doc)).Some?
    ensures ParseValue(lib, s, p, nesting)
      == if Admissible(doc, nesting) then Ok(Denoted(doc), Reads(lib, s, p, DocTokens(doc)).value) else Fail
    ensures Starts(s[SkipSpaces(s, p)])
    decreases doc, 1
  {
    hide Lib.Valid, ParseValue, Reads, SkipSpaces, ListTokens, RecordTokens;
    match doc
    case List(items) =>
      assert Admissible(doc, nesting)
        <==> nesting <= 2048 && |items| <= 122880 && ItemsAdmissible(items, nesting + 1);
      ListParsed(lib, s, p, items, nesting);
    case Record(entries) =>
      assert Admissible(doc, nesting)
        <==> nesting <= 2048 && |entries| <= 960 && UniqueNames(DenotedEntries(entries))
             && EntriesAdmissible(entries, nesting + 1);
      RecordParsed(lib, s, p, entries, nesting);
    case _ => ScalarDocParsed(lib, s, p, doc, nesting);
  }

  lemma FirstByteRead(lib: Lib, s: Buffer, p: nat, b: byte, ts: seq<Token>)
    requires lib.Valid() && p < |s| && b != 0 && Reads(lib, s, p, [Fixed([b])] + ts).Some?
    ensures var q := SkipSpaces(s, p);
      s[q] == b && q + 1 < |s| && Reads(lib, s, q + 1, ts) == Reads(lib, s, p, [Fixed([b])] + ts)
  {
    hide Lib.Valid, TokenEnd, Reads, SkipSpaces;
    ReadsHead(lib, s, p, Fixed([b]), ts);
    ByteToken(lib, s, SkipSpaces(s, p), b);
  }

  lemma LastByteRead(lib: Lib, s: Buffer, p: nat, b: byte)
    requires lib.Valid() && p < |s| && b != 0
    ensures Reads(lib, s, p, [Fixed([b])]) == if s[SkipSpaces(s, p)] == b then Some(SkipSpaces(s, p) + 1) else None
  {
    hide Lib.Valid, TokenEnd, Reads, SkipSpaces;
    ReadsOne(lib, s, p, Fixed([b]));
    ByteToken(lib, s, SkipSpaces(s, p), b);
  }

  lemma {:induction false} ListParsed(lib: Lib, s: Buffer, p: nat, items: seq<Doc>, nesting: nat)
    requires lib.Valid() && p < |s| && Reads(lib, s, p, [OPEN_LIST] + ListTokens(items)).Some?
    ensures ParseValue(lib, s, p, nesting)
      == if nesting <= 2048 && |items| <= 122880 && ItemsAdmissible(items, nesting + 1)
         then Ok(Arr(DenotedAll(items), |items|), Reads(lib, s, p, [OPEN_LIST] + ListTokens(items)).value) else Fail
    ensures Starts(s[SkipSpaces(s, p)])
    decreases items, 2
  {
    hide Lib.Valid, ParseValue, ParseItems, Reads, SkipSpaces, Admissible, DocTokens;
    var q := SkipSpaces(s, p);
    FirstByteRead(lib, s, p, 91, ListTokens(items));
    ParseValueSkips(lib, s, p, nesting);
    ArrayParsed(lib, s, q, nesting);
    if items == [] {
      LastByteRead(lib, s, q + 1, 93);
    } else {
      ItemsParsed(lib, s, q + 1, items, nesting + 1, []);
      assert [] + DenotedAll(items) == DenotedAll(items);
    }
  }

  lemma ListTokensUnfold(items: seq<Doc>)
    requires items != []
    ensures ListTokens(items)
      == DocTokens(items[0]) + (if |items| == 1 then [CLOSE_LIST] else [SEPARATOR] + ListTokens(items[1..]))
  {
  }

  lemma ItemsDenoted(done: seq<Value>, items: seq<Doc>, nesting: nat)
    requires items != []
    ensures done + [Denoted(items[0])] + DenotedAll(items[1..]) == done + DenotedAll(items)
    ensures |items| == 1 ==> done + [Denoted(items[0])] == done + DenotedAll(items)
    ensures ItemsAdmissible(items, nesting)
      <==> Admissible(items[0], nesting) && ItemsAdmissible(items[1..], nesting)
    ensures |items| == 1 ==> ItemsAdmissible(items[1..], nesting)
  {
    hide Denoted, Admissible;
    AppendAssociates(done, [Denoted(items[0])], DenotedAll(items[1..]));
    if |items| == 1 {
      assert items[1..] == [];
    }
  }

  lemma {:induction false} ItemsParsed(lib: Lib, s: Buffer, p: nat, items: seq<Doc>, nesting: nat, done: seq<Value>)
    requires lib.Valid() && p < |s| && items != [] && Reads(lib, s, p, ListTokens(items)).Some?
    ensures ParseItems(lib, s, SkipSpaces(s, p), nesting, done)
      == if |done| + |items| <= 122880 && ItemsAdmissible(items, nesting)
         then Ok(Arr(done + DenotedAll(items), |done| + |items|), Reads(lib, s, p, ListTokens(items)).value) else Fail
    ensures Starts(s[SkipSpaces(s, p)])
    decreases items, 0
  {
    hide Lib.Valid, ParseValue, ParseItems, Reads, SkipSpaces, Admissible, DocTokens, ListTokens, ItemsAdmissible,
         Denoted, DenotedAll;
    var first, q := DocTokens(items[0]), SkipSpaces(s, p);
    ListTokensUnfold(items);
    ItemsDenoted(done, items, nesting);
    var after := if |items| == 1 then [CLOSE_LIST] else [SEPARATOR] + ListTokens(items[1..]);
    ReadsAppend(lib, s, p, first, after);
    var m := Reads(lib, s, p, first).value;
    DocParsed(lib, s, p, items[0], nesting);
    ParseValueSkips(lib, s, p, nesting);
    ItemsUnfold(lib, s, q, nesting, done);
    if |items| == 1 {
      LastByteRead(lib, s, m, 93);
    } else {
      FirstByteRead(lib, s, m, 44, ListTokens(items[1..]));
      ItemsParsed(lib, s, SkipSpaces(s, m) + 1, items[1..], nesting, done + [Denoted(items[0])]);
    }
  }

  lemma {:induction false} RecordParsed(lib: Lib, s: Buffer, p: nat, entries: seq<Entry>, nesting: nat)
    requires lib.Valid() && p < |s| && Reads(lib, s, p, [OPEN_RECORD] + RecordTokens(entries)).Some?
    ensures ParseValue(lib, s, p, nesting)
      == if nesting <= 2048 && |entries| <= 960 && UniqueNames(DenotedEntries(entries))
            && EntriesAdmissible(entries, nesting + 1)
         then Ok(Obj(DenotedEntries(entries), |entries|),
                 Reads(lib, s, p, [OPEN_RECORD] + RecordTokens(entries)).value)
         else Fail
    ensures Starts(s[SkipSpaces(s, p)])
    decreases entries, 2
  {
    hide Lib.Valid, ParseValue, ParseMembers, Reads, SkipSpaces, Admissible, DocTokens, Denoted, MeantAll, CString,
         EntriesAdmissible;
    NoEntries(nesting + 1);
    var q := SkipSpaces(s, p);
    FirstByteRead(lib, s, p, 123, RecordTokens(entries));
    ParseValueSkips(lib, s, p, nesting);
    ObjectParsed(lib, s, q, nesting);
    if entries == [] {
      LastByteRead(lib, s, q + 1, 125);
    } else {
      EntriesParsed(lib, s, q + 1, entries, nesting + 1, []);
      assert [] + DenotedEntries(entries) == DenotedEntries(entries);
    }
  }

  lemma NoEntries(nesting: nat)
    ensures EntriesAdmissible([], nesting)
  {
  }

  function DenotedEntry(entry: Entry): Member<Value> {
    Member(CString(MeantAll(entry.name)), Denoted(entry.doc))
  }

  lemma EntriesDenoted(done: seq<Member<Value>>, entries: seq<Entry>, nesting: nat)
    requires entries != [] && UniqueNames(done)
    ensures var m, ms := DenotedEntry(entries[0]), DenotedEntries(entries);
      && done + [m] + DenotedEntries(entries[1..]) == done + ms
      && (|entries| == 1 ==> done + [m] == done + ms)
      && (m.name in Names(done) ==> !UniqueNames(done + ms))
      && (m.name !in Names(done) ==> UniqueNames(done + [m]))
    ensures EntriesAdmissible(entries, nesting)
      <==> Admissible(entries[0].doc, nesting) && EntriesAdmissible(entries[1..], nesting)
    ensures |entries| == 1 ==> EntriesAdmissible(entries[1..], nesting)
  {
    hide Denoted, Admissible, MeantAll, CString;
    var m, ms := DenotedEntry(entries[0]), DenotedEntries(entries);
    AppendAssociates(done, [m], DenotedEntries(entries[1..]));
    if |entries| == 1 {
      assert entries[1..] == [];
    }
    if m.name in Names(done) {
      var i :| 0 <= i < |done| && done[i].name == m.name;
      assert (done + ms)[i].name == (done + ms)[|done|].name;
    }
  }

  lemma RecordTokensUnfold(entries: seq<Entry>)
    requires entries != []
    ensures RecordTokens(entries)
      == [Spelled(entries[0].name)] + ([BINDER] + (DocTokens(entries[0].doc)
           + (if |entries| == 1 then [CLOSE_RECORD] else [SEPARATOR] + RecordTokens(entries[1..]))))
  {
  }

  /** A name and its colon. */
  lemma EntryNameRead(lib: Lib, s: Buffer, p: nat, name: Pieces, ts: seq<Token>)
    requires lib.Valid() && p < |s| && Reads(lib, s, p, [Spelled(name)] + ([BINDER] + ts)).Some?
    ensures s[SkipSpaces(s, p)] == QUOTE
    ensures var r := NameAndColon(s, SkipSpaces(s, p));
      && r.Ok? && r.value == CString(MeantAll(name))
      && Reads(lib, s, r.end, ts) == Reads(lib, s, p, [Spelled(name)] + ([BINDER] + ts))
  {
    hide Lib.Valid, TokenEnd, Reads, SkipSpaces, CString, MeantAll, QuotedString;
    var q := SkipSpaces(s, p);
    ReadsHead(lib, s, p, Spelled(name), [BINDER] + ts);
    QuoteToken(lib, s, q, name);
    FirstByteRead(lib, s, TokenEnd(lib, s, q, Spelled(name)).value, 58, ts);
  }

  lemma {:induction false} EntriesParsed(lib: Lib, s: Buffer, p: nat, entries: seq<Entry>, nesting: nat,
                                         done: seq<Member<Value>>)
    requires lib.Valid() && p < |s| && entries != [] && UniqueNames(done)
    requires Reads(lib, s, p, RecordTokens(entries)).Some?
    ensures s[SkipSpaces(s, p)] == QUOTE
    ensures ParseMembers(lib, s, SkipSpaces(s, p), nesting, done)
      == if |done| + |entries| <= 960 && UniqueNames(done + DenotedEntries(entries))
            && EntriesAdmissible(entries, nesting)
         then Ok(Obj(done + DenotedEntries(entries), |done| + |entries|),
                 Reads(lib, s, p, RecordTokens(entries)).value)
         else Fail
    decreases entries, 0
  {
    hide Lib.Valid, ParseValue, ParseMembers, Reads, SkipSpaces, Admissible, DocTokens, RecordTokens, EntriesAdmissible,
         Denoted, DenotedEntries, NameAndColon, CString, MeantAll, UniqueNames, Names;
    var value, q, m := DocTokens(entries[0].doc), SkipSpaces(s, p), DenotedEntry(entries[0]);
    var after := if |entries| == 1 then [CLOSE_RECORD] else [SEPARATOR] + RecordTokens(entries[1..]);
    RecordTokensUnfold(entries);
    EntriesDenoted(done, entries, nesting);
    EntryNameRead(lib, s, p, entries[0].name, value + after);
    var b := NameAndColon(s, q).end;
    ReadsAppend(lib, s, b, value, after);
    var e := Reads(lib, s, b, value).value;
    DocParsed(lib, s, b, entries[0].doc, nesting);
    MembersUnfold(lib, s, q, nesting, done);
    if |entries| == 1 {
      LastByteRead(lib, s, e, 125);
    } else {
      FirstByteRead(lib, s, e, 44, RecordTokens(entries[1..]));
      if m.name !in Names(done) {
        EntriesParsed(lib, s, SkipSpaces(s, e) + 1, entries[1..], nesting, done + [m]);
      }
    }
  }

  // ---- Everything parsed is a document ----

  lemma ByteThen(lib: Lib, s: Buffer, p: nat, b: byte, ts: seq<Token>)
    requires lib.Valid() && p < |s| && b != 0 && s[SkipSpaces(s, p)] == b
    ensures var q := SkipSpaces(s, p); q + 1 < |s| && Reads(lib, s, p, [Fixed([b])] + ts) == Reads(lib, s, q + 1, ts)
  {
    hide Lib.Valid, TokenEnd, Reads, SkipSpaces;
    ReadsHead(lib, s, p, Fixed([b]), ts);
    ByteToken(lib, s, SkipSpaces(s, p), b);
  }

  lemma ReadsSkips(lib: Lib, s: Buffer, p: nat, ts: seq<Token>)
    requires lib.Valid() && p < |s| && ts != []
    ensures Reads(lib, s, SkipSpaces(s, p), ts) == Reads(lib, s, p, ts)
  {
    hide Lib.Valid, TokenEnd;
    WhiteIsSpace(s, p);
    WhiteIsSpace(s, SkipSpaces(s, p));
    SkipsNothing(s, SkipSpaces(s, p));
  }

  /** Where a value that is neither array nor object was parsed, its token stands. */
  lemma ParsedScalar(lib: Lib, s: Buffer, p: nat, nesting: nat) returns (doc: Doc)
    requires lib.Valid() && p < |s| && ParseValue(lib, s, p, nesting).Ok?
    requires s[SkipSpaces(s, p)] != LBRACKET && s[SkipSpaces(s, p)] != LBRACE
    ensures Reads(lib, s, p, DocTokens(doc)) == Some(ParseValue(lib, s, p, nesting).end)
  {
    hide Lib.Valid, TokenEnd, Reads, SkipSpaces, QuotedString, NumberValue, ParseValue, WrittenAll;
    var q := SkipSpaces(s, p);
    ParseValueSkips(lib, s, p, nesting);
    if nesting > MAX_NESTING {
      TooDeep(lib, s, q, nesting);
    }
    ScalarParsed(lib, s, q, nesting);
    if s[q] == QUOTE {
      var pieces := QuotedIsSpelled(s, q);
      SpelledIsToken(lib, s, q, pieces);
      doc := Quote(pieces);
    } else if s[q] == MINUS || IsDigit(s[q]) {
      var x := NumberOf(lib, s, q);
      NumberToken(lib, s, q, x);
      doc := Numeral(x);
    } else {
      doc := ParsedWord(lib, s, q, nesting);
    }
    ReadsOne(lib, s, p, DocTokens(doc)[0]);
  }

  lemma NumberOf(lib: Lib, s: Buffer, q: nat) returns (x: real)
    requires lib.Valid() && q < |s| && NumberValue(lib, s, q).Ok?
    ensures NumberValue(lib, s, q).value == Num(x)
  {
    hide Lib.Valid;
    x := NumberValue(lib, s, q).value.x;
  }

  lemma SpelledIsToken(lib: Lib, s: Buffer, q: nat, pieces: Pieces)
    requires lib.Valid() && q < |s| && QuotedString(s, q).Ok?
    requires SpelledAt(s, q, pieces, QuotedString(s, q).end)
    ensures TokenEnd(lib, s, q, Spelled(pieces)) == Some(QuotedString(s, q).end)
  {
    hide Lib.Valid, QuotedString, WrittenAll, Holds;
  }

  lemma ParsedWord(lib: Lib, s: Buffer, q: nat, nesting: nat) returns (doc: Doc)
    requires lib.Valid() && q < |s| && ParseValue(lib, s, q, nesting).Ok? && !IsSpace(s[q])
    requires s[q] != LBRACKET && s[q] != LBRACE && s[q] != QUOTE && s[q] != MINUS && !IsDigit(s[q])
    ensures doc.Nothing? || doc.Truth?
    ensures TokenEnd(lib, s, q, DocTokens(doc)[0]) == Some(ParseValue(lib, s, q, nesting).end)
  {
    hide Lib.Valid, TokenEnd, QuotedString, NumberValue, ParseObject, ParseArray, Holds;
    SkipsNothing(s, q);
    WordToken(lib, s, q, TRUE_TEXT, Bool(true), nesting);
    WordToken(lib, s, q, FALSE_TEXT, Bool(false), nesting);
    WordToken(lib, s, q, NULL_TEXT, Null, nesting);
    doc := if Holds(s, q, TRUE_TEXT) then Truth(true) else if Holds(s, q, FALSE_TEXT) then Truth(false) else Nothing;
  }

  /** Whatever is parsed reads as the tokens of some document, up to the end that the parser reports. */
  lemma {:induction false} ParsedIsDoc(lib: Lib, s: Buffer, p: nat, nesting: nat) returns (doc: Doc)
    requires lib.Valid() && p < |s| && ParseValue(lib, s, p, nesting).Ok?
    ensures Reads(lib, s, p, DocTokens(doc)) == Some(ParseValue(lib, s, p, nesting).end)
    decreases |s| - p, 3
  {
    hide Lib.Valid, TokenEnd, Reads, SkipSpaces, ParseValue, ParseItems, ParseMembers, ListTokens, RecordTokens;
    var q := SkipSpaces(s, p);
    ParseValueSkips(lib, s, p, nesting);
    if s[q] != LBRACKET && s[q] != LBRACE {
      doc := ParsedScalar(lib, s, p, nesting);
    } else if s[q] == LBRACKET {
      ArrayParsed(lib, s, q, nesting);
      var b := SkipSpaces(s, q + 1);
      var items := [];
      if s[b] == RBRACKET {
        NoListTokens();
        LastByteRead(lib, s, q + 1, 93);
      } else {
        items := ParsedItems(lib, s, b, nesting + 1, []);
        ReadsSkips(lib, s, q + 1, ListTokens(items));
      }
      ByteThen(lib, s, p, 91, ListTokens(items));
      doc := List(items);
    } else {
      ObjectParsed(lib, s, q, nesting);
      var b := SkipSpaces(s, q + 1);
      var entries := [];
      if s[b] == RBRACE {
        NoListTokens();
        LastByteRead(lib, s, q + 1, 125);
      } else {
        entries := ParsedEntries(lib, s, b, nesting + 1, []);
        ReadsSkips(lib, s, q + 1, RecordTokens(entries));
      }
      ByteThen(lib, s, p, 123, RecordTokens(entries));
      doc := Record(entries);
    }
  }

  lemma NoListTokens()
    ensures ListTokens([]) == [CLOSE_LIST] && RecordTokens([]) == [CLOSE_RECORD]
  {
  }

  lemma {:induction false} ParsedItems(lib: Lib, s: Buffer, p: nat, nesting: nat, done: seq<Value>)
    returns (items: seq<Doc>)
    requires lib.Valid() && p < |s| && ParseItems(lib, s, p, nesting, done).Ok?
    ensures items != [] && ListTokens(items) != []
    ensures Reads(lib, s, p, ListTokens(items)) == Some(ParseItems(lib, s, p, nesting, done).end)
    decreases |s| - p, 4
  {
    hide Lib.Valid, TokenEnd, Reads, SkipSpaces, ParseValue, ParseItems, ListTokens, DocTokens;
    ItemsUnfold(lib, s, p, nesting, done);
    var v := ParseValue(lib, s, p, nesting);
    var q := SkipSpaces(s, v.end);
    var doc := ParsedIsDoc(lib, s, p, nesting);
    if s[q] == COMMA {
      var b := SkipSpaces(s, q + 1);
      var rest := ParsedItems(lib, s, b, nesting, done + [v.value]);
      ReadsSkips(lib, s, q + 1, ListTokens(rest));
      ByteThen(lib, s, v.end, 44, ListTokens(rest));
      items := [doc] + rest;
      assert items[1..] == rest;
      ReadsAppend(lib, s, p, DocTokens(doc), [SEPARATOR] + ListTokens(rest));
    } else {
      LastByteRead(lib, s, v.end, 93);
      items := [doc];
      ReadsAppend(lib, s, p, DocTokens(doc), [CLOSE_LIST]);
    }
    ListTokensUnfold(items);
  }

  /** A member's name that was parsed reads as a spelled name and a colon. */
  lemma ParsedName(lib: Lib, s: Buffer, p: nat, ts: seq<Token>) returns (name: Pieces)
    requires lib.Valid() && p < |s| && NameAndColon(s, p).Ok?
    ensures Reads(lib, s, p, [Spelled(name)] + ([BINDER] + ts)) == Reads(lib, s, NameAndColon(s, p).end, ts)
  {
    hide Lib.Valid, TokenEnd, Reads, SkipSpaces, QuotedString, WrittenAll;
    assert s[p] == QUOTE by {
      QuoteFirst(s, p);
    }
    SkipsNothing(s, p);
    name := QuotedIsSpelled(s, p);
    SpelledIsToken(lib, s, p, name);
    ReadsHead(lib, s, p, Spelled(name), [BINDER] + ts);
    ByteThen(lib, s, QuotedString(s, p).end, 58, ts);
  }

  lemma QuoteFirst(s: Buffer, p: nat)
    requires p < |s| && QuotedString(s, p).Ok?
    ensures s[p] == QUOTE
  {
  }

  lemma {:induction false} ParsedEntries(lib: Lib, s: Buffer, p: nat, nesting: nat, done: seq<Member<Value>>)
    returns (entries: seq<Entry>)
    requires lib.Valid() && p < |s| && ParseMembers(lib, s, p, nesting, done).Ok?
    ensures entries != [] && RecordTokens(entries) != []
    ensures Reads(lib, s, p, RecordTokens(entries)) == Some(ParseMembers(lib, s, p, nesting, done).end)
    decreases |s| - p, 1
  {
    hide Lib.Valid, TokenEnd, Reads, SkipSpaces, ParseValue, ParseMembers, NameAndColon, RecordTokens, DocTokens, Names;
    MembersUnfold(lib, s, p, nesting, done);
    var name := NameAndColon(s, p);
    var v := ParseValue(lib, s, name.end, nesting);
    var q := SkipSpaces(s, v.end);
    var doc := ParsedIsDoc(lib, s, name.end, nesting);
    var rest, after := [], [CLOSE_RECORD];
    if s[q] == COMMA {
      var b := SkipSpaces(s, q + 1);
      rest := ParsedEntries(lib, s, b, nesting, done + [Member(name.value, v.value)]);
      after := [SEPARATOR] + RecordTokens(rest);
      ReadsSkips(lib, s, q + 1, RecordTokens(rest));
      ByteThen(lib, s, v.end, 44, RecordTokens(rest));
    } else {
      LastByteRead(lib, s, v.end, 125);
    }
    ReadsAppend(lib, s, name.end, DocTokens(doc), after);
    var pieces := ParsedName(lib, s, p, DocTokens(doc) + after);
    entries := [Entry(pieces, doc)] + rest;
    assert entries[1..] == rest;
    RecordTokensUnfold(entries);
  }

  // ---- The language ----

  /** A value is parsed at a position, up to an end, exactly when a document that denotes it stands there and is
      admissible. */
  lemma ParserAcceptsExactly(lib: Lib, s: Buffer, p: nat, nesting: nat, v: Value, e: nat)
    requires lib.Valid() && p < |s|
    ensures ParseValue(lib, s, p, nesting) == Ok(v, e)
      <==> exists doc :: Reads(lib, s, p, DocTokens(doc)) == Some(e) && Admissible(doc, nesting) && Denoted(doc) == v
  {
    hide Lib.Valid, ParseValue, Reads, DocTokens, Admissible, Denoted;
    if ParseValue(lib, s, p, nesting) == Ok(v, e) {
      var doc := ParsedIsDoc(lib, s, p, nesting);
      DocParsed(lib, s, p, doc, nesting);
    }
    if doc :| Reads(lib, s, p, DocTokens(doc)) == Some(e) && Admissible(doc, nesting) && Denoted(doc) == v {
      DocParsed(lib, s, p, doc, nesting);
    }
  }

  // ---- What is refused ----

  /** An accepted number starts with a minus sign or a digit, has no needless leading zero, and no x. */
  lemma AcceptedNumber(lib: Lib, s: Buffer, p: nat, nesting: nat)
    requires lib.Valid() && p < |s| && ParseValue(lib, s, p, nesting).Ok? && ParseValue(lib, s, p, nesting).value.Num?
    ensures var q, e := AfterWhite(s, p), ParseValue(lib, s, p, nesting).end;
      q <= e < |s| && (s[q] == 45 || 48 <= s[q] <= 57) && PlainNumeral(s[q..e])
  {
    hide Lib.Valid, ParseValue, Reads, PlainNumeral, AfterWhite;
    var doc := ParsedIsDoc(lib, s, p, nesting);
    DocParsed(lib, s, p, doc, nesting);
    assert doc.Numeral?;
    WhiteIsSpace(s, p);
    ReadsOne(lib, s, p, Number(doc.x));
  }

  lemma {:induction false} WrittenIsPrintable(pieces: seq<Piece>)
    requires ValidPieces(pieces)
    ensures forall i :: 0 <= i < |WrittenAll(pieces)| ==> WrittenAll(pieces)[i] >= 0x20
    decreases |pieces|
  {
    hide SurrogatePair;
    if pieces == [] {
    } else {
      PieceIsPrintable(pieces[0]);
      hide Written;
      WrittenIsPrintable(pieces[1..]);
    }
  }

  lemma PieceIsPrintable(piece: Piece)
    requires ValidPiece(piece)
    ensures forall i :: 0 <= i < |Written(piece)| ==> Written(piece)[i] >= 0x20
  {
    match piece
    case Unicode(cp, first, second) =>
      if cp >= 0x10000 {
        PairOfScalar(cp);
      }
    case _ =>
  }

  /** An accepted string holds no raw control byte between its quotes. */
  lemma AcceptedString(lib: Lib, s: Buffer, p: nat, nesting: nat)
    requires lib.Valid() && p < |s| && ParseValue(lib, s, p, nesting).Ok? && ParseValue(lib, s, p, nesting).value.Str?
    ensures var q, e := AfterWhite(s, p), ParseValue(lib, s, p, nesting).end;
      q < e < |s| && s[q] == 34 && s[e - 1] == 34 && forall i :: q <= i < e ==> s[i] >= 0x20
  {
    hide Lib.Valid, ParseValue, Reads, AfterWhite, WrittenAll;
    var doc := ParsedIsDoc(lib, s, p, nesting);
    DocParsed(lib, s, p, doc, nesting);
    assert doc.Quote?;
    WhiteIsSpace(s, p);
    ReadsOne(lib, s, p, Spelled(doc.pieces));
    SpelledBytes(s, SkipSpaces(s, p), doc.pieces, ParseValue(lib, s, p, nesting).end);
  }

  lemma SpelledBytes(s: Buffer, q: nat, pieces: Pieces, e: nat)
    requires SpelledAt(s, q, pieces, e)
    ensures q < e && s[q] == 34 && s[e - 1] == 34 && forall i :: q <= i < e ==> s[i] >= 0x20
  {
    hide WrittenAll, Holds;
    WrittenIsPrintable(pieces);
    var t := [34] + (WrittenAll(pieces) + [34]);
    forall i | 0 <= i < |t|
      ensures s[q + i] == t[i]
    {
      HoldsAt(s, q, t, i);
    }
    assert |t| == e - q && s[q + 0] == t[0] && s[q + (|t| - 1)] == t[|t| - 1];
    forall i | q <= i < e
      ensures s[i] >= 0x20
    {
      assert s[i] == t[i - q];
    }
  }
}
