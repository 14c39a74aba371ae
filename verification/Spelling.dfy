/** The spellings of a string: a writer of quoted text of its own, and the proof that the two scanners accept exactly
    what it can write, and read it as what was meant. */
module Spelling {
  import opened CText
  import opened Values
  import opened Utf8
  import opened StringCodec
  import opened Parser

  // ---- Writing ----

  /** For each of four hexadecimal digits, whether a letter is written in upper case. */
  datatype Cases = Cases(a: bool, b: bool, c: bool, d: bool)

  function Digit(d: nat, upper: bool): byte
    requires d < 16
  {
    if d < 10 then 48 + d else if upper then 55 + d else 87 + d
  }

  /** The number in four hexadecimal digits, the highest first. */
  function FourDigits(n: nat, cases: Cases): (t: Bytes)
    requires n < 0x10000
    ensures |t| == 4
  {
    [Digit(n / 4096, cases.a), Digit(n / 256 % 16, cases.b), Digit(n / 16 % 16, cases.c), Digit(n % 16, cases.d)]
  }

  /** The letters of the short escapes, and what they stand for. */
  const LETTERS: map<byte, byte> :=
    map[34 := 34, 92 := 92, 47 := 47, 98 := 8, 102 := 12, 110 := 10, 114 := 13, 116 := 9]

  /** A byte written as itself, a short escape, or the `\u` escapes of a scalar value. */
  datatype Piece = Raw(b: byte) | Short(letter: byte) | Unicode(cp: int, first: Cases, second: Cases)

  predicate ValidPiece(piece: Piece) {
    match piece
    case Raw(b) => b >= 0x20 && b != 34 && b != 92
    case Short(letter) => letter in LETTERS
    case Unicode(cp, _, _) => Scalar(cp)
  }

  /** After the backslash. */
  function UnicodeText(cp: int, first: Cases, second: Cases): (t: Bytes)
    requires Scalar(cp)
    ensures |t| == if cp < 0x10000 then 5 else 11
  {
    if cp < 0x10000 then [117] + FourDigits(cp, first)
    else [117] + FourDigits(SurrogatePair(cp).0, first) + ([92, 117] + FourDigits(SurrogatePair(cp).1, second))
  }

  function Written(piece: Piece): (t: Bytes)
    requires ValidPiece(piece)
    ensures t != []
  {
    match piece
    case Raw(b) => [b]
    case Short(letter) => [92, letter]
    case Unicode(cp, first, second) => [92] + UnicodeText(cp, first, second)
  }

  function Meant(piece: Piece): Bytes
    requires ValidPiece(piece)
  {
    match piece
    case Raw(b) => [b]
    case Short(letter) => [LETTERS[letter]]
    case Unicode(cp, _, _) => Encode(cp)
  }

  predicate ValidPieces(pieces: seq<Piece>) {
    forall i :: 0 <= i < |pieces| ==> ValidPiece(pieces[i])
  }

  function WrittenAll(pieces: seq<Piece>): Bytes
    requires ValidPieces(pieces)
  {
    if pieces == [] then [] else Written(pieces[0]) + WrittenAll(pieces[1..])
  }

  function MeantAll(pieces: seq<Piece>): Bytes
    requires ValidPieces(pieces)
  {
    if pieces == [] then [] else Meant(pieces[0]) + MeantAll(pieces[1..])
  }

  // ---- Reading what was written ----

  lemma DigitRead(d: nat, upper: bool)
    requires d < 16
    ensures HexValue(Digit(d, upper)) == d && Digit(d, upper) != 0
  {
  }

  lemma FourBytes(s: Bytes, p: nat, t: Bytes)
    requires Holds(s, p, t) && |t| == 4
    ensures s[p] == t[0] && s[p + 1] == t[1] && s[p + 2] == t[2] && s[p + 3] == t[3]
  {
    HoldsAt(s, p, t, 0);
    HoldsAt(s, p, t, 1);
    HoldsAt(s, p, t, 2);
    HoldsAt(s, p, t, 3);
  }

  lemma FourDigitsMake(n: nat)
    requires n < 0x10000
    ensures n == ((n / 4096 * 16 + n / 256 % 16) * 16 + n / 16 % 16) * 16 + n % 16
  {
  }

  /** Four digits are read as the number, in either case of each letter. */
  lemma HexRead(s: Buffer, p: nat, n: nat, cases: Cases)
    requires n < 0x10000 && Holds(s, p, FourDigits(n, cases)) && p + 4 < |s|
    ensures ParseHex(s, p) == Some(n)
  {
    hide Digit, HexValue, Holds;
    FourBytes(s, p, FourDigits(n, cases));
    DigitRead(n / 4096, cases.a);
    DigitRead(n / 256 % 16, cases.b);
    DigitRead(n / 16 % 16, cases.c);
    DigitRead(n % 16, cases.d);
    FourDigitsMake(n);
  }

  lemma PairOfScalar(cp: int)
    requires Scalar(cp) && cp >= 0x10000
    ensures var (lead, trail) := SurrogatePair(cp);
      0xD800 <= lead <= 0xDBFF && 0xDC00 <= trail <= 0xDFFF && JoinSurrogates(lead, trail) == cp
  {
  }

  /** The escapes of a scalar value are read as that value, up to the last digit. */
  lemma UnicodeRead(s: Buffer, p: nat, cp: int, first: Cases, second: Cases)
    requires Scalar(cp) && Holds(s, p, UnicodeText(cp, first, second)) && p + |UnicodeText(cp, first, second)| < |s|
    ensures s[p] == 117
    ensures ParseUtf16(s, p) == Some(Escaped(cp, p + if cp < 0x10000 then 5 else 11))
  {
    hide Holds, ParseHex, FourDigits;
    HoldsAt(s, p, UnicodeText(cp, first, second), 0);
    if cp < 0x10000 {
      HoldsAppend(s, p, [117], FourDigits(cp, first));
      HexRead(s, p + 1, cp, first);
    } else {
      PairOfScalar(cp);
      var (lead, trail) := SurrogatePair(cp);
      HoldsAppend(s, p, [117] + FourDigits(lead, first), [92, 117] + FourDigits(trail, second));
      HoldsAppend(s, p, [117], FourDigits(lead, first));
      HoldsAppend(s, p + 5, [92, 117], FourDigits(trail, second));
      HoldsAt(s, p + 5, [92, 117], 0);
      HoldsAt(s, p + 5, [92, 117], 1);
      HexRead(s, p + 1, lead, first);
      HexRead(s, p + 7, trail, second);
    }
  }

  lemma RawRead(s: Buffer, i: nat, b: byte, e: nat)
    requires b >= 0x20 && b != 34 && b != 92 && Holds(s, i, [b]) && i + 1 <= e < |s|
    ensures SkipBody(s, i) == SkipBody(s, i + 1)
    ensures Process(s, i, e) == Prepend([b], Process(s, i + 1, e))
  {
    HoldsAt(s, i, [b], 0);
  }

  lemma ShortRead(s: Buffer, i: nat, letter: byte, e: nat)
    requires letter in LETTERS && Holds(s, i, [92, letter]) && i + 2 <= e < |s|
    ensures SkipBody(s, i) == SkipBody(s, i + 2)
    ensures Process(s, i, e) == Prepend([LETTERS[letter]], Process(s, i + 2, e))
  {
    HoldsAt(s, i, [92, letter], 0);
    HoldsAt(s, i, [92, letter], 1);
    assert Unescaped(letter) == Some(LETTERS[letter]);
  }

  /** One piece is passed over by the first scanner, and stored as what was meant by the second. */
  lemma PieceRead(s: Buffer, i: nat, piece: Piece, e: nat)
    requires ValidPiece(piece) && Holds(s, i, Written(piece)) && i + |Written(piece)| <= e < |s|
    ensures SkipBody(s, i) == SkipBody(s, i + |Written(piece)|)
    ensures Process(s, i, e) == Prepend(Meant(piece), Process(s, i + |Written(piece)|, e))
  {
    hide Holds, SkipBody, Prepend, ParseUtf16, StoredBytes, Encode, UnicodeText, LETTERS;
    match piece
    case Raw(b) => RawRead(s, i, b, e);
    case Short(letter) => ShortRead(s, i, letter, e);
    case Unicode(cp, first, second) =>
      var t := UnicodeText(cp, first, second);
      HoldsAppend(s, i, [92], t);
      HoldsAt(s, i, [92], 0);
      UnicodeRead(s, i + 1, cp, first, second);
      SkipBodyUtf16(s, i);
      StoredIsEncoded(cp);
  }

  lemma PrependAll(a: Bytes, b: Bytes, stop: nat)
    ensures Prepend(a, Some(Processed(b, stop))) == Some(Processed(a + b, stop))
  {
  }

  /** Any spelling, found anywhere in a buffer before a quote, is delimited there and stored as what was meant. */
  lemma {:induction false} SpellingIsRead(s: Buffer, i: nat, pieces: seq<Piece>, e: nat)
    requires ValidPieces(pieces) && Holds(s, i, WrittenAll(pieces))
    requires e == i + |WrittenAll(pieces)| < |s| && s[e] == QUOTE
    ensures SkipBody(s, i) == Some(e + 1)
    ensures Process(s, i, e) == Some(Processed(MeantAll(pieces), e))
    decreases |pieces|
  {
    hide Holds, ProcessRound, Written, Meant, Prepend;
    if pieces == [] {
    } else {
      var t, rest := Written(pieces[0]), WrittenAll(pieces[1..]);
      HoldsAppend(s, i, t, rest);
      PieceRead(s, i, pieces[0], e);
      SpellingIsRead(s, i + |t|, pieces[1..], e);
      PrependAll(Meant(pieces[0]), MeantAll(pieces[1..]), e);
    }
  }

  // ---- Nothing else is accepted ----

  function CaseOf(c: byte): bool {
    65 <= c <= 70
  }

  lemma DigitWritten(c: byte)
    requires HexValue(c) >= 0
    ensures Digit(HexValue(c), CaseOf(c)) == c
  {
  }

  lemma DigitsOf(x1: nat, x2: nat, x3: nat, x4: nat)
    requires x1 < 16 && x2 < 16 && x3 < 16 && x4 < 16
    ensures var n := ((x1 * 16 + x2) * 16 + x3) * 16 + x4;
      n / 4096 == x1 && n / 256 % 16 == x2 && n / 16 % 16 == x3 && n % 16 == x4
  {
  }

  function CasesAt(s: Bytes, p: nat): Cases
    requires p + 4 <= |s|
  {
    Cases(CaseOf(s[p]), CaseOf(s[p + 1]), CaseOf(s[p + 2]), CaseOf(s[p + 3]))
  }

  lemma HexWritten(s: Buffer, p: nat)
    requires p < |s| && ParseHex(s, p).Some?
    ensures s[p..p + 4] == FourDigits(ParseHex(s, p).value, CasesAt(s, p))
  {
    hide HexValue, Digit;
    DigitWritten(s[p]);
    DigitWritten(s[p + 1]);
    DigitWritten(s[p + 2]);
    DigitWritten(s[p + 3]);
    DigitsOf(HexValue(s[p]), HexValue(s[p + 1]), HexValue(s[p + 2]), HexValue(s[p + 3]));
  }

  /** What parse_utf16 has read when it accepts. */
  lemma Utf16Cases(s: Buffer, p: nat)
    requires p < |s| && s[p] != 0 && ParseUtf16(s, p).Some?
    ensures ParseHex(s, p + 1).Some?
    ensures var r, n := ParseUtf16(s, p).value, ParseHex(s, p + 1).value;
      if r.end == p + 5 then r.cp == n
      else
        && s[p + 5] == BACKSLASH && s[p + 6] == 117 && ParseHex(s, p + 7).Some?
        && r.end == p + 11 && r.cp >= 0x10000
        && SurrogatePair(r.cp) == (n, ParseHex(s, p + 7).value)
  {
    hide ParseHex;
    var n := ParseHex(s, p + 1).value;
    if 0xD800 <= n <= 0xDBFF {
      JoinSurrogatesInverts(n, ParseHex(s, p + 7).value);
    }
  }

  lemma FiveBytes(s: Bytes, p: nat)
    requires p + 5 <= |s|
    ensures s[p..p + 5] == [s[p]] + s[p + 1..p + 5]
  {
  }

  lemma ElevenBytes(s: Bytes, p: nat)
    requires p + 11 <= |s|
    ensures s[p..p + 11] == [s[p]] + s[p + 1..p + 5] + ([s[p + 5], s[p + 6]] + s[p + 7..p + 11])
  {
  }

  /** Whatever parse_utf16 accepts is the escape text of the scalar value it yields. */
  lemma UnicodeWritten(s: Buffer, p: nat) returns (first: Cases, second: Cases)
    requires p < |s| && s[p] == 117 && ParseUtf16(s, p).Some?
    ensures var r := ParseUtf16(s, p).value; s[p..r.end] == UnicodeText(r.cp, first, second)
  {
    hide ParseHex, FourDigits, ParseUtf16, SurrogatePair;
    Utf16Cases(s, p);
    HexWritten(s, p + 1);
    first := CasesAt(s, p + 1);
    second := first;
    if ParseUtf16(s, p).value.end == p + 11 {
      second := CasesAt(s, p + 7);
      HexWritten(s, p + 7);
      ElevenBytes(s, p);
    } else {
      FiveBytes(s, p);
    }
  }

  /** One round of process_string reads one piece. */
  lemma RoundIsPiece(s: Buffer, i: nat) returns (piece: Piece)
    requires i < |s| && s[i] != 0 && s[i] != QUOTE && ProcessRound(s, i).Some?
    ensures ValidPiece(piece)
    ensures var r := ProcessRound(s, i).value; s[i..r.next] == Written(piece) && r.stored == Meant(piece)
  {
    hide ParseUtf16, StoredBytes, Encode, UnicodeText;
    if s[i] != BACKSLASH {
      piece := Raw(s[i]);
    } else if s[i + 1] != 117 {
      piece := Short(s[i + 1]);
    } else {
      var r := ParseUtf16(s, i + 1).value;
      var first, second := UnicodeWritten(s, i + 1);
      piece := Unicode(r.cp, first, second);
      StoredIsEncoded(r.cp);
      assert s[i..r.end] == [s[i]] + s[i + 1..r.end];
    }
  }

  /** Where the string scanners agree on the next round. */
  lemma NextRound(s: Buffer, i: nat, e: nat)
    requires i < e < |s| && SkipBody(s, i) == Some(e + 1) && Process(s, i, e).Some?
    ensures s[i] != 0 && s[i] != QUOTE && ProcessRound(s, i).Some?
    ensures var r := ProcessRound(s, i).value;
      && r.next <= e && SkipBody(s, r.next) == Some(e + 1) && Process(s, r.next, e).Some?
      && Process(s, i, e) == Prepend(r.stored, Process(s, r.next, e))
  {
    hide ParseUtf16, StoredBytes;
    if s[i] == BACKSLASH && s[i + 1] == 117 {
      SkipBodyUtf16(s, i);
    }
    ScannersAgree(s, ProcessRound(s, i).value.next, e);
  }

  lemma {:induction false} ReadIsSpelled(s: Buffer, i: nat, e: nat) returns (pieces: seq<Piece>)
    requires i <= e < |s| && SkipBody(s, i) == Some(e + 1) && Process(s, i, e).Some?
    ensures ValidPieces(pieces) && s[i..e] == WrittenAll(pieces)
    ensures Process(s, i, e) == Some(Processed(MeantAll(pieces), e))
    decreases e - i
  {
    hide SkipBody, ProcessRound, Written, Meant, Prepend;
    if i == e {
      pieces := [];
    } else {
      NextRound(s, i, e);
      var r := ProcessRound(s, i).value;
      var piece := RoundIsPiece(s, i);
      var rest := ReadIsSpelled(s, r.next, e);
      pieces := [piece] + rest;
      assert pieces[1..] == rest;
      assert s[i..e] == s[i..r.next] + s[r.next..e];
      PrependAll(Meant(piece), MeantAll(rest), e);
    }
  }

  // ---- Quoted strings ----

  /** A quoted string of the buffer is spelled in these pieces. */
  ghost predicate SpelledAt(s: Buffer, p: nat, pieces: seq<Piece>, end: nat) {
    && ValidPieces(pieces) && end < |s|
    && Holds(s, p, [34] + (WrittenAll(pieces) + [34])) && end == p + |WrittenAll(pieces)| + 2
  }

  lemma SpelledIsQuoted(s: Buffer, p: nat, pieces: seq<Piece>, end: nat)
    requires SpelledAt(s, p, pieces, end)
    ensures QuotedString(s, p) == Ok(CString(MeantAll(pieces)), end)
  {
    hide Holds, WrittenAll, MeantAll, Process, SkipBody, CString;
    var t := WrittenAll(pieces);
    HoldsAppend(s, p, [34], t + [34]);
    HoldsAppend(s, p + 1, t, [34]);
    HoldsAt(s, p, [34], 0);
    HoldsAt(s, p + 1 + |t|, [34], 0);
    SpellingIsRead(s, p + 1, pieces, p + 1 + |t|);
  }

  lemma QuotedIsSpelled(s: Buffer, p: nat) returns (pieces: seq<Piece>)
    requires p < |s| && QuotedString(s, p).Ok?
    ensures SpelledAt(s, p, pieces, QuotedString(s, p).end)
  {
    hide WrittenAll, MeantAll, Process, SkipBody, CString;
    var e := SkipBody(s, p + 1).value - 1;
    ScannersAgree(s, p + 1, e);
    pieces := ReadIsSpelled(s, p + 1, e);
    assert s[p..e + 1] == [s[p]] + (s[p + 1..e] + [s[e]]);
  }

  /** A quoted string is accepted at a position, up to an end, exactly when what stands there is a spelling between two
      quotes; and then the value is what was meant, as a C string. */
  lemma QuotedExactly(s: Buffer, p: nat, t: Bytes, end: nat)
    requires p < |s|
    ensures QuotedString(s, p) == Ok(t, end)
      <==> exists pieces :: SpelledAt(s, p, pieces, end) && t == CString(MeantAll(pieces))
  {
    hide QuotedString, CString, MeantAll, WrittenAll;
    if QuotedString(s, p) == Ok(t, end) {
      var pieces := QuotedIsSpelled(s, p);
      SpelledIsQuoted(s, p, pieces, end);
    }
    if pieces :| SpelledAt(s, p, pieces, end) && t == CString(MeantAll(pieces)) {
      SpelledIsQuoted(s, p, pieces, end);
    }
  }

  // ---- Which spelling is printed ----

  /** A byte that has a short escape is printed as that, any other control byte as four digits, the rest as itself. */
  lemma PrintedSpelling(c: byte)
    ensures forall letter :: letter in LETTERS && LETTERS[letter] == c ==> EscapeByte(c) == [92, letter]
    ensures c !in LETTERS.Values ==>
      EscapeByte(c) == if c < 0x20 then [92, 117] + FourDigits(c, Cases(false, false, false, false)) else [c]
  {
    assert forall letter :: letter in LETTERS ==> LETTERS[letter] in LETTERS.Values;
    assert LETTERS[34] == 34 && LETTERS[92] == 92 && LETTERS[47] == 47 && LETTERS[98] == 8;
    assert LETTERS[102] == 12 && LETTERS[110] == 10 && LETTERS[114] == 13 && LETTERS[116] == 9;
    if c < 0x20 {
      assert c / 4096 == 0 && c / 256 % 16 == 0 && c / 16 % 16 == c / 16;
    }
  }
}
