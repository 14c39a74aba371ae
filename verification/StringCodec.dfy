/** Quoted strings: the two scanners that read them, the escaper that writes them. */
module StringCodec {
  import opened CText
  import opened Values
  import opened Utf8

  // ---- Escape sequences ----

  /** hex_char_to_int */
  function HexValue(c: byte): (x: int)
    ensures -1 <= x < 16
  {
    if 48 <= c <= 57 then c - 48
    else if 97 <= c <= 102 then c - 97 + 10
    else if 65 <= c <= 70 then c - 65 + 10
    else -1
  }

  /** parse_utf16_hex */
  function ParseHex(s: Buffer, p: nat): (r: Option<int>)
    requires p < |s|
    ensures r.Some? ==> p + 4 < |s| && 0 <= r.value < 0x10000
  {
    if s[p] == 0 || s[p + 1] == 0 || s[p + 2] == 0 || s[p + 3] == 0 then None
    else
      var x1, x2, x3, x4 := HexValue(s[p]), HexValue(s[p + 1]), HexValue(s[p + 2]), HexValue(s[p + 3]);
      if x1 == -1 || x2 == -1 || x3 == -1 || x4 == -1 then None
      else Some(((x1 * 16 + x2) * 16 + x3) * 16 + x4)
  }

  datatype Escaped = Escaped(cp: int, end: nat)

  /** Joins a lead and a trail surrogate. */
  function JoinSurrogates(lead: int, trail: int): int
    requires 0xD800 <= lead <= 0xDBFF && 0xDC00 <= trail <= 0xDFFF
  {
    (lead - 0xD800) % 0x400 * 0x400 + (trail - 0xDC00) % 0x400 + 0x10000
  }

  /** Section 2.1 of RFC 2781: the surrogate pair of a scalar value. */
  function SurrogatePair(cp: int): (int, int)
    requires 0x10000 <= cp <= 0x10FFFF
  {
    (0xD800 + (cp - 0x10000) / 0x400, 0xDC00 + (cp - 0x10000) % 0x400)
  }

  lemma JoinSurrogatesInverts(lead: int, trail: int)
    requires 0xD800 <= lead <= 0xDBFF && 0xDC00 <= trail <= 0xDFFF
    ensures var cp := JoinSurrogates(lead, trail); 0x10000 <= cp <= 0x10FFFF && SurrogatePair(cp) == (lead, trail)
  {
  }

  /** parse_utf16, from the 'u' at s[p]: the code point, and the position after the last digit. */
  function ParseUtf16(s: Buffer, p: nat): (r: Option<Escaped>)
    requires p < |s| && s[p] != 0
    ensures r.Some? ==> Scalar(r.value.cp) && (r.value.end == p + 5 || r.value.end == p + 11) && r.value.end < |s|
    ensures r.Some? && r.value.end == p + 5 ==> r.value.cp < 0x10000
  {
    match ParseHex(s, p + 1)
    case None => None
    case Some(cp) =>
      if cp < 0xD800 || cp > 0xDFFF then Some(Escaped(cp, p + 5))
      else if cp <= 0xDBFF then
        if s[p + 5] != BACKSLASH || s[p + 6] != 117 then None
        else
          match ParseHex(s, p + 7)
          case None => None
          case Some(trail) =>
            if trail < 0xDC00 || trail > 0xDFFF then None
            else
              JoinSurrogatesInverts(cp, trail);
              Some(Escaped(JoinSurrogates(cp, trail), p + 11))
      else None
  }

  /** The bytes parse_utf16 stores for a code point. */
  function StoredBytes(cp: int): Bytes
    requires 0 <= cp < 0x200000
  {
    if cp < 0x80 then [cp]
    else if cp < 0x800 then [cp / 64 % 32 + 0xC0, cp % 64 + 0x80]
    else if cp < 0x10000 then [cp / 4096 % 16 + 0xE0, cp / 64 % 64 + 0x80, cp % 64 + 0x80]
    else [cp / 262144 % 8 + 0xF0, cp / 4096 % 64 + 0x80, cp / 64 % 64 + 0x80, cp % 64 + 0x80]
  }

  lemma StoredLength(cp: int)
    requires 0 <= cp < 0x200000
    ensures |StoredBytes(cp)| <= 4
  {
  }

  /** They are its UTF-8 encoding. */
  lemma StoredIsEncoded(cp: int)
    requires Scalar(cp)
    ensures StoredBytes(cp) == Encode(cp)
  {
  }

  /** A one-letter escape and the byte it stands for. */
  function Unescaped(c: byte): Option<byte> {
    match c
    case 34 => Some(QUOTE)
    case 92 => Some(BACKSLASH)
    case 47 => Some(SLASH)
    case 98 => Some(8)
    case 102 => Some(12)
    case 110 => Some(10)
    case 114 => Some(13)
    case 116 => Some(9)
    case _ => None
  }

  // ---- The two scanners ----

  /** skip_quotes after the opening quote: the position after the closing one. */
  function SkipBody(s: Buffer, i: nat): (r: Option<nat>)
    requires i < |s|
    ensures r.Some? ==> i < r.value < |s| && s[r.value - 1] == QUOTE
    decreases |s| - i
  {
    if s[i] == QUOTE then Some(i + 1)
    else if s[i] == 0 then None
    else if s[i] == BACKSLASH then
      if s[i + 1] == 0 then None else SkipBody(s, i + 2)
    else SkipBody(s, i + 1)
  }

  datatype Round = Round(stored: Bytes, next: nat)

  /** One round of the loop in process_string, at s[i] != 0: what is stored, and where reading goes on. */
  function ProcessRound(s: Buffer, i: nat): (r: Option<Round>)
    requires i < |s| && s[i] != 0
    ensures r.Some? ==> i < r.value.next < |s|
  {
    if s[i] == BACKSLASH then
      if s[i + 1] == 117 then
        match ParseUtf16(s, i + 1)
        case None => None
        case Some(e) => Some(Round(StoredBytes(e.cp), e.end))
      else
        match Unescaped(s[i + 1])
        case None => None
        case Some(c) => Some(Round([c], i + 2))
    else if s[i] < 0x20 then None
    else Some(Round([s[i]], i + 1))
  }

  /** The three kinds of round. */
  lemma RoundKinds(s: Buffer, i: nat)
    requires i < |s| && s[i] != 0 && ProcessRound(s, i).Some?
    ensures var r := ProcessRound(s, i).value;
      if s[i] != BACKSLASH then r.next == i + 1 && |r.stored| == 1
      else if s[i + 1] != 117 then Unescaped(s[i + 1]).Some? && r.next == i + 2 && |r.stored| == 1
      else
        ParseUtf16(s, i + 1).Some? && r.next == ParseUtf16(s, i + 1).value.end
        && |r.stored| <= 4 && r.next >= i + 6
  {
    hide ParseUtf16, StoredBytes, Unescaped;
    if s[i] == BACKSLASH && s[i + 1] == 117 {
      StoredLength(ParseUtf16(s, i + 1).value.cp);
    }
  }

  datatype Processed = Processed(text: Bytes, stop: nat)

  /** process_string from s[i] with `end` as its length limit: what it stores, and where it stops reading. */
  function Process(s: Buffer, i: nat, end: nat): (r: Option<Processed>)
    requires i < |s|
    ensures r.Some? ==> i <= r.value.stop < |s|
    decreases |s| - i
  {
    if s[i] == 0 || i >= end then Some(Processed([], i))
    else
      match ProcessRound(s, i)
      case None => None
      case Some(round) => Prepend(round.stored, Process(s, round.next, end))
  }

  function Prepend(text: Bytes, r: Option<Processed>): Option<Processed> {
    match r
    case None => None
    case Some(p) => Some(Processed(text + p.text, p.stop))
  }

  lemma SkipBodyPlain(s: Buffer, i: nat, k: nat)
    requires i + k < |s|
    requires forall j :: i <= j < i + k ==> s[j] != QUOTE && s[j] != BACKSLASH && s[j] != 0
    ensures SkipBody(s, i) == SkipBody(s, i + k)
    decreases k
  {
    if k > 0 {
      SkipBodyPlain(s, i + 1, k - 1);
    }
  }

  lemma HexIsPlain(s: Buffer, p: nat)
    requires p < |s| && ParseHex(s, p).Some?
    ensures SkipBody(s, p) == SkipBody(s, p + 4)
  {
    SkipBodyPlain(s, p, 4);
  }

  /** All of a `\u` escape is ASCII. */
  lemma Utf16IsAscii(s: Buffer, p: nat)
    requires p < |s| && s[p] == 117 && ParseUtf16(s, p).Some?
    ensures forall j :: p <= j < ParseUtf16(s, p).value.end ==> s[j] < 0x80
  {
  }

  /** skip_quotes passes over a whole `\u` escape, or a whole surrogate pair. */
  lemma SkipBodyUtf16(s: Buffer, i: nat)
    requires i + 1 < |s| && s[i] == BACKSLASH && s[i + 1] == 117 && ParseUtf16(s, i + 1).Some?
    ensures SkipBody(s, i) == SkipBody(s, ParseUtf16(s, i + 1).value.end)
  {
    var end := ParseUtf16(s, i + 1).value.end;
    HexIsPlain(s, i + 2);
    if end == i + 12 {
      HexIsPlain(s, i + 8);
    }
  }

  /** When skip_quotes delimits a string and process_string accepts it, the latter stops exactly at the
      closing quote, and never stores more bytes than it has read. */
  lemma {:induction false} ScannersAgree(s: Buffer, i: nat, e: nat)
    requires i < |s| && SkipBody(s, i) == Some(e + 1) && Process(s, i, e).Some?
    ensures i <= e && Process(s, i, e).value.stop == e && |Process(s, i, e).value.text| <= e - i
    decreases |s| - i
  {
    if s[i] == 0 || i >= e {
    } else {
      if s[i] == BACKSLASH {
        if s[i + 1] == 117 {
          SkipBodyUtf16(s, i);
          ScannersAgree(s, ParseUtf16(s, i + 1).value.end, e);
        } else {
          ScannersAgree(s, i + 2, e);
        }
      } else {
        ScannersAgree(s, i + 1, e);
      }
    }
  }

  // ---- UTF-8 is preserved ----

  lemma PrependNothing(t: Bytes, r: Option<Processed>)
    requires t == []
    ensures Prepend(t, r) == r
  {
    if r.Some? {
      assert t + r.value.text == r.value.text;
    }
  }

  /** Bytes that are neither escapes nor control characters are copied. */
  lemma {:induction false} ProcessCopies(s: Buffer, i: nat, k: nat, end: nat)
    requires i + k <= end < |s|
    requires forall j :: i <= j < i + k ==> s[j] >= 0x20 && s[j] != BACKSLASH
    ensures Process(s, i, end) == Prepend(s[i..i + k], Process(s, i + k, end))
    decreases k
  {
    if k > 0 {
      ProcessCopies(s, i + 1, k - 1, end);
      assert s[i..i + k] == [s[i]] + s[i + 1..i + k];
      match Process(s, i + k, end)
      case None =>
      case Some(p) => AppendAssociates([s[i]], s[i + 1..i + k], p.text);
    } else {
      PrependNothing(s[i..i], Process(s, i, end));
    }
  }

  /** A multi-byte encoding has no ASCII byte. */
  lemma EncodedBytes(cp: int)
    requires Scalar(cp)
    ensures |Encode(cp)| == 1 || forall j :: 0 <= j < |Encode(cp)| ==> Encode(cp)[j] >= 0x80
  {
  }

  lemma TailAfterEscape(s: Buffer, i: nat, k: nat, e: nat)
    requires i + k <= e < |s| && ValidUtf8(s[i..e])
    requires forall j :: i <= j < i + k ==> s[j] < 0x80
    ensures ValidUtf8(s[i + k..e])
  {
    ValidAfterAscii(s[i..e], k);
    assert s[i..e][k..] == s[i + k..e];
  }

  /** One round of process_string, at a boundary between code points: an escape. */
  lemma EscapeStep(s: Buffer, i: nat, e: nat) returns (next: nat, stored: Bytes)
    requires i < e < |s| && s[i] == BACKSLASH && SkipBody(s, i) == Some(e + 1) && Process(s, i, e).Some?
    ensures i < next <= e && SkipBody(s, next) == Some(e + 1) && Process(s, next, e).Some?
    ensures Process(s, i, e).value.text == stored + Process(s, next, e).value.text && ValidUtf8(stored)
    ensures forall j :: i <= j < next ==> s[j] < 0x80
  {
    hide ParseUtf16, StoredBytes, ValidUtf8;
    if s[i + 1] == 117 {
      var r := ParseUtf16(s, i + 1).value;
      next, stored := r.end, StoredBytes(r.cp);
      SkipBodyUtf16(s, i);
      Utf16IsAscii(s, i + 1);
      StoredIsEncoded(r.cp);
      ValidEncode(r.cp);
    } else {
      next, stored := i + 2, [Unescaped(s[i + 1]).value];
      ValidEncode(stored[0]);
    }
    ScannersAgree(s, next, e);
  }

  /** The bytes of one encoding, copied. */
  lemma PlainStep(s: Buffer, i: nat, e: nat, cp: int)
    requires i < e < |s| && s[i] != BACKSLASH && SkipBody(s, i) == Some(e + 1) && Process(s, i, e).Some?
    requires Scalar(cp) && i + |Encode(cp)| <= e && s[i..i + |Encode(cp)|] == Encode(cp)
    ensures SkipBody(s, i + |Encode(cp)|) == Some(e + 1)
    ensures Process(s, i, e) == Prepend(Encode(cp), Process(s, i + |Encode(cp)|, e))
  {
    var t := Encode(cp);
    EncodedBytes(cp);
    forall j | i <= j < i + |t|
      ensures s[j] == t[j - i]
    {
      HoldsAt(s, i, t, j - i);
    }
    assert s[i] != QUOTE && s[i] >= 0x20;
    forall j | i <= j < i + |t|
      ensures s[j] != QUOTE && s[j] != BACKSLASH && s[j] >= 0x20
    {
      if j != i {
        assert t[j - i] >= 0x80;
      }
    }
    SkipBodyPlain(s, i, |t|);
    ProcessCopies(s, i, |t|, e);
  }

  lemma CopyStep(s: Buffer, i: nat, e: nat) returns (next: nat, stored: Bytes)
    requires i < e < |s| && s[i] != BACKSLASH && SkipBody(s, i) == Some(e + 1) && Process(s, i, e).Some?
    requires ValidUtf8(s[i..e])
    ensures i < next <= e && SkipBody(s, next) == Some(e + 1) && Process(s, next, e).Some?
    ensures Process(s, i, e).value.text == stored + Process(s, next, e).value.text
    ensures ValidUtf8(stored) && ValidUtf8(s[next..e])
  {
    hide Process, SkipBody, ValidUtf8, Encode;
    var cp, rest := ValidSplit(s[i..e]);
    next, stored := i + |Encode(cp)|, Encode(cp);
    PrefixAndSuffix(s, i, e, stored, rest);
    ValidEncode(cp);
    PlainStep(s, i, e, cp);
  }

  lemma PrefixAndSuffix(s: Bytes, i: nat, e: nat, a: Bytes, b: Bytes)
    requires i <= e <= |s| && s[i..e] == a + b
    ensures i + |a| <= e && s[i..i + |a|] == a && s[i + |a|..e] == b
  {
    assert s[i..i + |a|] == s[i..e][..|a|];
    assert s[i + |a|..e] == s[i..e][|a|..];
  }

  lemma ProcessAtEnd(s: Buffer, e: nat)
    requires e < |s|
    ensures Process(s, e, e) == Some(Processed([], e)) && ValidUtf8([])
  {
  }

  /** If the quoted bytes are UTF-8, so is what process_string stores for them. */
  lemma {:induction false} ProcessKeepsUtf8(s: Buffer, i: nat, e: nat)
    requires i <= e < |s| && SkipBody(s, i) == Some(e + 1) && Process(s, i, e).Some?
    requires ValidUtf8(s[i..e])
    ensures ValidUtf8(Process(s, i, e).value.text)
    decreases |s| - i
  {
    hide Process, ProcessRound, SkipBody, ValidUtf8;
    if i == e {
      ProcessAtEnd(s, e);
    } else {
      var next, stored;
      if s[i] == BACKSLASH {
        next, stored := EscapeStep(s, i, e);
        TailAfterEscape(s, i, next - i, e);
      } else {
        next, stored := CopyStep(s, i, e);
      }
      ProcessKeepsUtf8(s, next, e);
      ValidAppend(stored, Process(s, next, e).value.text);
    }
  }

  // ---- Writing strings ----

  function HexDigit(x: int): byte
    requires 0 <= x < 16
  {
    if x < 10 then 48 + x else 87 + x
  }

  /** What json_serialize_string writes for one byte. */
  function EscapeByte(c: byte): (t: Bytes)
    ensures |t| > 0
  {
    if c == QUOTE then [BACKSLASH, QUOTE]
    else if c == BACKSLASH then [BACKSLASH, BACKSLASH]
    else if c == SLASH then [BACKSLASH, SLASH]
    else if c == 8 then [BACKSLASH, 98]
    else if c == 12 then [BACKSLASH, 102]
    else if c == 10 then [BACKSLASH, 110]
    else if c == 13 then [BACKSLASH, 114]
    else if c == 9 then [BACKSLASH, 116]
    else if c < 0x20 then [BACKSLASH, 117, 48, 48, HexDigit(c / 16), HexDigit(c % 16)]
    else [c]
  }

  function Escape(t: Bytes): Bytes {
    if t == [] then [] else EscapeByte(t[0]) + Escape(t[1..])
  }

  function Quoted(t: Bytes): (r: Bytes)
    ensures |r| == |Escape(t)| + 2 && r[0] == QUOTE
  {
    [QUOTE] + Escape(t) + [QUOTE]
  }

  /** Both scanners undo the escaping of one byte. */
  lemma EscapeByteRoundTrip(s: Buffer, i: nat, c: byte, e: nat)
    requires c != 0 && Holds(s, i, EscapeByte(c)) && i + |EscapeByte(c)| <= e < |s|
    ensures SkipBody(s, i) == SkipBody(s, i + |EscapeByte(c)|)
    ensures Process(s, i, e) == Prepend([c], Process(s, i + |EscapeByte(c)|, e))
  {
    var t := EscapeByte(c);
    forall j | 0 <= j < |t|
      ensures s[i + j] == t[j]
    {
      HoldsAt(s, i, t, j);
    }
    if |t| == 6 {
      assert s[i + 1] == 117;
      assert ParseHex(s, i + 2) == Some(c) by {
        assert s[i + 2] == 48 && s[i + 3] == 48 && s[i + 4] == HexDigit(c / 16) && s[i + 5] == HexDigit(c % 16);
      }
      assert ParseUtf16(s, i + 1) == Some(Escaped(c, i + 6));
      SkipBodyUtf16(s, i);
    }
  }

  lemma PrependHead(t: Bytes, stop: nat)
    requires t != []
    ensures Prepend([t[0]], Some(Processed(t[1..], stop))) == Some(Processed(t, stop))
  {
    assert [t[0]] + t[1..] == t;
  }

  lemma EscapeStepsRoundTrip(s: Buffer, i: nat, t: Bytes, e: nat)
    requires t != [] && NulFree(t) && Holds(s, i, Escape(t)) && e == i + |Escape(t)| < |s|
    ensures Holds(s, i + |EscapeByte(t[0])|, Escape(t[1..]))
    ensures SkipBody(s, i) == SkipBody(s, i + |EscapeByte(t[0])|)
    ensures Process(s, i, e) == Prepend([t[0]], Process(s, i + |EscapeByte(t[0])|, e))
  {
    hide ProcessRound, EscapeByte;
    HoldsAppend(s, i, EscapeByte(t[0]), Escape(t[1..]));
    EscapeByteRoundTrip(s, i, t[0], e);
  }

  /** A written string, found anywhere in a buffer, is delimited and read back exactly. */
  lemma {:induction false} StringRoundTrip(s: Buffer, i: nat, t: Bytes, e: nat)
    requires NulFree(t) && Holds(s, i, Escape(t)) && e == i + |Escape(t)| < |s| && s[e] == QUOTE
    ensures SkipBody(s, i) == Some(e + 1)
    ensures Process(s, i, e) == Some(Processed(t, e))
    decreases |t|
  {
    hide ProcessRound, EscapeByte;
    if t == [] {
    } else {
      EscapeStepsRoundTrip(s, i, t, e);
      StringRoundTrip(s, i + |EscapeByte(t[0])|, t[1..], e);
      PrependHead(t, e);
    }
  }
}
