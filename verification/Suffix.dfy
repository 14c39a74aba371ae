/** Parsing depends on the bytes from the pointer on, and on nothing before them; so a byte-order mark changes
    nothing. */
module Suffix {
  import opened CText
  import opened Numbers
  import opened Values
  import opened Spelling
  import opened Parser
  import opened Texts
  import opened Grammar

  function Moved(r: Parsed<Value>, k: nat): Parsed<Value> {
    match r
    case Fail => Fail
    case Ok(v, end) => Ok(v, end + k)
  }

  function MovedEnd(r: Option<nat>, k: nat): Option<nat> {
    match r
    case None => None
    case Some(end) => Some(end + k)
  }

  lemma {:induction false} WhiteFromSuffix(s: Buffer, k: nat, p: nat)
    requires k <= p < |s|
    ensures AfterWhite(s, p) == k + AfterWhite(s[k..], p - k)
    decreases |s| - p
  {
    if White(s[p]) {
      WhiteFromSuffix(s, k, p + 1);
    }
  }

  lemma HoldsFromSuffix(s: Buffer, k: nat, q: nat, t: Bytes)
    requires k <= q < |s|
    ensures Holds(s, q, t) <==> Holds(s[k..], q - k, t)
  {
    if q + |t| <= |s| {
      assert s[q..q + |t|] == s[k..][q - k..q - k + |t|];
    }
  }

  lemma TokenFromSuffix(lib: Lib, s: Buffer, k: nat, q: nat, token: Token)
    requires lib.Valid() && lib.ScansSuffix() && k <= q < |s|
    ensures TokenEnd(lib, s, q, token) == MovedEnd(TokenEnd(lib, s[k..], q - k, token), k)
  {
    hide Lib.Valid, WrittenAll, PlainNumeral;
    var u := s[k..];
    match token
    case Fixed(t) => HoldsFromSuffix(s, k, q, t);
    case Spelled(pieces) => HoldsFromSuffix(s, k, q, [34] + (WrittenAll(pieces) + [34]));
    case Number(x) =>
      assert u[q - k..] == s[q..];
      assert lib.strtod(u, q - k) == MovedScan(lib.strtod(u[q - k..], 0), q - k);
      assert lib.strtod(s, q) == MovedScan(lib.strtod(s[q..], 0), q);
      var end := lib.strtod(s, q).end;
      if end <= |s| {
        assert s[q..end] == u[q - k..end - k];
      }
  }

  lemma {:induction false} ReadsFromSuffix(lib: Lib, s: Buffer, k: nat, p: nat, ts: seq<Token>)
    requires lib.Valid() && lib.ScansSuffix() && k <= p < |s|
    ensures Reads(lib, s, p, ts) == MovedEnd(Reads(lib, s[k..], p - k, ts), k)
    decreases |ts|
  {
    hide Lib.Valid, Lib.ScansSuffix, TokenEnd, AfterWhite;
    if ts == [] {
    } else {
      var q := AfterWhite(s, p);
      WhiteFromSuffix(s, k, p);
      TokenFromSuffix(lib, s, k, q, ts[0]);
      var m := TokenEnd(lib, s, q, ts[0]);
      if m.Some? {
        ReadsFromSuffix(lib, s, k, m.value, ts[1..]);
      }
    }
  }

  /** Whatever stands before the position, outcome and value are the same, and the end is as far on. */
  lemma ParsedFromSuffix(lib: Lib, s: Buffer, k: nat, p: nat, nesting: nat)
    requires lib.Valid() && lib.ScansSuffix() && k <= p < |s|
    ensures ParseValue(lib, s, p, nesting) == Moved(ParseValue(lib, s[k..], p - k, nesting), k)
  {
    hide Lib.Valid, Lib.ScansSuffix, ParseValue, Reads, Admissible, Denoted, DocTokens;
    var u, r := s[k..], ParseValue(lib, s, p, nesting);
    if r.Ok? {
      var doc := ParsedIsDoc(lib, s, p, nesting);
      ReadsFromSuffix(lib, s, k, p, DocTokens(doc));
      DocParsed(lib, s, p, doc, nesting);
      DocParsed(lib, u, p - k, doc, nesting);
    } else if ParseValue(lib, u, p - k, nesting).Ok? {
      var doc := ParsedIsDoc(lib, u, p - k, nesting);
      ReadsFromSuffix(lib, s, k, p, DocTokens(doc));
      DocParsed(lib, s, p, doc, nesting);
      DocParsed(lib, u, p - k, doc, nesting);
    }
  }

  predicate Marked(t: Bytes) {
    |t| >= 3 && t[0] == 0xEF && t[1] == 0xBB && t[2] == 0xBF
  }

  /** One byte-order mark before a text makes no difference but for the three bytes it takes. */
  lemma MarkIsSkipped(lib: Lib, t: Bytes)
    requires lib.Valid() && lib.ScansSuffix() && NulFree(t)
    ensures var marked := [0xEF, 0xBB, 0xBF] + t;
      && NulFree(marked)
      && ParseText(lib, AsBuffer(marked)) == Moved(ParseValue(lib, AsBuffer(t), 0, 0), 3)
      && (!Marked(t) ==> ParseText(lib, AsBuffer(marked)) == Moved(ParseText(lib, AsBuffer(t)), 3))
  {
    hide Lib.Valid, Lib.ScansSuffix, ParseValue;
    var marked := [0xEF, 0xBB, 0xBF] + t;
    assert AsBuffer(marked)[3..] == AsBuffer(t);
    ParsedFromSuffix(lib, AsBuffer(marked), 3, 3, 0);
  }
}
