/** Which line comments do no harm, exactly. */
module LineComments {
  import opened CText
  import opened Numbers
  import opened Values
  import opened Printer
  import opened Parser
  import opened Tokens
  import opened Texts
  import opened Comments
  import opened CommentGaps

  /** Gaps of blank space, block comments, harmless line comments, and line comments with this body. */
  ghost predicate GapsWith(parts: seq<Part>, body: Bytes) {
    forall i :: 0 <= i < |parts| && !parts[i].Word? ==> ValidPart(parts[i]) || parts[i] == Line(body)
  }

  /** A line comment leaves every value that it may stand in or beside as it is exactly when it is harmless. */
  lemma LineCommentExactly(lib: Lib, body: Bytes)
    requires lib.Valid() && OneLine(body)
    ensures Harmless(body)
      <==> forall v, parts :: WellFormed(v) && GapsWith(parts, body) && Words(parts) == TokensOf(lib, v)
             ==> ParsedAs(lib, parts, v)
  {
    hide *;
    if Harmless(body) {
      forall v, parts | WellFormed(v) && GapsWith(parts, body) && Words(parts) == TokensOf(lib, v)
        ensures ParsedAs(lib, parts, v)
      {
        HarmlessGaps(parts, body);
        CommentsIgnored(lib, v, parts);
      }
    } else {
      HarmfulTexts(lib, body);
      SampleGaps(lib, body, 1);
      SampleGaps(lib, body, 2);
    }
  }

  lemma HarmlessGaps(parts: seq<Part>, body: Bytes)
    requires OneLine(body) && Harmless(body) && GapsWith(parts, body)
    ensures ValidGaps(parts)
  {
  }

  // ---- Texts in which any other line comment does harm ----

  /** The comment, one digit, and a block comment. */
  function Before(body: Bytes, n: nat): seq<Part>
    requires n < 10
  {
    [Line(body), Word([48 + n as byte]), Block([])]
  }

  /** The comment, a block comment, and one digit. */
  function Between(body: Bytes, n: nat): seq<Part>
    requires n < 10
  {
    [Line(body), Block([]), Word([48 + n as byte])]
  }

  lemma SampleGaps(lib: Lib, body: Bytes, n: nat)
    requires lib.Valid() && 0 < n < 10
    ensures WellFormed(Num(n as real))
    ensures GapsWith(Before(body, n), body) && Words(Before(body, n)) == TokensOf(lib, Num(n as real))
    ensures GapsWith(Between(body, n), body) && Words(Between(body, n)) == TokensOf(lib, Num(n as real))
    ensures Reread(lib, Num(n as real)) == Num(n as real) && Height(Num(n as real)) == 0
  {
    DigitText(lib, n);
    WordsOfSamples(body, n);
    assert CLOSE_BLOCK <= [] + CLOSE_BLOCK;
    RereadIntegers(lib, Num(n as real));
  }

  lemma DigitText(lib: Lib, n: nat)
    requires 0 < n < 10
    ensures NumberText(lib, n as real) == [48 + n as byte] && IntegerTree(Num(n as real))
  {
    assert (n as real).Floor == n && Digits(n) == [48 + n as byte];
  }

  lemma WordsAppend(first: seq<Part>, rest: seq<Part>)
    requires |first| == 1
    ensures Words(first) == if first[0].Word? then [first[0].t] else []
    ensures Words(first + rest) == Words(first) + Words(rest)
  {
    assert first[1..] == [] && (first + rest)[1..] == rest;
  }

  lemma WordsOfSamples(body: Bytes, n: nat)
    requires n < 10
    ensures Words(Before(body, n)) == Words(Between(body, n)) == [[48 + n as byte]]
  {
    var word, block := [Word([48 + n as byte])], [Block([])];
    WordsAppend([Line(body)], word + block);
    WordsAppend([Line(body)], block + word);
    WordsAppend(word, block);
    WordsAppend(block, word);
    assert Before(body, n) == [Line(body)] + (word + block) && Between(body, n) == [Line(body)] + (block + word);
  }

  lemma HarmfulTexts(lib: Lib, body: Bytes)
    requires lib.Valid() && OneLine(body) && !Harmless(body)
    ensures !ParsedAs(lib, Before(body, 1), Num(1.0)) || !ParsedAs(lib, Before(body, 2), Num(2.0))
      || !ParsedAs(lib, Between(body, 1), Num(1.0))
  {
    hide *;
    SampleGaps(lib, body, 1);
    SampleGaps(lib, body, 2);
    ParsedAsIs(lib, Before(body, 1), Num(1.0));
    ParsedAsIs(lib, Before(body, 2), Num(2.0));
    ParsedAsIs(lib, Between(body, 1), Num(1.0));
    NotHarmless(body);
    if body != [] && body[0] == 42 {
      SlashIsLeft(body);
      SlashFails(lib, WithoutComments(Text(Between(body, 1))), 0);
    } else if EndOfLine(body + CLOSE_LINE, false, false) == InString {
      BlockIsLeft(body);
      SlashFails(lib, WithoutComments(Text(Between(body, 1))), |body| + 3);
    } else {
      DigitIsLost(body);
      assert Num(1.0) != Num(2.0);
    }
  }

  lemma NotHarmless(body: Bytes)
    requires !Harmless(body)
    ensures (body != [] && body[0] == 42) || EndOfLine(body + CLOSE_LINE, false, false) != Outside
  {
  }

  lemma SlashFails(lib: Lib, t: Bytes, q: nat)
    requires lib.Valid() && q < |t| && t[q] == SLASH && forall i :: 0 <= i < q ==> t[i] == SPACE
    ensures NulFree(t) ==> ParseValue(lib, AsBuffer(t), 0, 0).Fail?
  {
    if NulFree(t) {
      BlanksSkipped(AsBuffer(t), 0, q);
    }
  }

  lemma {:induction false} BlanksSkipped(s: Buffer, p: nat, q: nat)
    requires p <= q < |s| && !IsSpace(s[q]) && forall i :: p <= i < q ==> s[i] == SPACE
    ensures SkipSpaces(s, p) == q
    decreases q - p
  {
    if p == q {
    } else {
      BlanksSkipped(s, p + 1, q);
    }
  }

  /** After a star, the second slash opens a block comment, and the first slash stays behind. */
  lemma SlashIsLeft(body: Bytes)
    requires body != [] && body[0] == 42
    ensures var t := WithoutComments(Text(Between(body, 1))); t != [] && t[0] == SLASH
  {
    var t := Text(Between(body, 1));
    assert t[0] == SLASH && t[1] == SLASH && t[2] == 42;
    assert !(OPEN_BLOCK <= t) && OPEN_BLOCK <= t[1..];
    var once := Strip(t, false, false, OPEN_BLOCK, CLOSE_BLOCK);
    assert once == [SLASH] + Strip(t[1..], false, false, OPEN_BLOCK, CLOSE_BLOCK);
    BlockMet(t[1..], false);
    assert once[0] == SLASH && once[1] == SPACE;
    assert !(OPEN_LINE <= once);
  }

  const EMPTY_BLOCK: Bytes := [SLASH, 42, 42, SLASH]

  lemma SampleTexts(body: Bytes, n: nat)
    requires n < 10
    ensures Text(Before(body, n)) == OPEN_LINE + (body + CLOSE_LINE) + ([48 + n as byte] + EMPTY_BLOCK)
    ensures Text(Between(body, n)) == OPEN_LINE + (body + CLOSE_LINE) + (EMPTY_BLOCK + [48 + n as byte])
  {
    assert OPEN_BLOCK + ([] + CLOSE_BLOCK) == EMPTY_BLOCK;
    assert Text([Word([48 + n as byte])]) == [48 + n as byte];
    assert Text([Block([])]) == EMPTY_BLOCK;
    assert Before(body, n)[1..] == [Word([48 + n as byte])] + [Block([])];
    assert Between(body, n)[1..] == [Block([])] + [Word([48 + n as byte])];
  }

  /** Inside a string no comment is seen. */
  lemma {:induction false} InStringKept(t: Bytes)
    requires QUOTE !in t && BACKSLASH !in t
    ensures Strip(t, true, false, OPEN_BLOCK, CLOSE_BLOCK) == t
    decreases |t|
  {
    if t == [] {
    } else {
      assert t[0] in t && t == [t[0]] + t[1..];
      InStringKept(t[1..]);
    }
  }

  /** A string that the first pass believes open hides the next block comment from it. */
  lemma BlockIsLeft(body: Bytes)
    requires OneLine(body) && (body == [] || body[0] != 42)
    requires EndOfLine(body + CLOSE_LINE, false, false) == InString
    ensures var t := WithoutComments(Text(Between(body, 1)));
      && |t| > |body| + 3 && t[|body| + 3] == SLASH
      && forall i :: 0 <= i < |body| + 3 ==> t[i] == SPACE
  {
    hide Strip, AfterBlocks, EndOfLine, Text, Between, WithoutComments;
    var rest := EMPTY_BLOCK + [49];
    SampleTexts(body, 1);
    WithoutCommentsIs(Text(Between(body, 1)));
    LineAfterBlocks(body, rest);
    InStringKept(rest);
    LineIsBlanked(body, rest);
    NoLineComment(rest);
    PaddedSlash(|body| + 3, Strip(rest, false, false, OPEN_LINE, CLOSE_LINE));
  }

  lemma NoLineComment(t: Bytes)
    requires |t| > 1 && t[0] == SLASH && t[1] == 42
    ensures var r := Strip(t, false, false, OPEN_LINE, CLOSE_LINE); r != [] && r[0] == SLASH
  {
    assert !(OPEN_LINE <= t);
  }

  lemma PaddedSlash(n: nat, t: Bytes)
    requires t != [] && t[0] == SLASH
    ensures var r := Blanks(n) + t; |r| > n && r[n] == SLASH && forall i :: 0 <= i < n ==> r[i] == SPACE
  {
  }

  /** Where an open block comment ends, if a byte and another block comment follow. */
  lemma {:induction false} ClosedLater(t: Bytes, c: byte)
    requires Find(t, CLOSE_BLOCK).None? && c != SLASH && c != 42
    ensures Find(t + ([c] + EMPTY_BLOCK), CLOSE_BLOCK) == Some(|t| + 3)
    decreases |t|
  {
    hide Find;
    var all := t + ([c] + EMPTY_BLOCK);
    FindOn(all);
    if t == [] {
      assert all == [c] + EMPTY_BLOCK;
      assert all[1..] == EMPTY_BLOCK;
      FindInEmptyBlock();
    } else {
      FindOn(t);
      assert all[0] == t[0] && all[1..] == t[1..] + ([c] + EMPTY_BLOCK);
      assert |t| > 1 ==> all[1] == t[1];
      ClosedLater(t[1..], c);
    }
  }

  lemma FindOn(t: Bytes)
    requires t != []
    ensures |t| > 1 && t[0] == 42 && t[1] == SLASH ==> Find(t, CLOSE_BLOCK) == Some(0)
    ensures |t| == 1 || t[0] != 42 || t[1] != SLASH ==>
      Find(t, CLOSE_BLOCK) == match Find(t[1..], CLOSE_BLOCK) case None => None case Some(k) => Some(k + 1)
  {
    assert CLOSE_BLOCK <= t <==> |t| > 1 && t[0] == 42 && t[1] == SLASH;
  }

  lemma FindInEmptyBlock()
    ensures Find(EMPTY_BLOCK, CLOSE_BLOCK) == Some(2)
  {
    hide Find;
    FindOn(EMPTY_BLOCK);
    FindOn(EMPTY_BLOCK[1..]);
    FindOn(EMPTY_BLOCK[2..]);
    assert EMPTY_BLOCK[1..][1..] == EMPTY_BLOCK[2..];
  }

  /** A block comment that is open at the end of the line swallows what comes before the next closing token. */
  lemma {:induction false} Swallowed(t: Bytes, inString: bool, escaped: bool, c: byte, d: byte)
    requires EndOfLine(t, inString, escaped) == InComment && t != [] && t[|t| - 1] == NEWLINE
    requires c != SLASH && c != 42 && d != SLASH && d != 42
    ensures Strip(t + ([c] + EMPTY_BLOCK), inString, escaped, OPEN_BLOCK, CLOSE_BLOCK)
      == Strip(t + ([d] + EMPTY_BLOCK), inString, escaped, OPEN_BLOCK, CLOSE_BLOCK)
    decreases |t|
  {
    var x, y := [c] + EMPTY_BLOCK, [d] + EMPTY_BLOCK;
    OpensInLine(t, x);
    OpensInLine(t, y);
    assert (t + x)[0] == t[0] == (t + y)[0] && (t + x)[1..] == t[1..] + x && (t + y)[1..] == t[1..] + y;
    if !inString && OPEN_BLOCK <= t {
      SwallowedHere(t, escaped, c, d);
    } else {
      var inString', escaped' := inString != (t[0] == QUOTE && !escaped), t[0] == BACKSLASH && !escaped;
      assert t[1..] != [];
      Swallowed(t[1..], inString', escaped', c, d);
    }
  }

  lemma {:induction false} SwallowedHere(t: Bytes, escaped: bool, c: byte, d: byte)
    requires EndOfLine(t, false, escaped) == InComment && OPEN_BLOCK <= t && t[|t| - 1] == NEWLINE
    requires c != SLASH && c != 42 && d != SLASH && d != 42
    ensures Strip(t + ([c] + EMPTY_BLOCK), false, escaped, OPEN_BLOCK, CLOSE_BLOCK)
      == Strip(t + ([d] + EMPTY_BLOCK), false, escaped, OPEN_BLOCK, CLOSE_BLOCK)
    decreases |t|, 0
  {
    hide Strip, EndOfLine, Find, Blanks;
    var x, y := [c] + EMPTY_BLOCK, [d] + EMPTY_BLOCK;
    BlockMet(t, escaped);
    BlockMet(t + x, escaped);
    BlockMet(t + y, escaped);
    match Find(t[2..], CLOSE_BLOCK)
    case None =>
      assert (t + x)[2..] == t[2..] + x && (t + y)[2..] == t[2..] + y;
      ClosedLater(t[2..], c);
      ClosedLater(t[2..], d);
      assert (t + x)[|t| + 5..] == (t + y)[|t| + 5..] == [];
    case Some(k) =>
      CommentWithin(t, x, k);
      CommentWithin(t, y, k);
      Swallowed(t[k + 4..], false, false, c, d);
  }

  /** Whatever the digit was, what is left is the same. */
  lemma DigitIsLost(body: Bytes)
    requires (body == [] || body[0] != 42) && EndOfLine(body + CLOSE_LINE, false, false) == InComment
    ensures WithoutComments(Text(Before(body, 1))) == WithoutComments(Text(Before(body, 2)))
  {
    hide Strip, EndOfLine, Text, Before, WithoutComments;
    SampleTexts(body, 1);
    SampleTexts(body, 2);
    Swallowed(body + CLOSE_LINE, false, false, 49, 50);
    SlashesStay(body, [49] + EMPTY_BLOCK);
    SlashesStay(body, [50] + EMPTY_BLOCK);
    WithoutCommentsIs(Text(Before(body, 1)));
    WithoutCommentsIs(Text(Before(body, 2)));
  }

  lemma WithoutCommentsIs(t: Bytes)
    ensures WithoutComments(t)
      == Strip(Strip(t, false, false, OPEN_BLOCK, CLOSE_BLOCK), false, false, OPEN_LINE, CLOSE_LINE)
  {
  }

  lemma SlashesStay(body: Bytes, rest: Bytes)
    requires body == [] || body[0] != 42
    ensures Strip(OPEN_LINE + (body + CLOSE_LINE) + rest, false, false, OPEN_BLOCK, CLOSE_BLOCK)
      == OPEN_LINE + Strip(body + CLOSE_LINE + rest, false, false, OPEN_BLOCK, CLOSE_BLOCK)
  {
    hide Strip;
    var line := body + CLOSE_LINE;
    assert OPEN_LINE + line + rest == OPEN_LINE + (line + rest) && (line + rest)[0] != 42;
    SlashesKept(line + rest);
  }
}
