/** An independent walk over a text, counting brackets and commas outside strings: what it finds in parsed texts. */
module Brackets {
  import opened CText
  import opened Numbers
  import opened Values
  import opened StringCodec
  import opened Printer
  import opened Parser

  /** Open brackets, inside a string or not, right after a backslash or not, and the commas met at depth zero. */
  datatype Walk = Walk(depth: int, quoted: bool, escaped: bool, commas: nat)

  function At(depth: int, commas: nat): Walk {
    Walk(depth, false, false, commas)
  }

  function Step(w: Walk, b: byte): Walk {
    if w.quoted then
      if w.escaped then w.(escaped := false)
      else if b == BACKSLASH then w.(escaped := true)
      else if b == QUOTE then w.(quoted := false)
      else w
    else if b == QUOTE then w.(quoted := true)
    else if b == LBRACKET || b == LBRACE then w.(depth := w.depth + 1)
    else if b == RBRACKET || b == RBRACE then w.(depth := w.depth - 1)
    else if b == COMMA && w.depth == 0 then w.(commas := w.commas + 1)
    else w
  }

  function WalkOver(s: Bytes, p: nat, e: nat, w: Walk): Walk
    requires p <= e <= |s|
    decreases e - p
  {
    if p == e then w else WalkOver(s, p + 1, e, Step(w, s[p]))
  }

  lemma {:induction false} WalkSplit(s: Bytes, p: nat, m: nat, e: nat, w: Walk)
    requires p <= m <= e <= |s|
    ensures WalkOver(s, p, e, w) == WalkOver(s, m, e, WalkOver(s, p, m, w))
    decreases m - p
  {
    if p == m {
    } else {
      WalkSplit(s, p + 1, m, e, Step(w, s[p]));
    }
  }

  lemma {:induction false} WalkPlain(s: Bytes, p: nat, e: nat, d: int, n: nat)
    requires p <= e <= |s| && forall i :: p <= i < e ==> !IsStructural(s[i])
    ensures WalkOver(s, p, e, At(d, n)) == At(d, n)
    decreases e - p
  {
    if p == e {
    } else {
      WalkPlain(s, p + 1, e, d, n);
    }
  }

  lemma WalkByte(s: Bytes, p: nat, w: Walk)
    requires p < |s|
    ensures WalkOver(s, p, p + 1, w) == Step(w, s[p])
  {
    assert WalkOver(s, p + 1, p + 1, Step(w, s[p])) == Step(w, s[p]);
  }

  lemma WalkBlank(s: Buffer, p: nat, d: int, n: nat)
    requires p < |s|
    ensures WalkOver(s, p, SkipSpaces(s, p), At(d, n)) == At(d, n)
  {
    WalkPlain(s, p, SkipSpaces(s, p), d, n);
  }

  /** The quote scanner stops where the walk leaves the string. */
  lemma {:induction false} WalkString(s: Buffer, i: nat, d: int, n: nat)
    requires i < |s| && SkipBody(s, i).Some?
    ensures WalkOver(s, i, SkipBody(s, i).value, Walk(d, true, false, n)) == At(d, n)
    decreases |s| - i
  {
    var w, e := Walk(d, true, false, n), SkipBody(s, i).value;
    WalkByte(s, i, w);
    WalkSplit(s, i, i + 1, e, w);
    if s[i] == QUOTE {
    } else if s[i] == BACKSLASH {
      WalkByte(s, i + 1, w.(escaped := true));
      WalkSplit(s, i + 1, i + 2, e, w.(escaped := true));
      WalkString(s, i + 2, d, n);
    } else {
      WalkString(s, i + 1, d, n);
    }
  }

  lemma WalkQuoted(s: Buffer, p: nat, d: int, n: nat)
    requires p < |s| && QuotedString(s, p).Ok?
    ensures WalkOver(s, p, QuotedString(s, p).end, At(d, n)) == At(d, n)
  {
    hide Process, SkipBody, CString;
    WalkByte(s, p, At(d, n));
    WalkSplit(s, p, p + 1, QuotedString(s, p).end, At(d, n));
    WalkString(s, p + 1, d, n);
  }

  lemma WalkLiteral(s: Buffer, p: nat, t: Bytes, d: int, n: nat)
    requires Holds(s, p, t) && (t == TRUE_TEXT || t == FALSE_TEXT || t == NULL_TEXT)
    ensures WalkOver(s, p, p + |t|, At(d, n)) == At(d, n)
  {
    forall i | p <= i < p + |t|
      ensures !IsStructural(s[i])
    {
      HoldsAt(s, p, t, i - p);
    }
    WalkPlain(s, p, p + |t|, d, n);
  }

  lemma WalkNumber(lib: Lib, s: Buffer, p: nat, d: int, n: nat)
    requires lib.Valid() && p < |s| && NumberValue(lib, s, p).Ok?
    ensures WalkOver(s, p, NumberValue(lib, s, p).end, At(d, n)) == At(d, n)
  {
    hide DecimalForm, IsStructural;
    WalkPlain(s, p, NumberValue(lib, s, p).end, d, n);
  }

  // ---- Parsed values ----

  /** A span that the walk crosses in two steps. */
  lemma WalkOn(s: Bytes, p: nat, m: nat, e: nat, w: Walk, w': Walk)
    requires p <= m <= e <= |s| && WalkOver(s, p, m, w) == w'
    ensures WalkOver(s, p, e, w) == WalkOver(s, m, e, w')
  {
    WalkSplit(s, p, m, e, w);
  }

  /** Over a parsed value, wherever it is nested, the brackets balance and no comma counts. */
  lemma {:induction false} WalkValue(lib: Lib, s: Buffer, p: nat, nesting: nat, d: nat, n: nat)
    requires lib.Valid() && p < |s| && ParseValue(lib, s, p, nesting).Ok?
    ensures WalkOver(s, p, ParseValue(lib, s, p, nesting).end, At(d, n)) == At(d, n)
    decreases |s| - p, 3
  {
    hide Lib.Valid, ParseItems, ParseMembers, QuotedString, NumberValue, WalkOver, Holds;
    var q, r := SkipSpaces(s, p), ParseValue(lib, s, p, nesting);
    WalkBlank(s, p, d, n);
    WalkOn(s, p, q, r.end, At(d, n), At(d, n));
    if s[q] == LBRACE {
      WalkContainer(lib, s, q, nesting + 1, d, n);
    } else if s[q] == LBRACKET {
      WalkContainer(lib, s, q, nesting + 1, d, n);
    } else if s[q] == QUOTE {
      WalkQuoted(s, q, d, n);
    } else if s[q] == MINUS || IsDigit(s[q]) {
      WalkNumber(lib, s, q, d, n);
    } else {
      WalkWord(s, q, d, n);
    }
  }

  lemma WalkWord(s: Buffer, q: nat, d: int, n: nat)
    requires q < |s|
    ensures Holds(s, q, TRUE_TEXT) ==> q + 4 <= |s| && WalkOver(s, q, q + 4, At(d, n)) == At(d, n)
    ensures Holds(s, q, FALSE_TEXT) ==> q + 5 <= |s| && WalkOver(s, q, q + 5, At(d, n)) == At(d, n)
    ensures Holds(s, q, NULL_TEXT) ==> q + 4 <= |s| && WalkOver(s, q, q + 4, At(d, n)) == At(d, n)
  {
    if Holds(s, q, TRUE_TEXT) {
      WalkLiteral(s, q, TRUE_TEXT, d, n);
    }
    if Holds(s, q, FALSE_TEXT) {
      WalkLiteral(s, q, FALSE_TEXT, d, n);
    }
    if Holds(s, q, NULL_TEXT) {
      WalkLiteral(s, q, NULL_TEXT, d, n);
    }
  }

  lemma {:induction false} WalkContainer(lib: Lib, s: Buffer, q: nat, nesting: nat, d: nat, n: nat)
    requires lib.Valid() && q < |s|
    ensures s[q] == LBRACKET && ParseArray(lib, s, q, nesting).Ok? ==>
      WalkOver(s, q, ParseArray(lib, s, q, nesting).end, At(d, n)) == At(d, n)
    ensures s[q] == LBRACE && ParseObject(lib, s, q, nesting).Ok? ==>
      WalkOver(s, q, ParseObject(lib, s, q, nesting).end, At(d, n)) == At(d, n)
    decreases |s| - q, 2
  {
    hide Lib.Valid, ParseItems, ParseMembers, WalkOver;
    if s[q] == LBRACKET || s[q] == LBRACE {
      var b := SkipSpaces(s, q + 1);
      WalkByte(s, q, At(d, n));
      WalkBlank(s, q + 1, d + 1, n);
      WalkOn(s, q, q + 1, b, At(d, n), At(d + 1, n));
      WalkByte(s, b, At(d + 1, n));
      if s[q] == LBRACKET && ParseArray(lib, s, q, nesting).Ok? {
        WalkOn(s, q, b, ParseArray(lib, s, q, nesting).end, At(d, n), At(d + 1, n));
        if s[b] != RBRACKET {
          WalkItems(lib, s, b, nesting, [], d + 1, n);
        }
      }
      if s[q] == LBRACE && ParseObject(lib, s, q, nesting).Ok? {
        WalkOn(s, q, b, ParseObject(lib, s, q, nesting).end, At(d, n), At(d + 1, n));
        if s[b] != RBRACE {
          WalkMembers(lib, s, b, nesting, [], d + 1, n);
        }
      }
    }
  }

  /** Over the rest of an array each further item costs one comma, and the last byte closes the array. */
  lemma {:induction false} WalkItems(lib: Lib, s: Buffer, p: nat, nesting: nat, done: seq<Value>, d: nat, n: nat)
    requires lib.Valid() && p < |s| && ParseItems(lib, s, p, nesting, done).Ok?
    ensures var r := ParseItems(lib, s, p, nesting, done);
      && r.value.Arr? && |done| < |r.value.items| && s[r.end - 1] == RBRACKET
      && WalkOver(s, p, r.end - 1, At(d, n)) == At(d, if d == 0 then n + |r.value.items| - |done| - 1 else n)
      && WalkOver(s, p, r.end, At(d, n)) == At(d - 1, if d == 0 then n + |r.value.items| - |done| - 1 else n)
    decreases |s| - p, 4
  {
    hide Lib.Valid, ParseItems, ParseValue, WalkOver;
    var r, v := ParseItems(lib, s, p, nesting, done), ParseValue(lib, s, p, nesting);
    ItemsUnfold(lib, s, p, nesting, done);
    var q := SkipSpaces(s, v.end);
    WalkValue(lib, s, p, nesting, d, n);
    WalkBlank(s, v.end, d, n);
    WalkOn(s, p, v.end, q, At(d, n), At(d, n));
    WalkByte(s, q, At(d, n));
    WalkOn(s, p, q, q + 1, At(d, n), At(d, n));
    if s[q] == COMMA {
      var n', b := if d == 0 then n + 1 else n, SkipSpaces(s, q + 1);
      WalkBlank(s, q + 1, d, n');
      WalkOn(s, p, q + 1, b, At(d, n), At(d, n'));
      WalkItems(lib, s, b, nesting, done + [v.value], d, n');
      WalkOn(s, p, b, r.end, At(d, n), At(d, n'));
      WalkOn(s, p, b, r.end - 1, At(d, n), At(d, n'));
    }
  }

  lemma {:induction false} WalkMembers(lib: Lib, s: Buffer, p: nat, nesting: nat, done: seq<Member<Value>>, d: nat,
                                       n: nat)
    requires lib.Valid() && p < |s| && ParseMembers(lib, s, p, nesting, done).Ok?
    ensures var r := ParseMembers(lib, s, p, nesting, done);
      && r.value.Obj? && |done| < |r.value.members| && s[r.end - 1] == RBRACE
      && WalkOver(s, p, r.end - 1, At(d, n)) == At(d, if d == 0 then n + |r.value.members| - |done| - 1 else n)
      && WalkOver(s, p, r.end, At(d, n)) == At(d - 1, if d == 0 then n + |r.value.members| - |done| - 1 else n)
    decreases |s| - p, 1
  {
    hide Lib.Valid, ParseMembers, ParseValue, NameAndColon, WalkOver;
    var r, name := ParseMembers(lib, s, p, nesting, done), NameAndColon(s, p);
    MembersUnfold(lib, s, p, nesting, done);
    var v := ParseValue(lib, s, name.end, nesting);
    var q := SkipSpaces(s, v.end);
    WalkName(s, p, d, n);
    WalkValue(lib, s, name.end, nesting, d, n);
    WalkOn(s, p, name.end, v.end, At(d, n), At(d, n));
    WalkBlank(s, v.end, d, n);
    WalkOn(s, p, v.end, q, At(d, n), At(d, n));
    WalkByte(s, q, At(d, n));
    WalkOn(s, p, q, q + 1, At(d, n), At(d, n));
    if s[q] == COMMA {
      var n', b := if d == 0 then n + 1 else n, SkipSpaces(s, q + 1);
      WalkBlank(s, q + 1, d, n');
      WalkOn(s, p, q + 1, b, At(d, n), At(d, n'));
      WalkMembers(lib, s, b, nesting, done + [Member(name.value, v.value)], d, n');
      WalkOn(s, p, b, r.end, At(d, n), At(d, n'));
      WalkOn(s, p, b, r.end - 1, At(d, n), At(d, n'));
    }
  }

  lemma WalkName(s: Buffer, p: nat, d: int, n: nat)
    requires p < |s| && NameAndColon(s, p).Ok?
    ensures WalkOver(s, p, NameAndColon(s, p).end, At(d, n)) == At(d, n)
  {
    hide QuotedString, WalkOver;
    var end := QuotedString(s, p).end;
    var colon := SkipSpaces(s, end);
    WalkQuoted(s, p, d, n);
    WalkBlank(s, end, d, n);
    WalkOn(s, p, end, colon, At(d, n), At(d, n));
    WalkByte(s, colon, At(d, n));
    WalkOn(s, p, colon, colon + 1, At(d, n), At(d, n));
  }

  // ---- Every element is paid for by a comma ----

  /** The commas of a span that stand outside brackets and strings. */
  function TopLevelCommas(s: Bytes, p: nat, e: nat): nat
    requires p <= e <= |s|
  {
    WalkOver(s, p, e, At(0, 0)).commas
  }

  lemma ContainerParsed(lib: Lib, s: Buffer, p: nat, nesting: nat)
    requires lib.Valid() && p < |s| && ParseValue(lib, s, p, nesting).Ok?
    ensures var q, r := SkipSpaces(s, p), ParseValue(lib, s, p, nesting);
      && q + 1 < |s|
      && (r.value.Arr? && r.value.items != [] ==> r == ParseItems(lib, s, SkipSpaces(s, q + 1), nesting + 1, []))
      && (r.value.Obj? && r.value.members != [] ==> r == ParseMembers(lib, s, SkipSpaces(s, q + 1), nesting + 1, []))
  {
    hide Lib.Valid, ParseItems, ParseMembers, QuotedString, DecimalForm, WalkOver, Holds;
    var q := SkipSpaces(s, p);
    var b := SkipSpaces(s, q + 1);
    if s[q] == LBRACE && s[b] != RBRACE {
      WalkMembers(lib, s, b, nesting + 1, [], 0, 0);
    } else if s[q] == LBRACKET && s[b] != RBRACKET {
      WalkItems(lib, s, b, nesting + 1, [], 0, 0);
    }
  }

  /** A parsed array has exactly one item more than there are commas directly between its brackets, or none. */
  lemma ItemsPaidByCommas(lib: Lib, s: Buffer, p: nat, nesting: nat)
    requires lib.Valid() && p < |s|
    ensures var q, r := SkipSpaces(s, p), ParseValue(lib, s, p, nesting);
      r.Ok? && r.value.Arr? && r.value.items != [] ==>
        q + 1 < r.end && |r.value.items| == TopLevelCommas(s, q + 1, r.end - 1) + 1
  {
    hide Lib.Valid, ParseValue, ParseItems, ParseMembers, WalkOver;
    var q, r := SkipSpaces(s, p), ParseValue(lib, s, p, nesting);
    if r.Ok? && r.value.Arr? && r.value.items != [] {
      ContainerParsed(lib, s, p, nesting);
      WalkBlank(s, q + 1, 0, 0);
      WalkItems(lib, s, SkipSpaces(s, q + 1), nesting + 1, [], 0, 0);
      WalkOn(s, q + 1, SkipSpaces(s, q + 1), r.end - 1, At(0, 0), At(0, 0));
    }
  }

  /** A parsed object has exactly one member more than there are commas directly between its braces, or none. */
  lemma MembersPaidByCommas(lib: Lib, s: Buffer, p: nat, nesting: nat)
    requires lib.Valid() && p < |s|
    ensures var q, r := SkipSpaces(s, p), ParseValue(lib, s, p, nesting);
      r.Ok? && r.value.Obj? && r.value.members != [] ==>
        q + 1 < r.end && |r.value.members| == TopLevelCommas(s, q + 1, r.end - 1) + 1
  {
    hide Lib.Valid, ParseValue, ParseItems, ParseMembers, WalkOver;
    var q, r := SkipSpaces(s, p), ParseValue(lib, s, p, nesting);
    if r.Ok? && r.value.Obj? && r.value.members != [] {
      ContainerParsed(lib, s, p, nesting);
      WalkBlank(s, q + 1, 0, 0);
      WalkMembers(lib, s, SkipSpaces(s, q + 1), nesting + 1, [], 0, 0);
      WalkOn(s, q + 1, SkipSpaces(s, q + 1), r.end - 1, At(0, 0), At(0, 0));
    }
  }
}
