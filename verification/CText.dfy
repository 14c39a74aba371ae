/** Bytes, NUL-terminated buffers and the positions a C pointer takes inside them. */
module CText {

  type byte = b: int | 0 <= b < 256

  type Bytes = seq<byte>

  const NEWLINE: byte := 10
  const SPACE: byte := 32
  const QUOTE: byte := 34
  const COMMA: byte := 44
  const MINUS: byte := 45
  const DOT: byte := 46
  const SLASH: byte := 47
  const ZERO: byte := 48
  const NINE: byte := 57
  const COLON: byte := 58
  const LBRACKET: byte := 91
  const BACKSLASH: byte := 92
  const RBRACKET: byte := 93
  const LBRACE: byte := 123
  const RBRACE: byte := 125

  /** The one zero byte of `s` is its last byte. */
  ghost predicate Terminated(s: Bytes) {
    && |s| > 0
    && s[|s| - 1] == 0
    && forall i :: 0 <= i < |s| - 1 ==> s[i] != 0
  }

  /** What a C function may be handed as a string: reading stops at the last byte. */
  type Buffer = s: Bytes | Terminated(s) ghost witness [0]

  /** The contents of a C string, without its terminator. */
  ghost predicate NulFree(t: Bytes) {
    forall i :: 0 <= i < |t| ==> t[i] != 0
  }

  /** `strlen` and `strdup` see a stored buffer only up to its first zero byte. */
  function CString(t: Bytes): (r: Bytes)
    ensures |r| <= |t| && r == t[..|r|] && NulFree(r)
    ensures |r| < |t| ==> t[|r|] == 0
  {
    if t == [] || t[0] == 0 then [] else [t[0]] + CString(t[1..])
  }

  lemma CStringOfNulFree(t: Bytes)
    requires NulFree(t)
    ensures CString(t) == t
  {
  }

  /** `t` stands in `s` at position `p`: what strncmp with a literal decides. */
  predicate Holds(s: Bytes, p: nat, t: Bytes) {
    p + |t| <= |s| && s[p..p + |t|] == t
  }

  lemma HoldsAppend(s: Bytes, p: nat, a: Bytes, b: Bytes)
    ensures Holds(s, p, a + b) <==> Holds(s, p, a) && Holds(s, p + |a|, b)
  {
    var ab := a + b;
    if Holds(s, p, ab) {
      assert s[p..p + |a|] == s[p..p + |ab|][..|a|] == ab[..|a|] == a;
      assert s[p + |a|..p + |ab|] == s[p..p + |ab|][|a|..] == ab[|a|..] == b;
    }
    if Holds(s, p, a) && Holds(s, p + |a|, b) {
      assert s[p..p + |ab|] == s[p..p + |a|] + s[p + |a|..p + |ab|];
    }
  }

  lemma AppendAssociates<T>(a: seq<T>, b: seq<T>, c: seq<T>)
    ensures a + b + c == a + (b + c)
  {
  }

  lemma HoldsAt(s: Bytes, p: nat, t: Bytes, i: nat)
    requires Holds(s, p, t) && i < |t|
    ensures s[p + i] == t[i]
  {
  }

  /** `isspace` in the C locale. */
  predicate IsSpace(b: byte) {
    b == SPACE || 9 <= b <= 13
  }

  /** Where SKIP_WHITESPACES leaves the pointer. */
  function SkipSpaces(s: Buffer, p: nat): (q: nat)
    requires p < |s|
    ensures p <= q < |s| && !IsSpace(s[q])
    ensures forall i :: p <= i < q ==> IsSpace(s[i])
    decreases |s| - p
  {
    if IsSpace(s[p]) then SkipSpaces(s, p + 1) else p
  }

  lemma SkipSpacesFrom(s: Buffer, p: nat, q: nat)
    requires p <= q < |s|
    requires forall i :: p <= i < q ==> IsSpace(s[i])
    ensures SkipSpaces(s, p) == SkipSpaces(s, q)
    decreases q - p
  {
  }

  predicate IsDigit(b: byte) {
    ZERO <= b <= NINE
  }
}
