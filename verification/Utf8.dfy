/** The engine's UTF-8 check, against UTF-8 as section 3 of RFC 3629 defines it. */
module Utf8 {
  import opened CText

  // ---- The definition: a scalar value and its encoding ----

  predicate Scalar(cp: int) {
    0 <= cp < 0xD800 || 0xE000 <= cp <= 0x10FFFF
  }

  function Encode(cp: int): (t: Bytes)
    requires Scalar(cp)
    ensures 1 <= |t| <= 4
  {
    if cp < 0x80 then [cp]
    else if cp < 0x800 then [0xC0 + cp / 64, 0x80 + cp % 64]
    else if cp < 0x10000 then [0xE0 + cp / 4096, 0x80 + cp / 64 % 64, 0x80 + cp % 64]
    else [0xF0 + cp / 262144, 0x80 + cp / 4096 % 64, 0x80 + cp / 64 % 64, 0x80 + cp % 64]
  }

  ghost predicate Scalars(cps: seq<int>) {
    forall i :: 0 <= i < |cps| ==> Scalar(cps[i])
  }

  ghost function EncodeAll(cps: seq<int>): Bytes
    requires Scalars(cps)
  {
    if cps == [] then [] else Encode(cps[0]) + EncodeAll(cps[1..])
  }

  // ---- The engine's check ----

  predicate IsContinuation(b: byte) {
    0x80 <= b < 0xC0
  }

  /** num_bytes_in_utf8_sequence */
  function SequenceLength(c: byte): nat {
    if c == 0xC0 || c == 0xC1 || c > 0xF4 || IsContinuation(c) then 0
    else if c < 0x80 then 1
    else if 0xC0 <= c < 0xE0 then 2
    else if 0xE0 <= c < 0xF0 then 3
    else if 0xF0 <= c < 0xF8 then 4
    else 0
  }

  datatype Sequence = Sequence(ok: bool, len: nat, cp: int)

  /** A byte of the string, or its terminator. */
  function At(t: Bytes, i: nat): byte {
    if i < |t| then t[i] else 0
  }

  /** The code point gathered from a lead byte and its continuation bytes; -1 when one is missing. */
  function Gather(len: nat, a: byte, b: byte, c: byte, d: byte): int {
    if len == 1 then a
    else if len == 2 && IsContinuation(b) then a % 32 * 64 + b % 64
    else if len == 3 && IsContinuation(b) && IsContinuation(c) then (a % 16 * 64 + b % 64) * 64 + c % 64
    else if len == 4 && IsContinuation(b) && IsContinuation(c) && IsContinuation(d) then
      ((a % 8 * 64 + b % 64) * 64 + c % 64) * 64 + d % 64
    else -1
  }

  predicate Overlong(len: nat, cp: int) {
    (cp < 0x80 && len > 1) || (cp < 0x800 && len > 2) || (cp < 0x10000 && len > 3)
  }

  /** verify_utf8_sequence, on the string that starts at t[i]. */
  function VerifySequence(t: Bytes, i: nat): Sequence {
    var len := SequenceLength(At(t, i));
    var cp := Gather(len, At(t, i), At(t, i + 1), At(t, i + 2), At(t, i + 3));
    Sequence(cp >= 0 && !Overlong(len, cp) && cp <= 0x10FFFF && !(0xD800 <= cp <= 0xDFFF), len, cp)
  }

  /** What is_valid_utf8 computes. */
  ghost predicate ValidUtf8(t: Bytes) {
    t == [] ||
    (var first := VerifySequence(t, 0);
     first.ok && 1 <= first.len <= |t| && ValidUtf8(t[first.len..]))
  }

  lemma VerifyShift(t: Bytes, i: nat)
    requires i <= |t|
    ensures VerifySequence(t, i) == VerifySequence(t[i..], 0)
  {
  }

  /** Joining six-bit groups and taking them apart again. */
  lemma JoinGroups(x: nat, y: nat, z: nat, w: nat)
    requires y < 64 && z < 64 && w < 64
    ensures var cp := ((x * 64 + y) * 64 + z) * 64 + w;
      cp % 64 == w && cp / 64 % 64 == z && cp / 64 == (x * 64 + y) * 64 + z
      && cp / 4096 == x * 64 + y && cp / 4096 % 64 == y && cp / 262144 == x
  {
  }

  lemma SplitGroups(cp: nat)
    ensures cp == ((cp / 262144 * 64 + cp / 4096 % 64) * 64 + cp / 64 % 64) * 64 + cp % 64
    ensures cp / 64 == cp / 4096 * 64 + cp / 64 % 64 && cp / 4096 == cp / 262144 * 64 + cp / 4096 % 64
  {
  }

  lemma GatheredTwo(a: byte, b: byte)
    requires 0xC2 <= a < 0xE0 && IsContinuation(b)
    ensures var cp := Gather(2, a, b, 0, 0); 0x80 <= cp < 0x800 && Encode(cp) == [a, b]
  {
    JoinGroups(0, 0, a - 0xC0, b - 0x80);
  }

  lemma GatheredThree(a: byte, b: byte, c: byte)
    requires 0xE0 <= a < 0xF0 && IsContinuation(b) && IsContinuation(c)
    ensures var cp := Gather(3, a, b, c, 0);
      0 <= cp < 0x10000 && (cp >= 0x800 && Scalar(cp) ==> Encode(cp) == [a, b, c])
  {
    assert a % 16 == a - 0xE0 && b % 64 == b - 0x80 && c % 64 == c - 0x80;
    JoinGroups(0, a - 0xE0, b - 0x80, c - 0x80);
  }

  lemma GatheredFour(a: byte, b: byte, c: byte, d: byte)
    requires 0xF0 <= a < 0xF8 && IsContinuation(b) && IsContinuation(c) && IsContinuation(d)
    ensures var cp := Gather(4, a, b, c, d);
      0 <= cp && (cp >= 0x10000 && Scalar(cp) ==> Encode(cp) == [a, b, c, d])
  {
    assert a % 8 == a - 0xF0 && b % 64 == b - 0x80 && c % 64 == c - 0x80 && d % 64 == d - 0x80;
    JoinGroups(a - 0xF0, b - 0x80, c - 0x80, d - 0x80);
  }

  /** An accepted sequence is the encoding of the code point that was gathered from it. */
  lemma VerifiedIsEncoded(t: Bytes, i: nat)
    requires i < |t| && VerifySequence(t, i).ok
    ensures var r := VerifySequence(t, i);
      Scalar(r.cp) && 1 <= r.len && i + r.len <= |t| && t[i..i + r.len] == Encode(r.cp)
  {
    var r := VerifySequence(t, i);
    if r.len == 2 {
      GatheredTwo(t[i], t[i + 1]);
    } else if r.len == 3 {
      GatheredThree(t[i], t[i + 1], t[i + 2]);
    } else if r.len == 4 {
      GatheredFour(t[i], t[i + 1], t[i + 2], t[i + 3]);
    }
  }

  /** What the encoder writes is gathered back. */
  lemma EncodedIsGathered(cp: int)
    requires Scalar(cp)
    ensures var t := Encode(cp);
      SequenceLength(t[0]) == |t| && Gather(|t|, t[0], At(t, 1), At(t, 2), At(t, 3)) == cp && !Overlong(|t|, cp)
  {
    SplitGroups(cp);
    if cp < 0x80 {
    } else if cp < 0x800 {
      GroupBits(cp / 64, cp % 64, 0, 0);
    } else if cp < 0x10000 {
      GroupBits(cp / 4096, cp / 64 % 64, cp % 64, 0);
    } else {
      GroupBits(cp / 262144, cp / 4096 % 64, cp / 64 % 64, cp % 64);
    }
  }

  /** The mask bits of a lead byte and of continuation bytes come off by remainder. */
  lemma GroupBits(x: nat, y: nat, z: nat, w: nat)
    requires y < 64 && z < 64 && w < 64
    ensures x < 32 ==> (0xC0 + x) % 32 == x
    ensures x < 16 ==> (0xE0 + x) % 16 == x
    ensures x < 8 ==> (0xF0 + x) % 8 == x
    ensures (0x80 + y) % 64 == y && (0x80 + z) % 64 == z && (0x80 + w) % 64 == w
  {
  }

  /** Every encoding is accepted, and yields its code point, whatever follows it. */
  lemma EncodedIsVerified(cp: int, rest: Bytes)
    requires Scalar(cp)
    ensures VerifySequence(Encode(cp) + rest, 0) == Sequence(true, |Encode(cp)|, cp)
  {
    EncodedIsGathered(cp);
  }

  method IsValidUtf8(t: Bytes) returns (ok: bool)
    ensures ok <==> ValidUtf8(t)
  {
    var i := 0;
    while i < |t|
      invariant 0 <= i <= |t|
      invariant ValidUtf8(t) <==> ValidUtf8(t[i..])
    {
      var r := VerifySequence(t, i);
      VerifyShift(t, i);
      if !r.ok {
        return false;
      }
      VerifiedIsEncoded(t, i);
      assert t[i..][r.len..] == t[i + r.len..];
      i := i + r.len;
    }
    return true;
  }

  lemma ValidCons(cp: int, rest: Bytes)
    requires Scalar(cp) && ValidUtf8(rest)
    ensures ValidUtf8(Encode(cp) + rest)
  {
    EncodedIsVerified(cp, rest);
    assert (Encode(cp) + rest)[|Encode(cp)|..] == rest;
  }

  /** A nonempty valid text is an encoding followed by a valid text. */
  lemma ValidSplit(t: Bytes) returns (cp: int, rest: Bytes)
    requires ValidUtf8(t) && t != []
    ensures Scalar(cp) && ValidUtf8(rest) && t == Encode(cp) + rest
  {
    var r := VerifySequence(t, 0);
    VerifiedIsEncoded(t, 0);
    cp, rest := r.cp, t[r.len..];
    assert t == t[..r.len] + rest;
  }

  lemma {:induction false} ValidPrepend(cps: seq<int>, b: Bytes)
    requires Scalars(cps) && ValidUtf8(b)
    ensures ValidUtf8(EncodeAll(cps) + b)
    decreases |cps|
  {
    if cps == [] {
      assert EncodeAll(cps) + b == b;
    } else {
      var rest := EncodeAll(cps[1..]) + b;
      ValidPrepend(cps[1..], b);
      ValidCons(cps[0], rest);
      AppendAssociates(Encode(cps[0]), EncodeAll(cps[1..]), b);
    }
  }

  lemma ValidAppend(a: Bytes, b: Bytes)
    requires ValidUtf8(a) && ValidUtf8(b)
    ensures ValidUtf8(a + b)
  {
    var cps := Decoded(a);
    ValidPrepend(cps, b);
  }

  lemma ValidEncode(cp: int)
    requires Scalar(cp)
    ensures ValidUtf8(Encode(cp))
  {
    ValidCons(cp, []);
    assert Encode(cp) + [] == Encode(cp);
  }

  /** The check accepts exactly the byte strings that RFC 3629 makes UTF-8. */
  lemma ValidUtf8IsEncodedScalars(t: Bytes)
    ensures ValidUtf8(t) <==> exists cps :: Scalars(cps) && t == EncodeAll(cps)
  {
    if ValidUtf8(t) {
      var cps := Decoded(t);
    }
    forall cps | Scalars(cps) && t == EncodeAll(cps)
      ensures ValidUtf8(t)
    {
      ValidPrepend(cps, []);
      assert EncodeAll(cps) + [] == t;
    }
  }

  lemma {:induction false} Decoded(t: Bytes) returns (cps: seq<int>)
    requires ValidUtf8(t)
    ensures Scalars(cps) && t == EncodeAll(cps)
    decreases |t|
  {
    if t == [] {
      cps := [];
    } else {
      var cp, tail := ValidSplit(t);
      var rest := Decoded(tail);
      cps := [cp] + rest;
      assert cps[1..] == rest;
    }
  }

  /** What follows a run of ASCII in valid text is valid. */
  lemma {:induction false} ValidAfterAscii(t: Bytes, k: nat)
    requires ValidUtf8(t) && k <= |t|
    requires forall i :: 0 <= i < k ==> t[i] < 0x80
    ensures ValidUtf8(t[k..])
    decreases k
  {
    if k > 0 {
      assert t[1..][k - 1..] == t[k..];
      ValidAfterAscii(t[1..], k - 1);
    } else {
      assert t[0..] == t;
    }
  }

  /** A valid text cut at its first NUL, as C reads it, is still valid. */
  lemma {:induction false} CStringValid(t: Bytes)
    requires ValidUtf8(t)
    ensures ValidUtf8(CString(t))
    decreases |t|
  {
    if t == [] || t[0] == 0 {
    } else {
      var cp, rest := ValidSplit(t);
      CStringValid(rest);
      CStringAppend(Encode(cp), rest);
      ValidCons(cp, CString(rest));
    }
  }

  lemma {:induction false} CStringAppend(a: Bytes, b: Bytes)
    requires NulFree(a)
    ensures CString(a + b) == a + CString(b)
    decreases |a|
  {
    if a == [] {
      assert a + b == b;
    } else {
      assert (a + b)[1..] == a[1..] + b;
      CStringAppend(a[1..], b);
    }
  }
}
