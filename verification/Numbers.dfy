/** Decimal text of integers, and the contract asked of the C library's number routines. */
module Numbers {
  import opened CText

  /** `sprintf("%u")`. */
  function Digits(n: nat): (t: Bytes)
    ensures |t| > 0 && forall i :: 0 <= i < |t| ==> IsDigit(t[i])
  {
    if n < 10 then [ZERO + n] else Digits(n / 10) + [ZERO + n % 10]
  }

  /** `sprintf("%d")`. */
  function Decimal(n: int): (t: Bytes)
    ensures |t| > 0 && forall i :: 0 <= i < |t| ==> IsDigit(t[i]) || (t[i] == MINUS && i == 0)
  {
    if n < 0 then [MINUS] + Digits(-n) else Digits(n)
  }

  function DigitsValue(t: Bytes): int {
    if t == [] then 0 else DigitsValue(t[..|t| - 1]) * 10 + (t[|t| - 1] - ZERO)
  }

  lemma {:induction false} DigitsValueOfDigits(n: nat)
    ensures DigitsValue(Digits(n)) == n
  {
    var t := Digits(n);
    if n < 10 {
      assert t[..0] == [];
    } else {
      DigitsValueOfDigits(n / 10);
      assert t[..|t| - 1] == Digits(n / 10);
    }
  }

  /** Different integers print differently. */
  lemma DecimalInjective(m: int, n: int)
    requires Decimal(m) == Decimal(n)
    ensures m == n
  {
    DigitsValueOfDigits(if m < 0 then -m else m);
    DigitsValueOfDigits(if n < 0 then -n else n);
    if m < 0 {
      assert Decimal(m)[0] == MINUS;
      assert Decimal(m)[1..] == Digits(-m);
      assert Decimal(n)[1..] == Digits(-n);
    } else {
      assert Decimal(n)[0] != MINUS;
    }
  }

  lemma {:induction false} DigitsFirst(n: nat)
    requires n > 0
    ensures Digits(n)[0] != ZERO
  {
    if n < 10 {
    } else {
      DigitsFirst(n / 10);
    }
  }

  lemma {:induction false} DigitsLength(n: nat, k: nat)
    requires n < Pow10(k) && k > 0
    ensures |Digits(n)| <= k
    decreases k
  {
    if n < 10 {
    } else {
      assert Pow10(k) == 10 * Pow10(k - 1);
      DigitsLength(n / 10, k - 1);
    }
  }

  function Pow10(k: nat): nat {
    if k == 0 then 1 else 10 * Pow10(k - 1)
  }

  /** The integers that the printer writes exactly: `%d` for C's int, `%u` for unsigned int. */
  predicate Printable(n: int) {
    -0x8000_0000 <= n < 0x1_0000_0000
  }

  lemma PrintableLength(n: int)
    requires Printable(n)
    ensures |Decimal(n)| <= 11
  {
    assert Pow10(10) == 10_000_000_000 by {
      assert Pow10(4) == 10_000;
      assert Pow10(7) == 10_000_000;
    }
    DigitsLength(if n < 0 then -n else n, 10);
  }

  predicate IsX(b: byte) {
    b == 0 || b == 120 || b == 88
  }

  /** What is_decimal decides: no needless leading zero, and no byte found in "xX". */
  predicate DecimalForm(t: Bytes) {
    && !(|t| > 1 && t[0] == ZERO && t[1] != DOT)
    && !(|t| > 2 && t[0] == MINUS && t[1] == ZERO && t[2] != DOT)
    && forall i :: 0 <= i < |t| ==> !IsX(t[i])
  }

  method IsDecimal(s: Buffer, start: nat, length: nat) returns (ok: bool)
    requires start + length < |s|
    ensures ok <==> DecimalForm(s[start..start + length])
  {
    ghost var t := s[start..start + length];
    if length > 1 && s[start] == ZERO && s[start + 1] != DOT {
      assert t[0] == ZERO && t[1] != DOT;
      return false;
    }
    if length > 2 && s[start] == MINUS && s[start + 1] == ZERO && s[start + 2] != DOT {
      assert t[0] == MINUS && t[1] == ZERO && t[2] != DOT;
      return false;
    }
    var left: nat := length;
    while left > 0
      invariant left <= length
      invariant forall i :: left <= i < length ==> !IsX(t[i])
    {
      left := left - 1;
      if IsX(s[start + left]) {
        assert IsX(t[left]);
        return false;
      }
    }
    return true;
  }

  lemma DecimalIsDecimalForm(n: int)
    ensures DecimalForm(Decimal(n))
  {
    if n != 0 {
      DigitsFirst(if n < 0 then -n else n);
    }
  }

  /** What `strtod` reports: the value, where it stopped, and whether errno was set. */
  datatype NumScan = NumScan(value: real, end: nat, rangeError: bool)

  /** The same, `k` bytes further on. */
  function MovedScan(scan: NumScan, k: nat): NumScan {
    scan.(end := scan.end + k)
  }

  /** Bytes after which the parser looks for the end of a value. */
  predicate EndsValue(b: byte) {
    b == 0 || IsSpace(b) || b == COMMA || b == RBRACKET || b == RBRACE
  }

  function LowerCase(b: byte): byte {
    if 65 <= b <= 90 then b + 32 else b
  }

  /** Three letters, in either case. */
  predicate Word(s: Bytes, p: nat, a: byte, b: byte, c: byte) {
    p + 3 <= |s| && LowerCase(s[p]) == a && LowerCase(s[p + 1]) == b && LowerCase(s[p + 2]) == c
  }

  /** `strtod` has something to convert after a minus sign: a digit, a point and a digit, or the words "inf" or
      "nan". */
  predicate ConvertsAfterMinus(s: Bytes, p: nat) {
    p < |s|
    && (IsDigit(s[p])
        || (s[p] == DOT && p + 1 < |s| && IsDigit(s[p + 1]))
        || Word(s, p, 105, 110, 102)
        || Word(s, p, 110, 97, 110))
  }

  /** Bytes that give a text its structure; no number contains one. */
  predicate IsStructural(b: byte) {
    b == QUOTE || b == COMMA || b == COLON || b == LBRACKET || b == RBRACKET || b == LBRACE || b == RBRACE
  }

  /** The library routines the engine calls: `strtod`, and `sprintf` with "%f". `rounded` is not a routine:
      it names the number that the text of "%f" denotes. */
  datatype Lib = Lib(strtod: (Bytes, nat) -> NumScan, formatF: real -> Bytes, rounded: real -> real) {

    ghost predicate ScansInside() {
      forall s: Buffer, p: nat :: p < |s| ==> p <= strtod(s, p).end < |s|
    }

    ghost predicate ScansPlainly() {
      forall s: Buffer, p: nat, i: nat {:trigger strtod(s, p), s[i]} ::
        p < |s| && p <= i < strtod(s, p).end ==> i < |s| && !IsStructural(s[i])
    }

    /** At a digit something is converted. */
    ghost predicate ConvertsDigits() {
      forall s: Buffer, p: nat :: p < |s| && IsDigit(s[p]) ==> strtod(s, p).end > p
    }

    /** At a minus sign something is converted exactly when a number follows; otherwise nothing is consumed and no error
        is reported. */
    ghost predicate ConvertsAfterSign() {
      forall s: Buffer, p: nat :: p < |s| && s[p] == MINUS ==>
        if ConvertsAfterMinus(s, p + 1) then strtod(s, p).end > p else strtod(s, p) == NumScan(0.0, p, false)
    }

    /** A printed integer, followed by the end of the value, is read back exactly. */
    ghost predicate ReadsIntegers() {
      forall s: Buffer, p: nat, n: int {:trigger strtod(s, p), Decimal(n)} ::
        Printable(n) && Holds(s, p, Decimal(n)) && p + |Decimal(n)| < |s| && EndsValue(s[p + |Decimal(n)|])
        ==> strtod(s, p) == NumScan(n as real, p + |Decimal(n)|, false)
    }

    /** So is the text of "%f", as the rounded number that it denotes. */
    ghost predicate ReadsFixed() {
      forall s: Buffer, p: nat, x: real {:trigger strtod(s, p), formatF(x)} ::
        Holds(s, p, formatF(x)) && p + |formatF(x)| < |s| && EndsValue(s[p + |formatF(x)|])
        ==> strtod(s, p) == NumScan(rounded(x), p + |formatF(x)|, false)
    }

    /** "%f" writes a decimal number, possibly with a point, that fits the 1100-byte scratch buffer. */
    ghost predicate FormatsPlainly() {
      forall x: real :: 0 < |formatF(x)| < 1100 && PlainNumber(formatF(x)) && DecimalForm(formatF(x))
    }

    /** What stands before the position does not matter. */
    ghost predicate ScansSuffix() {
      forall s: Buffer, p: nat {:trigger strtod(s, p), s[p..]} :: p < |s| ==>
        strtod(s, p) == MovedScan(strtod(s[p..], 0), p)
    }

    ghost predicate Valid() {
      && ScansInside() && ScansPlainly() && ConvertsDigits() && ConvertsAfterSign()
      && ReadsIntegers() && ReadsFixed() && FormatsPlainly()
    }
  }

  ghost predicate PlainNumber(t: Bytes) {
    (t != [] ==> IsDigit(t[0]) || t[0] == MINUS)
    && forall i :: 0 <= i < |t| ==> IsDigit(t[i]) || t[i] == MINUS || t[i] == DOT
  }

  /** Where a run of digits ends. */
  function SkipDigits(s: Bytes, p: nat): (q: nat)
    requires p < |s| && Terminated(s)
    ensures p <= q < |s| && !IsDigit(s[q])
    ensures forall i :: p <= i < q ==> IsDigit(s[i])
    decreases |s| - p
  {
    if IsDigit(s[p]) then SkipDigits(s, p + 1) else p
  }

  lemma SkipDigitsOver(s: Buffer, p: nat, q: nat)
    requires p <= q < |s| && !IsDigit(s[q])
    requires forall i :: p <= i < q ==> IsDigit(s[i])
    ensures SkipDigits(s, p) == q
    decreases q - p
  {
    if p < q {
      SkipDigitsOver(s, p + 1, q);
    }
  }

  /** A scanner that reads integers only; of other numbers after a minus sign it takes one byte. */
  function ScanInteger(s: Bytes, p: nat): NumScan {
    if !(|s| > 0 && s[|s| - 1] == 0 && p < |s| && forall i :: 0 <= i < |s| - 1 ==> s[i] != 0)
    then NumScan(0.0, p, false)
    else
      var negative := s[p] == MINUS;
      var first := if negative then p + 1 else p;
      var end := SkipDigits(s, first);
      var value := DigitsValue(s[first..end]);
      if end == first then
        if negative && ConvertsAfterMinus(s, first) then NumScan(0.0, p + 2, false) else NumScan(0.0, p, false)
      else NumScan((if negative then -value else value) as real, end, false)
  }

  lemma EndsDigits(b: byte)
    requires EndsValue(b)
    ensures !IsDigit(b)
  {
  }

  lemma ScanIntegerReads(s: Buffer, p: nat, n: int)
    requires Holds(s, p, Decimal(n)) && p + |Decimal(n)| < |s| && EndsValue(s[p + |Decimal(n)|])
    ensures ScanInteger(s, p) == NumScan(n as real, p + |Decimal(n)|, false)
  {
    hide ConvertsAfterMinus, EndsValue, IsSpace;
    EndsDigits(s[p + |Decimal(n)|]);
    var t := Decimal(n);
    var m := if n < 0 then -n else n;
    var first := if n < 0 then p + 1 else p;
    HoldsAt(s, p, t, 0);
    if n < 0 {
      HoldsAppend(s, p, [MINUS], Digits(m));
    }
    assert Holds(s, first, Digits(m));
    forall i | first <= i < p + |t|
      ensures IsDigit(s[i])
    {
      HoldsAt(s, first, Digits(m), i - first);
    }
    SkipDigitsOver(s, first, p + |t|);
    DigitsValueOfDigits(m);
  }

  const SAMPLE: Lib := Lib(ScanInteger, (x: real) => [ZERO], (x: real) => 0.0)

  lemma SampleReadsIntegers()
    ensures SAMPLE.ReadsIntegers()
  {
    hide ScanInteger, Holds, Decimal, EndsValue;
    forall s: Buffer, p: nat, n: int {:trigger SAMPLE.strtod(s, p), Decimal(n)}
      | Printable(n) && Holds(s, p, Decimal(n)) && p + |Decimal(n)| < |s| && EndsValue(s[p + |Decimal(n)|])
      ensures SAMPLE.strtod(s, p) == NumScan(n as real, p + |Decimal(n)|, false)
    {
      ScanIntegerReads(s, p, n);
    }
  }

  lemma SampleReadsFixed()
    ensures SAMPLE.ReadsFixed()
  {
    hide ScanInteger, Holds, EndsValue;
    forall s: Buffer, p: nat, x: real {:trigger SAMPLE.strtod(s, p), SAMPLE.formatF(x)}
      | Holds(s, p, SAMPLE.formatF(x)) && p + |SAMPLE.formatF(x)| < |s| && EndsValue(s[p + |SAMPLE.formatF(x)|])
      ensures SAMPLE.strtod(s, p) == NumScan(SAMPLE.rounded(x), p + |SAMPLE.formatF(x)|, false)
    {
      assert SAMPLE.formatF(x) == Decimal(0);
      ScanIntegerReads(s, p, 0);
    }
  }

  lemma SampleScans()
    ensures SAMPLE.ScansInside() && SAMPLE.ScansPlainly() && SAMPLE.ConvertsDigits() && SAMPLE.ConvertsAfterSign()
  {
  }

  lemma ScanIntegerSuffix(s: Buffer, p: nat)
    requires p < |s|
    ensures ScanInteger(s, p) == MovedScan(ScanInteger(s[p..], 0), p)
  {
    var u := s[p..];
    var first := if s[p] == MINUS then p + 1 else p;
    var end := SkipDigits(s, first);
    SkipDigitsOver(u, first - p, end - p);
    assert s[first..end] == u[first - p..end - p];
    hide SkipDigits, DigitsValue;
  }

  lemma SampleScansSuffix()
    ensures SAMPLE.ScansSuffix()
  {
    hide ScanInteger;
    forall s: Buffer, p: nat {:trigger SAMPLE.strtod(s, p), s[p..]} | p < |s|
      ensures SAMPLE.strtod(s, p) == MovedScan(SAMPLE.strtod(s[p..], 0), p)
    {
      ScanIntegerSuffix(s, p);
    }
  }

  /** The contract can be met. */
  lemma LibExists()
    ensures exists lib: Lib :: lib.Valid() && lib.ScansSuffix()
  {
    SampleReadsIntegers();
    SampleReadsFixed();
    SampleScans();
    SampleScansSuffix();
    assert SAMPLE.FormatsPlainly();
    assert SAMPLE.Valid();
  }
}
