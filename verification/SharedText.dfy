/** The bytes themselves: of the shared text, for every memory, and of the schema file that the first text comes
    from. */
module SharedText {
  import opened CText
  import opened Numbers
  import opened Values
  import opened Tables
  import opened StringCodec
  import opened Printer
  import opened Parser
  import opened Tokens
  import opened RoundTrip
  import opened Texts
  import opened FitPolicies
  import opened Machine
  import opened Allocator
  import opened MemoryValue
  import opened MemoryText
  import CommentGaps

  // ---- What the threads share ----

  function Ascii(t: string): (r: Bytes)
    requires forall i :: 0 <= i < |t| ==> t[i] as int < 128
    ensures |r| == |t| && forall i :: 0 <= i < |r| ==> r[i] == t[i] as int
  {
    seq(|t|, i requires 0 <= i < |t| => t[i] as int)
  }

  function Joined(ts: seq<Bytes>): Bytes {
    if ts == [] then [] else if |ts| == 1 then ts[0] else ts[0] + (Ascii(",") + Joined(ts[1..]))
  }

  /** A quoted name and its colon. */
  function Name(name: Bytes): Bytes {
    Ascii("\"") + name + Ascii("\"") + Ascii(":")
  }

  function EntryJson(m: Member<Job>): Bytes {
    Name(Digits(m.value.tid))
    + (Ascii("{") + (Name(Ascii("size")) + Decimal(m.value.size)
       + (Ascii(",") + (Name(Ascii("delay")) + Decimal(m.value.delay) + Ascii("}")))))
  }

  function EntriesJson(ms: seq<Member<Job>>): (r: seq<Bytes>)
    ensures |r| == |ms| && forall k :: 0 <= k < |ms| ==> r[k] == EntryJson(ms[k])
  {
    seq(|ms|, k requires 0 <= k < |ms| => EntryJson(ms[k]))
  }

  function PartitionJson(part: Partition): Bytes {
    Ascii("{") + (Name(Ascii("size")) + Decimal(part.size)
      + (Ascii(",") + (Name(Ascii("free_space")) + Decimal(part.free)
        + (Ascii(",") + (Name(Ascii("processes")) + (Ascii("{") + Joined(EntriesJson(part.processes)) + Ascii("}"))
          + Ascii("}"))))))
  }

  function PartitionsJson(m: Memory): (r: seq<Bytes>)
    ensures |r| == |m| && forall p :: 0 <= p < |m| ==> r[p] == PartitionJson(m[p])
  {
    seq(|m|, p requires 0 <= p < |m| => PartitionJson(m[p]))
  }

  function MemoryJson(m: Memory): Bytes {
    Ascii("[") + Joined(PartitionsJson(m)) + Ascii("]")
  }

  // ---- Objects of printed values ----

  lemma IntText(lib: Lib, n: int, level: nat)
    requires Int32(n)
    ensures Print(lib, NumberOf(n), level, false) == Decimal(n)
  {
    assert (n as real).Floor == n;
  }

  /** Letters, digits and underscores need no escape. */
  predicate PlainName(t: Bytes) {
    forall i :: 0 <= i < |t| ==> 97 <= t[i] <= 122 || t[i] == 95 || IsDigit(t[i])
  }

  lemma {:induction false} NotEscaped(t: Bytes)
    requires PlainName(t)
    ensures Escape(t) == t
  {
    if t == [] {
    } else {
      NotEscaped(t[1..]);
      assert t == [t[0]] + t[1..];
    }
  }

  /** A member without what follows it. */
  function MemberJson(lib: Lib, m: Member<Value>, level: nat): Bytes {
    Quoted(m.name) + [COLON] + Print(lib, m.value, level + 1, false)
  }

  /** The compact text of the last member, and of a member before others. */
  lemma MembersCompact(lib: Lib, ms: seq<Member<Value>>, level: nat)
    requires ms != []
    ensures PrintMembers(lib, ms, level, false)
      == MemberJson(lib, ms[0], level)
         + if |ms| == 1 then [RBRACE] else [COMMA] + PrintMembers(lib, ms[1..], level, false)
  {
    hide Print, Quoted, Indent;
    if |ms| == 1 {
      assert ms[1..] == [];
    }
  }

  lemma ObjectCompact(lib: Lib, ms: seq<Member<Value>>, capacity: nat, level: nat)
    ensures Print(lib, Obj(ms, capacity), level, false)
      == if ms == [] then Ascii("{}") else Ascii("{") + PrintMembers(lib, ms, level, false)
  {
    hide PrintMembers;
    assert Ascii("{}") == [LBRACE, RBRACE] && Ascii("{") == [LBRACE] == [LBRACE] + [];
  }

  lemma NameText(name: Bytes)
    requires PlainName(name)
    ensures Quoted(name) + [COLON] == Name(name)
  {
    hide Escape;
    NotEscaped(name);
    assert Ascii("\"") == [QUOTE] && Ascii(":") == [COLON];
  }

  lemma NamesAre()
    ensures SIZE == Ascii("size") && DELAY == Ascii("delay")
    ensures FREE_SPACE == Ascii("free_space") && PROCESSES == Ascii("processes")
  {
  }

  lemma Punctuation()
    ensures [COMMA] == Ascii(",") && [RBRACE] == Ascii("}") && [LBRACKET] == Ascii("[") && [RBRACKET] == Ascii("]")
    ensures Ascii("{") + [] + Ascii("}") == Ascii("{}")
  {
  }

  lemma TwoMembers(lib: Lib, a: Member<Value>, b: Member<Value>, level: nat)
    ensures Print(lib, Obj([a, b], 2), level, false)
      == Ascii("{") + (MemberJson(lib, a, level) + (Ascii(",") + (MemberJson(lib, b, level) + Ascii("}"))))
  {
    hide Print, PrintMembers, MemberJson, Ascii;
    assert [a, b][1..] == [b];
    ObjectCompact(lib, [a, b], 2, level);
    MembersCompact(lib, [a, b], level);
    MembersCompact(lib, [b], level);
    Punctuation();
  }

  lemma ThreeMembers(lib: Lib, a: Member<Value>, b: Member<Value>, c: Member<Value>, level: nat)
    ensures Print(lib, Obj([a, b, c], 3), level, false)
      == Ascii("{") + (MemberJson(lib, a, level)
           + (Ascii(",") + (MemberJson(lib, b, level) + (Ascii(",") + (MemberJson(lib, c, level) + Ascii("}"))))))
  {
    hide Print, PrintMembers, MemberJson, Ascii;
    assert [a, b, c][1..] == [b, c] && [b, c][1..] == [c];
    ObjectCompact(lib, [a, b, c], 3, level);
    MembersCompact(lib, [a, b, c], level);
    MembersCompact(lib, [b, c], level);
    MembersCompact(lib, [c], level);
    Punctuation();
  }

  lemma IntMember(lib: Lib, name: Bytes, n: int, level: nat)
    requires Int32(n) && PlainName(name)
    ensures MemberJson(lib, Member(name, NumberOf(n)), level) == Name(name) + Decimal(n)
  {
    hide Print, Quoted, Name, Decimal;
    IntText(lib, n, level + 1);
    NameText(name);
  }

  /** An object of two numbers. */
  lemma EntryText(lib: Lib, m: Member<Job>, level: nat)
    requires m == EntryOf(m.value) && Int32(m.value.size) && Int32(m.value.delay)
    ensures MemberJson(lib, Member(m.name, EncodeJob(m.value)), level) == EntryJson(m)
  {
    hide Print, Ascii, Decimal, Digits, Name, Quoted;
    var size, delay := Member(SIZE, NumberOf(m.value.size)), Member(DELAY, NumberOf(m.value.delay));
    NamesAre();
    TwoMembers(lib, size, delay, level + 1);
    IntMember(lib, SIZE, m.value.size, level + 1);
    IntMember(lib, DELAY, m.value.delay, level + 1);
    NameText(Digits(m.value.tid));
  }

  lemma {:induction false} EntriesText(lib: Lib, ms: seq<Member<Job>>, level: nat)
    requires ms != []
    requires forall k :: 0 <= k < |ms| ==>
      ms[k] == EntryOf(ms[k].value) && Int32(ms[k].value.size) && Int32(ms[k].value.delay)
    ensures PrintMembers(lib, EncodeProcesses(ms), level, false) == Joined(EntriesJson(ms)) + Ascii("}")
    decreases |ms|
  {
    hide Print, PrintMembers, MemberJson, Ascii, Digits, EncodeJob, EntryJson;
    assert EncodeProcesses(ms)[0] == Member(ms[0].name, EncodeJob(ms[0].value));
    EntryText(lib, ms[0], level);
    MembersCompact(lib, EncodeProcesses(ms), level);
    Punctuation();
    assert EntriesJson(ms)[0] == EntryJson(ms[0]);
    if |ms| > 1 {
      assert EncodeProcesses(ms)[1..] == EncodeProcesses(ms[1..]);
      assert EntriesJson(ms)[1..] == EntriesJson(ms[1..]);
      EntriesText(lib, ms[1..], level);
      AppendAssociates(EntryJson(ms[0]), Ascii(",") + Joined(EntriesJson(ms[1..])), Ascii("}"));
      AppendAssociates(Ascii(","), Joined(EntriesJson(ms[1..])), Ascii("}"));
    }
  }

  lemma ProcessesText(lib: Lib, ms: seq<Member<Job>>, level: nat)
    requires forall k :: 0 <= k < |ms| ==>
      ms[k] == EntryOf(ms[k].value) && Int32(ms[k].value.size) && Int32(ms[k].value.delay)
    ensures Print(lib, Obj(EncodeProcesses(ms), |ms|), level, false)
      == Ascii("{") + Joined(EntriesJson(ms)) + Ascii("}")
  {
    hide Print, PrintMembers, Ascii, EntryJson, EncodeJob;
    ObjectCompact(lib, EncodeProcesses(ms), |ms|, level);
    if ms == [] {
      Punctuation();
      assert Ascii("{") + [] == Ascii("{");
    } else {
      EntriesText(lib, ms, level);
      AppendAssociates(Ascii("{"), Joined(EntriesJson(ms)), Ascii("}"));
    }
  }

  lemma ProcessesMember(lib: Lib, part: Partition, level: nat)
    requires EncodablePartition(part)
    ensures MemberJson(lib, Member(PROCESSES, Obj(EncodeProcesses(part.processes), |part.processes|)), level)
      == Name(PROCESSES) + (Ascii("{") + Joined(EntriesJson(part.processes)) + Ascii("}"))
  {
    hide Print, Quoted, Ascii, Name, Joined, EntriesJson, EncodeProcesses;
    NameText(PROCESSES);
    ProcessesText(lib, part.processes, level + 1);
  }

  lemma PartitionText(lib: Lib, part: Partition, level: nat)
    requires EncodablePartition(part)
    ensures Print(lib, EncodePartition(part), level, false) == PartitionJson(part)
  {
    hide Print, MemberJson, Ascii, Name, Decimal, Joined, EntriesJson, EncodeProcesses;
    var processes := Obj(EncodeProcesses(part.processes), |part.processes|);
    NamesAre();
    ThreeMembers(lib, Member(SIZE, NumberOf(part.size)), Member(FREE_SPACE, NumberOf(part.free)),
                 Member(PROCESSES, processes), level);
    IntMember(lib, SIZE, part.size, level);
    IntMember(lib, FREE_SPACE, part.free, level);
    ProcessesMember(lib, part, level);
  }

  lemma ItemsCompact(lib: Lib, items: seq<Value>, level: nat)
    requires items != []
    ensures PrintItems(lib, items, level, false)
      == Print(lib, items[0], level + 1, false)
         + if |items| == 1 then [RBRACKET] else [COMMA] + PrintItems(lib, items[1..], level, false)
  {
    hide Print, Indent;
    if |items| == 1 {
      assert items[1..] == [];
    }
  }

  lemma {:induction false} PartitionsText(lib: Lib, m: Memory, level: nat)
    requires m != [] && forall p :: 0 <= p < |m| ==> EncodablePartition(m[p])
    ensures PrintItems(lib, Encode(m).items, level, false) == Joined(PartitionsJson(m)) + Ascii("]")
    decreases |m|
  {
    hide Print, PrintItems, Ascii, EncodePartition, PartitionJson, EncodablePartition;
    PartitionText(lib, m[0], level + 1);
    ItemsCompact(lib, Encode(m).items, level);
    Punctuation();
    assert PartitionsJson(m)[0] == PartitionJson(m[0]);
    if |m| > 1 {
      assert Encode(m).items[1..] == Encode(m[1..]).items;
      assert PartitionsJson(m)[1..] == PartitionsJson(m[1..]);
      PartitionsText(lib, m[1..], level);
      AppendAssociates(PartitionJson(m[0]), Ascii(",") + Joined(PartitionsJson(m[1..])), Ascii("]"));
      AppendAssociates(Ascii(","), Joined(PartitionsJson(m[1..])), Ascii("]"));
    }
  }

  lemma ArrayCompact(lib: Lib, items: seq<Value>, capacity: nat, level: nat)
    ensures Print(lib, Arr(items, capacity), level, false)
      == if items == [] then Ascii("[") + [] + Ascii("]") else Ascii("[") + PrintItems(lib, items, level, false)
  {
    hide PrintItems;
    assert Ascii("[") + [] + Ascii("]") == [LBRACKET, RBRACKET] && Ascii("[") == [LBRACKET] == [LBRACKET] + [];
  }

  /** The shared text of every memory, byte for byte. */
  lemma TextIsJson(lib: Lib, m: Memory)
    requires lib.Valid() && Encodable(m)
    ensures Text(lib, m) == MemoryJson(m)
  {
    hide Print, PrintItems, Ascii, PartitionJson, EncodePartition, EncodablePartition, Lib.Valid;
    ArrayCompact(lib, Encode(m).items, |m|, 0);
    if m != [] {
      PartitionsText(lib, m, 0);
      AppendAssociates(Ascii("["), Joined(PartitionsJson(m)), Ascii("]"));
    }
  }

  // ---- Nothing is lost ----

  lemma EncodedNumber(m: int, n: int)
    requires NumberOf(m) == NumberOf(n)
    ensures m == n
  {
    assert (m as real).Floor == m && (n as real).Floor == n;
  }

  lemma EntriesInjective(a: seq<Member<Job>>, b: seq<Member<Job>>)
    requires EncodeProcesses(a) == EncodeProcesses(b)
    requires forall k :: 0 <= k < |a| ==> a[k] == EntryOf(a[k].value)
    requires forall k :: 0 <= k < |b| ==> b[k] == EntryOf(b[k].value)
    ensures a == b
  {
    hide Digits, NumberOf;
    assert |a| == |EncodeProcesses(a)| == |b|;
    forall k | 0 <= k < |a|
      ensures a[k] == b[k]
    {
      var x, y := EncodeProcesses(a)[k], EncodeProcesses(b)[k];
      assert x == y && x.name == Digits(a[k].value.tid) && y.name == Digits(b[k].value.tid);
      DigitsInjective(a[k].value.tid, b[k].value.tid);
      EncodedNumber(a[k].value.size, b[k].value.size);
      EncodedNumber(a[k].value.delay, b[k].value.delay);
    }
  }

  lemma EncodeInjective(m: Memory, n: Memory)
    requires Encodable(m) && Encodable(n) && Encode(m) == Encode(n)
    ensures m == n
  {
    hide EncodeProcesses, NumberOf, Digits;
    assert |m| == |Encode(m).items| == |n|;
    forall p | 0 <= p < |m|
      ensures m[p] == n[p]
    {
      assert EncodePartition(m[p]) == Encode(m).items[p] == EncodePartition(n[p]);
      var x, y := EncodePartition(m[p]).members, EncodePartition(n[p]).members;
      assert x[0] == y[0] && x[1] == y[1] && x[2] == y[2];
      EncodedNumber(m[p].size, n[p].size);
      EncodedNumber(m[p].free, n[p].free);
      assert EncodablePartition(m[p]) && EncodablePartition(n[p]);
      EntriesInjective(m[p].processes, n[p].processes);
    }
  }

  /** Different memories have different texts. */
  lemma TextInjective(lib: Lib, m: Memory, n: Memory)
    requires lib.Valid() && Encodable(m) && Encodable(n) && Text(lib, m) == Text(lib, n)
    ensures m == n
  {
    hide Text, Encode, Encodable, ReadMemory, Lib.Valid;
    ReadIsEncode(lib, m);
    ReadIsEncode(lib, n);
    EncodeInjective(m, n);
  }

  // ---- The schema file ----

  /** A token, and the blank space before it. */
  datatype Spaced = Spaced(gap: Bytes, token: Bytes)

  function TextOf(ps: seq<Spaced>): Bytes {
    if ps == [] then [] else ps[0].gap + (ps[0].token + TextOf(ps[1..]))
  }

  function TokensIn(ps: seq<Spaced>): (ts: seq<Bytes>)
    ensures |ts| == |ps| && forall i :: 0 <= i < |ps| ==> ts[i] == ps[i].token
  {
    seq(|ps|, i requires 0 <= i < |ps| => ps[i].token)
  }

  ghost predicate WellSpaced(ps: seq<Spaced>) {
    forall i :: 0 <= i < |ps| ==> Blank(ps[i].gap) && ps[i].token != [] && !IsSpace(ps[i].token[0])
  }

  lemma {:induction false} SpacedReads(s: Buffer, p: nat, ps: seq<Spaced>)
    requires WellSpaced(ps) && Holds(s, p, TextOf(ps)) && p + |TextOf(ps)| < |s|
    ensures ReadTokens(s, p, TokensIn(ps)) == Some(p + |TextOf(ps)|)
    decreases |ps|
  {
    hide Holds, ReadTokens, SkipSpaces, Blank;
    if ps == [] {
      NothingMore(s, p);
      assert TokensIn(ps) == [];
    } else {
      var gap, token, rest := ps[0].gap, ps[0].token, TextOf(ps[1..]);
      HoldsAppend(s, p, gap, token + rest);
      HoldsAppend(s, p + |gap|, token, rest);
      assert TokensIn(ps) == [token] + TokensIn(ps[1..]);
      ReadAfterBlank(s, p, gap, TokensIn(ps));
      ReadToken(s, p + |gap|, token, TokensIn(ps[1..]));
      SpacedReads(s, p + |gap| + |token|, ps[1..]);
    }
  }

  function InQuotes(name: Bytes): Bytes {
    Ascii("\"") + name + Ascii("\"")
  }

  /** A member on a line of its own, and what follows it. */
  function MemberLine(name: Bytes, value: seq<Spaced>, rest: seq<Spaced>): seq<Spaced> {
    [Spaced(Ascii("\n    "), InQuotes(name)), Spaced([], Ascii(":"))] + (value + rest)
  }

  function CommaAnd(rest: seq<Spaced>): seq<Spaced> {
    [Spaced([], Ascii(","))] + rest
  }

  /** One element of the file, for a free partition of this size. */
  function PartitionLines(size: nat): seq<Spaced> {
    [Spaced(Ascii("\n  "), Ascii("{"))]
    + MemberLine(Ascii("size"), [Spaced(Ascii(" "), Digits(size))],
        CommaAnd(MemberLine(Ascii("free_space"), [Spaced(Ascii(" "), Digits(size))],
          CommaAnd(MemberLine(Ascii("processes"), [Spaced(Ascii(" "), Ascii("{")), Spaced([], Ascii("}"))],
            [Spaced(Ascii("\n  "), Ascii("}"))])))))
  }

  function SchemaLines(sizes: seq<nat>): seq<Spaced> {
    if sizes == [] then [Spaced(Ascii("\n"), Ascii("]"))]
    else
      PartitionLines(sizes[0])
      + ((if |sizes| == 1 then [] else [Spaced([], Ascii(","))]) + SchemaLines(sizes[1..]))
  }

  const SCHEMA_SIZES: seq<nat> := [10, 5, 7, 8, 10, 4, 6]

  /** The bytes of a file in the form of schema.json. */
  function FileText(sizes: seq<nat>): Bytes {
    TextOf([Spaced([], Ascii("["))] + SchemaLines(sizes))
  }

  /** The memory with free partitions of these sizes. */
  function FreeMemory(sizes: seq<nat>): (m: Memory)
    ensures |m| == |sizes| && forall p :: 0 <= p < |m| ==> m[p] == Partition(sizes[p], sizes[p], [])
  {
    seq(|sizes|, p requires 0 <= p < |sizes| => Partition(sizes[p], sizes[p], []))
  }

  lemma AppendTokens(a: seq<Spaced>, b: seq<Spaced>)
    ensures TokensIn(a + b) == TokensIn(a) + TokensIn(b)
    ensures WellSpaced(a + b) <==> WellSpaced(a) && WellSpaced(b)
  {
    var all := a + b;
    assert forall i :: 0 <= i < |a| ==> all[i] == a[i];
    assert forall i :: 0 <= i < |b| ==> all[|a| + i] == b[i];
  }

  lemma OneToken(gap: Bytes, token: Bytes)
    requires Blank(gap) && token != [] && !IsSpace(token[0])
    ensures WellSpaced([Spaced(gap, token)]) && TokensIn([Spaced(gap, token)]) == [token]
  {
  }

  lemma QuotedInQuotes(name: Bytes)
    requires PlainName(name)
    ensures Quoted(name) == InQuotes(name)
  {
    hide Escape;
    NotEscaped(name);
    assert Ascii("\"") == [QUOTE];
  }

  lemma OneByteTokens()
    ensures Ascii("{") == [LBRACE] && Ascii("}") == [RBRACE] && Ascii(":") == [COLON] && Ascii(",") == [COMMA]
    ensures Ascii("[") == [LBRACKET] && Ascii("]") == [RBRACKET]
  {
  }

  lemma MemberTokensOf(lib: Lib, ms: seq<Member<Value>>, rest: seq<Bytes>)
    requires ms != [] && rest == if |ms| == 1 then [[RBRACE]] else [[COMMA]] + MemberTokens(lib, ms[1..])
    ensures MemberTokens(lib, ms) == [Quoted(ms[0].name), [COLON]] + (TokensOf(lib, ms[0].value) + rest)
  {
    hide TokensOf, Quoted;
    if |ms| == 1 {
      assert ms[1..] == [] && CommaToken(true) + [[RBRACE]] == [[RBRACE]];
    }
  }

  lemma MemberLineTokens(name: Bytes, value: seq<Spaced>, rest: seq<Spaced>)
    requires PlainName(name) && WellSpaced(value) && WellSpaced(rest)
    ensures WellSpaced(MemberLine(name, value, rest))
    ensures TokensIn(MemberLine(name, value, rest)) == [Quoted(name), [COLON]] + (TokensIn(value) + TokensIn(rest))
  {
    hide Quoted, InQuotes;
    QuotedInQuotes(name);
    OneByteTokens();
    var head := [Spaced(Ascii("\n    "), InQuotes(name)), Spaced([], Ascii(":"))];
    assert WellSpaced(head) by {
      HeadSpaced(name);
    }
    assert TokensIn(head) == [Quoted(name), [COLON]];
    AppendTokens(value, rest);
    AppendTokens(head, value + rest);
  }

  lemma HeadSpaced(name: Bytes)
    ensures WellSpaced([Spaced(Ascii("\n    "), InQuotes(name)), Spaced([], Ascii(":"))])
  {
    assert InQuotes(name)[0] == QUOTE;
  }

  lemma CommaTokens(rest: seq<Spaced>)
    requires WellSpaced(rest)
    ensures WellSpaced(CommaAnd(rest)) && TokensIn(CommaAnd(rest)) == [[COMMA]] + TokensIn(rest)
  {
    OneByteTokens();
    OneToken([], Ascii(","));
    AppendTokens([Spaced([], Ascii(","))], rest);
  }

  lemma DigitsSpaced(n: nat)
    ensures WellSpaced([Spaced(Ascii(" "), Digits(n))]) && TokensIn([Spaced(Ascii(" "), Digits(n))]) == [Digits(n)]
  {
    hide Digits;
    OneToken(Ascii(" "), Digits(n));
  }

  lemma BracesSpaced()
    ensures var open := [Spaced(Ascii("\n  "), Ascii("{"))]; WellSpaced(open) && TokensIn(open) == [[LBRACE]]
    ensures var close := [Spaced(Ascii("\n  "), Ascii("}"))]; WellSpaced(close) && TokensIn(close) == [[RBRACE]]
    ensures var none := [Spaced(Ascii(" "), Ascii("{")), Spaced([], Ascii("}"))];
      WellSpaced(none) && TokensIn(none) == [[LBRACE], [RBRACE]]
  {
    OneByteTokens();
  }

  /** A member on its line, before the lines of others. */
  lemma MemberLineHolds(lib: Lib, m: Member<Value>, ms: seq<Member<Value>>, value: seq<Spaced>, rest: seq<Spaced>)
    requires PlainName(m.name) && WellSpaced(value) && TokensIn(value) == TokensOf(lib, m.value)
    requires WellSpaced(rest)
    requires TokensIn(rest) == if ms == [] then [[RBRACE]] else [[COMMA]] + MemberTokens(lib, ms)
    ensures WellSpaced(MemberLine(m.name, value, rest))
    ensures TokensIn(MemberLine(m.name, value, rest)) == MemberTokens(lib, [m] + ms)
  {
    hide Quoted, TokensOf, MemberTokens, MemberLine, TokensIn, WellSpaced, PlainName;
    MemberLineTokens(m.name, value, rest);
    assert ([m] + ms)[1..] == ms && ([m] + ms)[0] == m;
    MemberTokensOf(lib, [m] + ms, TokensIn(rest));
  }

  lemma AllPlain()
    ensures PlainName(SIZE) && PlainName(FREE_SPACE) && PlainName(PROCESSES)
  {
  }

  /** The lines of a free partition hold its tokens. */
  lemma LinesTokens(lib: Lib, size: nat)
    requires Int32(size)
    ensures WellSpaced(PartitionLines(size))
    ensures TokensIn(PartitionLines(size)) == TokensOf(lib, EncodePartition(Partition(size, size, [])))
  {
    hide Quoted, Digits, TokensOf, MemberTokens, MemberLine, CommaAnd, TokensIn, WellSpaced, Ascii, NumberOf, PlainName,
         EncodePartition;
    var number, none := [Spaced(Ascii(" "), Digits(size))], [Spaced(Ascii(" "), Ascii("{")), Spaced([], Ascii("}"))];
    var a, b, c := Member(SIZE, NumberOf(size)), Member(FREE_SPACE, NumberOf(size)), Member(PROCESSES, Obj([], 0));
    var end := [Spaced(Ascii("\n  "), Ascii("}"))];
    FreePartition(size);
    NumberTokens(lib, size);
    EmptyObjectTokens(lib);
    NamesAre();
    AllPlain();
    DigitsSpaced(size);
    BracesSpaced();
    MemberLineHolds(lib, c, [], none, end);
    var third := MemberLine(PROCESSES, none, end);
    CommaTokens(third);
    assert [c] + [] == [c];
    MemberLineHolds(lib, b, [c], number, CommaAnd(third));
    var second := MemberLine(FREE_SPACE, number, CommaAnd(third));
    CommaTokens(second);
    assert [b] + [c] == [b, c];
    MemberLineHolds(lib, a, [b, c], number, CommaAnd(second));
    assert [a] + [b, c] == [a, b, c];
    AppendTokens([Spaced(Ascii("\n  "), Ascii("{"))], MemberLine(SIZE, number, CommaAnd(second)));
    ObjectTokens(lib, [a, b, c]);
  }

  lemma FreePartition(size: nat)
    ensures EncodePartition(Partition(size, size, []))
      == Obj([Member(SIZE, NumberOf(size)), Member(FREE_SPACE, NumberOf(size)), Member(PROCESSES, Obj([], 0))], 3)
  {
    assert EncodeProcesses([]) == [];
  }

  lemma NumberTokens(lib: Lib, n: nat)
    requires Int32(n)
    ensures TokensOf(lib, NumberOf(n)) == [Digits(n)]
  {
    assert (n as real).Floor == n;
  }

  lemma EmptyObjectTokens(lib: Lib)
    ensures TokensOf(lib, Obj([], 0)) == [[LBRACE], [RBRACE]]
  {
  }

  lemma ObjectTokens(lib: Lib, ms: seq<Member<Value>>)
    ensures TokensOf(lib, Obj(ms, |ms|)) == [[LBRACE]] + MemberTokens(lib, ms)
  {
  }

  lemma {:induction false} SchemaTokens(lib: Lib, sizes: seq<nat>)
    requires forall i :: 0 <= i < |sizes| ==> Int32(sizes[i])
    ensures WellSpaced(SchemaLines(sizes))
    ensures TokensIn(SchemaLines(sizes)) == ItemTokens(lib, Encode(FreeMemory(sizes)).items)
    decreases |sizes|
  {
    hide TokensOf, EncodePartition, PartitionLines, Blank;
    OneByteTokens();
    if sizes == [] {
      assert Blank(Ascii("\n")) by {
        NewlineIsBlank();
      }
      OneToken(Ascii("\n"), Ascii("]"));
    } else {
      var comma := if |sizes| == 1 then [] else [Spaced([], Ascii(","))];
      var rest, items := SchemaLines(sizes[1..]), Encode(FreeMemory(sizes)).items;
      LinesTokens(lib, sizes[0]);
      SchemaTokens(lib, sizes[1..]);
      assert items[1..] == Encode(FreeMemory(sizes[1..])).items;
      assert items[0] == EncodePartition(Partition(sizes[0], sizes[0], []));
      assert TokensIn(comma) == CommaToken(|sizes| == 1) && WellSpaced(comma) by {
        CommaSpaced(|sizes| == 1);
      }
      AppendTokens(comma, rest);
      AppendTokens(PartitionLines(sizes[0]), comma + rest);
    }
  }

  lemma NewlineIsBlank()
    ensures Blank(Ascii("\n"))
  {
  }

  lemma CommaSpaced(last: bool)
    ensures var comma := if last then [] else [Spaced([], Ascii(","))];
      TokensIn(comma) == CommaToken(last) && WellSpaced(comma)
  {
    OneByteTokens();
    assert Blank([]);
    if !last {
      OneToken([], Ascii(","));
    }
  }

  lemma {:induction false} SpacedNulFree(ps: seq<Spaced>)
    requires WellSpaced(ps) && forall i :: 0 <= i < |ps| ==> NulFree(ps[i].token)
    ensures NulFree(TextOf(ps))
    decreases |ps|
  {
    if ps == [] {
    } else {
      assert Blank(ps[0].gap);
      SpacedNulFree(ps[1..]);
      NulFreeAppend(ps[0].token, TextOf(ps[1..]));
      NulFreeAppend(ps[0].gap, ps[0].token + TextOf(ps[1..]));
    }
  }

  lemma FreeMemoryIsStorable(sizes: seq<nat>)
    requires |sizes| <= ARRAY_MAX_CAPACITY && forall i :: 0 <= i < |sizes| ==> Int32(sizes[i])
    ensures Encodable(FreeMemory(sizes)) && Storable(FreeMemory(sizes))
  {
  }

  lemma FileTokens(lib: Lib, sizes: seq<nat>)
    requires lib.Valid() && |sizes| <= ARRAY_MAX_CAPACITY && forall i :: 0 <= i < |sizes| ==> Int32(sizes[i])
    ensures var ps, v := [Spaced([], Ascii("["))] + SchemaLines(sizes), Encode(FreeMemory(sizes));
      && WellSpaced(ps) && TokensIn(ps) == TokensOf(lib, v)
      && (forall i :: 0 <= i < |ps| ==> NulFree(ps[i].token))
      && WellFormed(v) && Height(v) <= 4 && Reread(lib, v) == v
  {
    hide Lib.Valid, SchemaLines, Ascii, ItemTokens, EncodePartition, Encodable, WellSpaced, TokensIn;
    var m := FreeMemory(sizes);
    var ps, v := [Spaced([], Ascii("["))] + SchemaLines(sizes), Encode(m);
    FreeMemoryIsStorable(sizes);
    SchemaTokens(lib, sizes);
    OneByteTokens();
    OneToken([], Ascii("["));
    AppendTokens([Spaced([], Ascii("["))], SchemaLines(sizes));
    MemoryIsTextual(m);
    EncodeIsTrimmed(m);
    RereadIntegers(lib, v);
    CommentGaps.TokensArePlain(lib, v);
    PlainTokens(lib, v, ps);
  }

  lemma PlainTokens(lib: Lib, v: Value, ps: seq<Spaced>)
    requires TokensIn(ps) == TokensOf(lib, v) && forall t :: t in TokensOf(lib, v) ==> CommentGaps.PlainWord(t)
    ensures forall i :: 0 <= i < |ps| ==> NulFree(ps[i].token)
  {
    hide TokensOf;
    forall i | 0 <= i < |ps|
      ensures NulFree(ps[i].token)
    {
      assert TokensIn(ps)[i] in TokensOf(lib, v);
    }
  }

  /** A file of free partitions is parsed to the memory value of those partitions, to its last byte. */
  lemma FileIsParsed(lib: Lib, sizes: seq<nat>)
    requires lib.Valid() && |sizes| <= ARRAY_MAX_CAPACITY && forall i :: 0 <= i < |sizes| ==> Int32(sizes[i])
    ensures NulFree(FileText(sizes))
    ensures ParseText(lib, AsBuffer(FileText(sizes))) == Ok(Encode(FreeMemory(sizes)), |FileText(sizes)|)
  {
    hide Lib.Valid, ParseText, TextOf, SchemaLines, Encode, Ascii, TokensIn, WellSpaced, TokensOf, ReadTokens;
    var ps, t := [Spaced([], Ascii("["))] + SchemaLines(sizes), FileText(sizes);
    FileTokens(lib, sizes);
    SpacedNulFree(ps);
    SpacedReads(AsBuffer(t), 0, ps);
    SpacedTextRoundTrip(lib, AsBuffer(t), Encode(FreeMemory(sizes)), |t|);
  }

  /** So schema.json is parsed to the memory of seven free partitions, and init_memory stores the text of that
      memory. */
  lemma SchemaFileIsSchema(lib: Lib)
    requires lib.Valid()
    ensures NulFree(FileText(SCHEMA_SIZES)) && Encodable(SCHEMA)
    ensures ParseText(lib, AsBuffer(FileText(SCHEMA_SIZES))) == Ok(Encode(SCHEMA), |FileText(SCHEMA_SIZES)|)
    ensures Print(lib, Encode(SCHEMA), 0, false) == MemoryJson(SCHEMA)
  {
    hide Lib.Valid, ParseText, FileText, Encode, Encodable, MemoryJson, Print;
    SchemaMemory();
    FreeMemoryIsStorable(SCHEMA_SIZES);
    FileIsParsed(lib, SCHEMA_SIZES);
    TextIsJson(lib, SCHEMA);
  }

  lemma SchemaMemory()
    ensures SCHEMA == FreeMemory(SCHEMA_SIZES)
    ensures |SCHEMA_SIZES| <= ARRAY_MAX_CAPACITY && forall i :: 0 <= i < |SCHEMA_SIZES| ==> Int32(SCHEMA_SIZES[i])
  {
  }
}
