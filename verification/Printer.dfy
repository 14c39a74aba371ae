/** The serializer: the text it produces, and the two runs (dry and real) that produce it. */
module Printer {
  import opened CText
  import opened Numbers
  import opened Values
  import opened StringCodec

  const TRUE_TEXT: Bytes := [116, 114, 117, 101]
  const FALSE_TEXT: Bytes := [102, 97, 108, 115, 101]
  const NULL_TEXT: Bytes := [110, 117, 108, 108]

  // ---- The text ----

  function NumberText(lib: Lib, x: real): Bytes {
    if Integral(x) && Printable(x.Floor) then Decimal(x.Floor) else lib.formatF(x)
  }

  function Indent(level: nat): (t: Bytes)
    ensures |t| == 4 * level && forall i :: 0 <= i < |t| ==> t[i] == SPACE
  {
    if level == 0 then [] else [SPACE, SPACE, SPACE, SPACE] + Indent(level - 1)
  }

  function IfPretty(pretty: bool, t: Bytes): Bytes {
    if pretty then t else []
  }

  /** What follows an element: a comma unless it is the last one, then the line break. */
  function AfterElement(last: bool, pretty: bool): Bytes {
    (if last then [] else [COMMA]) + IfPretty(pretty, [NEWLINE])
  }

  function Print(lib: Lib, v: Value, level: nat, pretty: bool): Bytes
    decreases v, 1
  {
    match v
    case Null => NULL_TEXT
    case Bool(b) => if b then TRUE_TEXT else FALSE_TEXT
    case Num(x) => NumberText(lib, x)
    case Str(s) => Quoted(s)
    case Arr(items, _) =>
      if items == [] then [LBRACKET, RBRACKET]
      else [LBRACKET] + IfPretty(pretty, [NEWLINE]) + PrintItems(lib, items, level, pretty)
    case Obj(ms, _) =>
      if ms == [] then [LBRACE, RBRACE]
      else [LBRACE] + IfPretty(pretty, [NEWLINE]) + PrintMembers(lib, ms, level, pretty)
  }

  /** One item of an array at `level`. */
  function PrintItem(lib: Lib, item: Value, last: bool, level: nat, pretty: bool): Bytes
    decreases item, 2
  {
    IfPretty(pretty, Indent(level + 1)) + Print(lib, item, level + 1, pretty) + AfterElement(last, pretty)
  }

  /** The remaining items of an array at `level`, with the closing bracket. */
  function PrintItems(lib: Lib, items: seq<Value>, level: nat, pretty: bool): Bytes
    decreases items, 0
  {
    if items == [] then IfPretty(pretty, Indent(level)) + [RBRACKET]
    else PrintItem(lib, items[0], |items| == 1, level, pretty) + PrintItems(lib, items[1..], level, pretty)
  }

  function PrintName(name: Bytes, pretty: bool): Bytes {
    Quoted(name) + ([COLON] + IfPretty(pretty, [SPACE]))
  }

  /** One member of an object at `level`. */
  function PrintMember(lib: Lib, m: Member<Value>, last: bool, level: nat, pretty: bool): Bytes
    decreases m, 2
  {
    IfPretty(pretty, Indent(level + 1)) + PrintName(m.name, pretty)
    + (Print(lib, m.value, level + 1, pretty) + AfterElement(last, pretty))
  }

  /** The remaining members of an object at `level`, with the closing brace. */
  function PrintMembers(lib: Lib, ms: seq<Member<Value>>, level: nat, pretty: bool): Bytes
    decreases ms, 0
  {
    if ms == [] then IfPretty(pretty, Indent(level)) + [RBRACE]
    else PrintMember(lib, ms[0], |ms| == 1, level, pretty) + PrintMembers(lib, ms[1..], level, pretty)
  }

  // ---- The buffer ----

  /** `after` is `before` with `text` at `start`; the byte right after it is free to hold a terminator. */
  ghost predicate Wrote(before: Bytes, after: Bytes, start: nat, text: Bytes) {
    && start + |text| < |before| == |after|
    && after[..start] == before[..start]
    && after[start..start + |text|] == text
    && after[start + |text| + 1..] == before[start + |text| + 1..]
  }

  /** The output of a run: the buffer, or none in the dry run, and the next position. */
  class Sink {
    const buffer: array?<byte>
    const start: nat
    var pos: nat
    ghost const before: Bytes
    ghost var text: Bytes

    ghost predicate Valid()
      reads this, buffer
    {
      && pos == start + |text|
      && (buffer != null ==> Wrote(before, buffer[..], start, text))
    }

    ghost predicate HasRoomFor(n: nat)
      reads this
    {
      buffer != null ==> pos + n < buffer.Length
    }

    ghost predicate Terminated()
      reads this, buffer
    {
      buffer != null ==> pos < buffer.Length && buffer[pos] == 0
    }

    constructor (buffer: array?<byte>, start: nat)
      requires buffer != null ==> start < buffer.Length
      ensures Valid() && this.buffer == buffer && this.start == start && text == []
      ensures buffer != null ==> before == buffer[..]
    {
      this.buffer, this.start, pos, text := buffer, start, start, [];
      before := if buffer == null then [] else buffer[..];
    }

    /** append_string: `sprintf("%s")` writes the text and a terminator; the dry run only counts. */
    method Append(t: Bytes)
      requires Valid() && HasRoomFor(|t|)
      modifies this, buffer
      ensures Valid() && Terminated()
      ensures text == old(text) + t
    {
      hide Wrote;
      if buffer != null {
        ghost var was := buffer[..];
        forall i | 0 <= i < |t| {
          buffer[pos + i] := t[i];
        }
        buffer[pos + |t|] := 0;
        assert buffer[..] == was[..pos] + t + [0] + was[pos + |t| + 1..];
        WroteMore(before, was, buffer[..], start, text, t, 0);
      }
      pos := pos + |t|;
      text := text + t;
    }

    /** One byte stored without a terminator. */
    method Put(c: byte)
      requires Valid() && HasRoomFor(1)
      modifies this, buffer
      ensures Valid() && text == old(text) + [c]
    {
      hide Wrote;
      if buffer != null {
        ghost var was := buffer[..];
        buffer[pos] := c;
        assert buffer[..] == was[..pos] + [c] + [was[pos + 1]] + was[pos + 2..];
        WroteMore(before, was, buffer[..], start, text, [c], was[pos + 1]);
      }
      pos := pos + 1;
      text := text + [c];
    }
  }

  lemma WroteMore(before: Bytes, was: Bytes, now: Bytes, start: nat, text: Bytes, t: Bytes, z: byte)
    requires Wrote(before, was, start, text) && start + |text| + |t| < |was|
    requires now == was[..start + |text|] + t + [z] + was[start + |text| + |t| + 1..]
    ensures Wrote(before, now, start, text + t)
  {
  }

  // ---- The runs ----

  /** append_indent */
  method AppendIndent(sink: Sink, level: nat)
    requires sink.Valid() && sink.HasRoomFor(4 * level)
    modifies sink, sink.buffer
    ensures sink.Valid() && sink.text == old(sink.text) + Indent(level)
  {
    var i := 0;
    ghost var done := [];
    while i < level
      invariant 0 <= i <= level && |done| == 4 * i
      invariant sink.Valid() && sink.HasRoomFor(4 * (level - i))
      invariant sink.text == old(sink.text) + done && done + Indent(level - i) == Indent(level)
    {
      sink.Append([SPACE, SPACE, SPACE, SPACE]);
      AppendAssociates(done, [SPACE, SPACE, SPACE, SPACE], Indent(level - i - 1));
      AppendAssociates(old(sink.text), done, [SPACE, SPACE, SPACE, SPACE]);
      done := done + [SPACE, SPACE, SPACE, SPACE];
      i := i + 1;
    }
  }

  predicate IsEscaped(c: byte) {
    c == QUOTE || c == BACKSLASH || c == SLASH || c < 0x20
  }

  lemma EscapeMore(t: Bytes, i: nat)
    requires i < |t|
    ensures Escape(t[..i + 1]) == Escape(t[..i]) + EscapeByte(t[i])
  {
    EscapeAppend(t[..i], [t[i]]);
    assert t[..i + 1] == t[..i] + [t[i]];
    assert Escape([t[i]]) == EscapeByte(t[i]) + Escape([]);
  }

  lemma {:induction false} EscapeAppend(a: Bytes, b: Bytes)
    ensures Escape(a + b) == Escape(a) + Escape(b)
  {
    hide EscapeByte;
    if a == [] {
      assert a + b == b;
    } else {
      assert (a + b)[1..] == a[1..] + b;
      EscapeAppend(a[1..], b);
      AppendAssociates(EscapeByte(a[0]), Escape(a[1..]), Escape(b));
    }
  }

  lemma EscapeSplit(t: Bytes, i: nat)
    requires i <= |t|
    ensures |Escape(t)| == |Escape(t[..i])| + |Escape(t[i..])|
  {
    assert t == t[..i] + t[i..];
    EscapeAppend(t[..i], t[i..]);
  }

  /** json_serialize_string */
  method SerializeString(t: Bytes, sink: Sink)
    requires sink.Valid() && sink.HasRoomFor(|Quoted(t)|)
    modifies sink, sink.buffer
    ensures sink.Valid() && sink.Terminated() && sink.text == old(sink.text) + Quoted(t)
  {
    hide EscapeByte;
    ghost var done := [QUOTE];
    sink.Append([QUOTE]);
    var i := 0;
    assert t[..0] == [];
    while i < |t|
      invariant 0 <= i <= |t| && done == [QUOTE] + Escape(t[..i])
      invariant sink.Valid() && sink.text == old(sink.text) + done
      invariant sink.buffer != null ==> sink.start + |old(sink.text)| + |Quoted(t)| < sink.buffer.Length
    {
      EscapeSplit(t, i + 1);
      EscapeMore(t, i);
      AppendAssociates([QUOTE], Escape(t[..i]), EscapeByte(t[i]));
      AppendAssociates(old(sink.text), done, EscapeByte(t[i]));
      EscapedOrPlain(t[i]);
      if IsEscaped(t[i]) {
        sink.Append(EscapeByte(t[i]));
      } else {
        sink.Put(t[i]);
      }
      done := done + EscapeByte(t[i]);
      i := i + 1;
    }
    assert t[..i] == t;
    AppendAssociates(old(sink.text), done, [QUOTE]);
    sink.Append([QUOTE]);
  }

  lemma EscapedOrPlain(c: byte)
    ensures !IsEscaped(c) ==> EscapeByte(c) == [c]
  {
  }

  /** A number, terminated, fits the scratch buffer of the dry run. */
  lemma NumberFitsScratch(lib: Lib, x: real)
    requires lib.Valid()
    ensures 0 < |NumberText(lib, x)| < 1100
  {
    if Integral(x) && Printable(x.Floor) {
      PrintableLength(x.Floor);
    }
  }

  method AppendIfPretty(sink: Sink, pretty: bool, t: Bytes)
    requires sink.Valid() && sink.HasRoomFor(|IfPretty(pretty, t)|)
    modifies sink, sink.buffer
    ensures sink.Valid() && sink.text == old(sink.text) + IfPretty(pretty, t)
  {
    if pretty {
      sink.Append(t);
    }
  }

  method AppendIndentIfPretty(sink: Sink, pretty: bool, level: nat)
    requires sink.Valid() && sink.HasRoomFor(|IfPretty(pretty, Indent(level))|)
    modifies sink, sink.buffer
    ensures sink.Valid() && sink.text == old(sink.text) + IfPretty(pretty, Indent(level))
  {
    if pretty {
      AppendIndent(sink, level);
    }
  }

  method AppendAfterElement(sink: Sink, last: bool, pretty: bool)
    requires sink.Valid() && sink.HasRoomFor(|AfterElement(last, pretty)|)
    modifies sink, sink.buffer
    ensures sink.Valid() && sink.text == old(sink.text) + AfterElement(last, pretty)
  {
    if !last {
      sink.Append([COMMA]);
    }
    AppendIfPretty(sink, pretty, [NEWLINE]);
    assert last ==> old(sink.text) + [] == old(sink.text);
    AppendAssociates(old(sink.text), if last then [] else [COMMA], IfPretty(pretty, [NEWLINE]));
  }

  /** json_serialize_to_buffer_r */
  method SerializeValue(lib: Lib, v: Value, sink: Sink, level: nat, pretty: bool)
    requires lib.Valid() && WellFormed(v)
    requires sink.Valid() && sink.HasRoomFor(|Print(lib, v, level, pretty)|)
    modifies sink, sink.buffer
    ensures sink.Valid() && sink.Terminated() && sink.text == old(sink.text) + Print(lib, v, level, pretty)
    decreases v, 1
  {
    match v
    case Null => sink.Append(NULL_TEXT);
    case Bool(b) =>
      if b {
        sink.Append(TRUE_TEXT);
      } else {
        sink.Append(FALSE_TEXT);
      }
    case Num(x) =>
      NumberFitsScratch(lib, x);
      sink.Append(NumberText(lib, x));
    case Str(t) => SerializeString(t, sink);
    case Arr(items, _) => SerializeArray(lib, items, sink, level, pretty);
    case Obj(ms, _) => SerializeObject(lib, ms, sink, level, pretty);
  }

  method SerializeArray(lib: Lib, items: seq<Value>, sink: Sink, level: nat, pretty: bool)
    requires lib.Valid() && forall i :: 0 <= i < |items| ==> WellFormed(items[i])
    requires sink.Valid() && sink.HasRoomFor(|Print(lib, Arr(items, 0), level, pretty)|)
    modifies sink, sink.buffer
    ensures sink.Valid() && sink.Terminated() && sink.text == old(sink.text) + Print(lib, Arr(items, 0), level, pretty)
    decreases items, 2
  {
    hide PrintItem, Indent, Wrote, Lib.Valid;
    ghost var was := sink.text;
    sink.Append([LBRACKET]);
    if |items| == 0 {
      sink.Append([RBRACKET]);
      AppendAssociates(was, [LBRACKET], [RBRACKET]);
      return;
    }
    AppendIfPretty(sink, pretty, [NEWLINE]);
    ghost var head := [LBRACKET] + IfPretty(pretty, [NEWLINE]);
    AppendAssociates(was, [LBRACKET], IfPretty(pretty, [NEWLINE]));
    assert sink.text == was + head;
    ghost var done := head;
    ghost var all := Print(lib, Arr(items, 0), level, pretty);
    var i := 0;
    assert items[0..] == items;
    while i < |items|
      invariant 0 <= i <= |items|
      invariant sink.Valid() && sink.text == was + done
      invariant done + PrintItems(lib, items[i..], level, pretty) == all
      invariant sink.HasRoomFor(|PrintItems(lib, items[i..], level, pretty)|)
    {
      ghost var piece := PrintItem(lib, items[i], i == |items| - 1, level, pretty);
      ghost var rest := PrintItems(lib, items[i + 1..], level, pretty);
      assert items[i..][1..] == items[i + 1..];
      assert PrintItems(lib, items[i..], level, pretty) == piece + rest;
      SerializeItem(lib, items[i], i == |items| - 1, sink, level, pretty);
      AppendAssociates(done, piece, rest);
      AppendAssociates(was, done, piece);
      done := done + piece;
      i := i + 1;
    }
    AppendIndentIfPretty(sink, pretty, level);
    sink.Append([RBRACKET]);
    AppendAssociates(was + done, IfPretty(pretty, Indent(level)), [RBRACKET]);
    AppendAssociates(was, done, IfPretty(pretty, Indent(level)) + [RBRACKET]);
  }

  method SerializeItem(lib: Lib, item: Value, last: bool, sink: Sink, level: nat, pretty: bool)
    requires lib.Valid() && WellFormed(item)
    requires sink.Valid() && sink.HasRoomFor(|PrintItem(lib, item, last, level, pretty)|)
    modifies sink, sink.buffer
    ensures sink.Valid() && sink.text == old(sink.text) + PrintItem(lib, item, last, level, pretty)
    decreases item, 2
  {
    ghost var was := sink.text;
    ghost var indent := IfPretty(pretty, Indent(level + 1));
    ghost var body := Print(lib, item, level + 1, pretty);
    AppendIndentIfPretty(sink, pretty, level + 1);
    SerializeValue(lib, item, sink, level + 1, pretty);
    AppendAfterElement(sink, last, pretty);
    AppendAssociates(was, indent, body);
    AppendAssociates(was, indent + body, AfterElement(last, pretty));
  }

  method SerializeObject(lib: Lib, ms: seq<Member<Value>>, sink: Sink, level: nat, pretty: bool)
    requires lib.Valid() && UniqueNames(ms) && forall i :: 0 <= i < |ms| ==> WellFormed(ms[i].value)
    requires sink.Valid() && sink.HasRoomFor(|Print(lib, Obj(ms, 0), level, pretty)|)
    modifies sink, sink.buffer
    ensures sink.Valid() && sink.Terminated() && sink.text == old(sink.text) + Print(lib, Obj(ms, 0), level, pretty)
    decreases ms, 2
  {
    hide PrintMember, Indent, Wrote, Lib.Valid;
    ghost var was := sink.text;
    sink.Append([LBRACE]);
    if |ms| == 0 {
      sink.Append([RBRACE]);
      AppendAssociates(was, [LBRACE], [RBRACE]);
      return;
    }
    AppendIfPretty(sink, pretty, [NEWLINE]);
    ghost var head := [LBRACE] + IfPretty(pretty, [NEWLINE]);
    AppendAssociates(was, [LBRACE], IfPretty(pretty, [NEWLINE]));
    assert sink.text == was + head;
    ghost var done, all := head, Print(lib, Obj(ms, 0), level, pretty);
    var i := 0;
    assert ms[0..] == ms;
    while i < |ms|
      invariant 0 <= i <= |ms|
      invariant sink.Valid() && sink.text == was + done
      invariant done + PrintMembers(lib, ms[i..], level, pretty) == all
      invariant sink.HasRoomFor(|PrintMembers(lib, ms[i..], level, pretty)|)
    {
      ghost var piece := PrintMember(lib, ms[i], i == |ms| - 1, level, pretty);
      ghost var rest := PrintMembers(lib, ms[i + 1..], level, pretty);
      assert ms[i..][1..] == ms[i + 1..];
      assert PrintMembers(lib, ms[i..], level, pretty) == piece + rest;
      LookupUnique(ms, i);
      var name := ms[i].name;
      var value := Lookup(ms, name).value;
      SerializeMember(lib, Member(name, value), i == |ms| - 1, sink, level, pretty);
      AppendAssociates(done, piece, rest);
      AppendAssociates(was, done, piece);
      done := done + piece;
      i := i + 1;
    }
    AppendIndentIfPretty(sink, pretty, level);
    sink.Append([RBRACE]);
    AppendAssociates(was + done, IfPretty(pretty, Indent(level)), [RBRACE]);
    AppendAssociates(was, done, IfPretty(pretty, Indent(level)) + [RBRACE]);
  }

  method SerializeMember(lib: Lib, m: Member<Value>, last: bool, sink: Sink, level: nat, pretty: bool)
    requires lib.Valid() && WellFormed(m.value)
    requires sink.Valid() && sink.HasRoomFor(|PrintMember(lib, m, last, level, pretty)|)
    modifies sink, sink.buffer
    ensures sink.Valid() && sink.text == old(sink.text) + PrintMember(lib, m, last, level, pretty)
    decreases m, 2
  {
    ghost var was := sink.text;
    ghost var indent := IfPretty(pretty, Indent(level + 1));
    ghost var body := Print(lib, m.value, level + 1, pretty);
    AppendIndentIfPretty(sink, pretty, level + 1);
    SerializeName(m.name, sink, pretty);
    AppendAssociates(was, indent, PrintName(m.name, pretty));
    SerializeValue(lib, m.value, sink, level + 1, pretty);
    AppendAfterElement(sink, last, pretty);
    AppendAssociates(was + (indent + PrintName(m.name, pretty)), body, AfterElement(last, pretty));
    AppendAssociates(was, indent + PrintName(m.name, pretty), body + AfterElement(last, pretty));
  }

  method SerializeName(name: Bytes, sink: Sink, pretty: bool)
    requires sink.Valid() && sink.HasRoomFor(|PrintName(name, pretty)|)
    modifies sink, sink.buffer
    ensures sink.Valid() && sink.text == old(sink.text) + PrintName(name, pretty)
  {
    ghost var was := sink.text;
    SerializeString(name, sink);
    sink.Append([COLON]);
    AppendIfPretty(sink, pretty, [SPACE]);
    AppendAssociates(was + Quoted(name), [COLON], IfPretty(pretty, [SPACE]));
    AppendAssociates(was, Quoted(name), [COLON] + IfPretty(pretty, [SPACE]));
  }

  /** json_serialization_size and json_serialization_size_pretty: the dry run, and a byte for the terminator. */
  method SerializationSize(lib: Lib, v: Value, pretty: bool) returns (size: nat)
    requires lib.Valid() && WellFormed(v)
    ensures size == |Print(lib, v, 0, pretty)| + 1
  {
    var sink := new Sink(null, 0);
    SerializeValue(lib, v, sink, 0, pretty);
    size := sink.pos + 1;
  }

  /** json_serialize_to_buffer and its pretty form. */
  method SerializeToBuffer(lib: Lib, v: Value, buffer: array<byte>, pretty: bool) returns (ok: bool)
    requires lib.Valid() && WellFormed(v)
    modifies buffer
    ensures ok <==> |Print(lib, v, 0, pretty)| < buffer.Length
    ensures ok ==> buffer[..] == Print(lib, v, 0, pretty) + [0] + old(buffer[..])[|Print(lib, v, 0, pretty)| + 1..]
    ensures !ok ==> buffer[..] == old(buffer[..])
  {
    hide Print, Lib.Valid, WellFormed;
    var needed := SerializationSize(lib, v, pretty);
    if buffer.Length < needed {
      return false;
    }
    var sink := new Sink(buffer, 0);
    SerializeValue(lib, v, sink, 0, pretty);
    ghost var t := Print(lib, v, 0, pretty);
    assert sink.text == t;
    assert buffer[..] == buffer[0..|t|] + [buffer[|t|]] + buffer[|t| + 1..];
    return true;
  }

  /** json_serialize_to_string and its pretty form: the allocation is filled exactly, terminator included. */
  method SerializeToString(lib: Lib, v: Value, pretty: bool) returns (buffer: array<byte>)
    requires lib.Valid() && WellFormed(v)
    ensures fresh(buffer) && buffer[..] == Print(lib, v, 0, pretty) + [0]
  {
    var size := SerializationSize(lib, v, pretty);
    buffer := new byte[size](_ => 0);
    var ok := SerializeToBuffer(lib, v, buffer, pretty);
  }
}
