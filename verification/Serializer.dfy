/**
 * The serializer's one routine in its two passes: with no buffer it only counts, with a buffer it
 * writes. Both passes follow the same text, so the first pass sizes the second exactly.
 */
module Serializer {
  import opened Bytes
  import opened Json
  import opened Literals
  import opened Printer
  import opened Memory
  import opened Heap
  import opened Objects
  import opened Equality
  import P = Parser
  import N = Numbers
  import D = Doubles

  /** `b` is `o` with `text` written at `off`; besides, only the byte behind the text may have changed. */
  predicate Written(o: Bytes, b: Bytes, off: nat, text: Bytes) {
    && |b| == |o| && off + |text| < |o| && Has(b, off, text)
    && forall k | 0 <= k < |o| && (k < off || k > off + |text|) :: b[k] == o[k]
  }

  lemma WriteOn(o: Bytes, b: Bytes, c: Bytes, off: nat, t: Bytes, u: Bytes)
    requires Written(o, b, off, t) && Written(b, c, off + |t|, u)
    ensures Written(o, c, off, t + u)
  {
    forall k | 0 <= k < |t| ensures c[off + k] == t[k] {
      assert b[off + k] == t[k];
    }
    HasConcat(c, off, t, u);
  }

  /** `append_string`: the length of `text`, written with a NUL behind it if there is a buffer. */
  method AppendString(buf: array?<byte>, off: nat, text: Bytes) returns (written: nat)
    requires buf != null ==> off + |text| < buf.Length
    modifies buf
    ensures written == |text|
    ensures buf != null ==> Written(old(buf[..]), buf[..], off, text) && buf[off + |text|] == NUL
  {
    if buf == null {
      return |text|;
    }
    var k := 0;
    while k < |text|
      invariant 0 <= k <= |text|
      invariant forall j | 0 <= j < k :: buf[off + j] == text[j]
      invariant forall j | 0 <= j < buf.Length && (j < off || j >= off + k) :: buf[j] == old(buf[j])
    {
      buf[off + k] := text[k];
      k := k + 1;
    }
    buf[off + |text|] := NUL;
    return |text|;
  }

  /** What has been written into a buffer so far, as the text `t` of the whole output. */
  ghost predicate Progress(buf: array?<byte>, o: Bytes, off: nat, pos: nat, t: Bytes, rest: Bytes, whole: Bytes)
    reads buf
  {
    && t + rest == whole
    && (buf != null ==> off + |whole| < buf.Length == |o| && pos == off + |t| && Written(o, buf[..], off, t))
  }

  /** One use of `APPEND_STRING`: the cursor moves and the total grows by what was written. */
  method Append(buf: array?<byte>, ghost o: Bytes, ghost off: nat, pos: nat, total: nat,
                ghost t: Bytes, text: Bytes, ghost rest: Bytes, ghost whole: Bytes)
      returns (pos': nat, total': nat, ghost t': Bytes)
    requires Progress(buf, o, off, pos, t, text + rest, whole) && total == |t|
    modifies buf
    ensures t' == t + text && total' == |t'| && Progress(buf, o, off, pos', t', rest, whole)
    ensures buf != null ==> buf[pos'] == NUL
  {
    t' := t + text;
    assert t' + rest == t + (text + rest);
    ghost var before := if buf == null then [] else buf[..];
    var written := AppendString(buf, pos, text);
    pos' := if buf == null then pos else pos + written;
    total' := total + written;
    if buf != null {
      WriteOn(o, before, buf[..], off, t, text);
    }
  }

  lemma StartWriting(buf: array?<byte>, off: nat, whole: Bytes)
    requires buf != null ==> off + |whole| < buf.Length
    ensures Progress(buf, if buf == null then [] else buf[..], off, off, [], whole, whole)
  {
    assert [] + whole == whole;
  }

  /** `append_indent`. */
  method AppendIndent(buf: array?<byte>, off: nat, level: nat) returns (written: nat)
    requires buf != null ==> off + |Indent(true, level)| < buf.Length
    modifies buf
    ensures written == |Indent(true, level)|
    ensures buf != null ==> Written(old(buf[..]), buf[..], off, Indent(true, level))
  {
    ghost var o := if buf == null then [] else buf[..];
    ghost var t: Bytes := [];
    var pos := off;
    written := 0;
    var i := 0;
    while i < level
      invariant 0 <= i <= level && t == Indent(true, i) && written == |t|
      invariant buf != null ==> pos == off + |t| && |o| == buf.Length && Written(o, buf[..], off, t)
    {
      IndentGrows(i + 1, level);
      ghost var before := if buf == null then [] else buf[..];
      var n := AppendString(buf, pos, [SPACE, SPACE, SPACE, SPACE]);
      if buf != null {
        WriteOn(o, before, buf[..], off, t, [SPACE, SPACE, SPACE, SPACE]);
        pos := pos + n;
      }
      written := written + n;
      t := t + [SPACE, SPACE, SPACE, SPACE];
      i := i + 1;
    }
  }

  lemma {:induction false} IndentGrows(i: nat, n: nat)
    requires i <= n
    ensures |Indent(true, i)| <= |Indent(true, n)|
    decreases n
  {
    if i < n {
      IndentGrows(i, n - 1);
    }
  }

  /** One use of `APPEND_INDENT`, only made when `pretty`. */
  method AppendIndentIf(pretty: bool, buf: array?<byte>, ghost o: Bytes, ghost off: nat, pos: nat, total: nat,
                        ghost t: Bytes, level: nat, ghost rest: Bytes, ghost whole: Bytes)
      returns (pos': nat, total': nat, ghost t': Bytes)
    requires Progress(buf, o, off, pos, t, Indent(pretty, level) + rest, whole) && total == |t|
    modifies buf
    ensures t' == t + Indent(pretty, level) && total' == |t'| && Progress(buf, o, off, pos', t', rest, whole)
  {
    t' := t + Indent(pretty, level);
    assert t' + rest == t + (Indent(pretty, level) + rest);
    pos', total' := pos, total;
    if pretty {
      ghost var before := if buf == null then [] else buf[..];
      var written := AppendIndent(buf, pos, level);
      pos' := if buf == null then pos else pos + written;
      total' := total + written;
      if buf != null {
        WriteOn(o, before, buf[..], off, t, Indent(pretty, level));
      }
    }
  }

  /** `json_serialize_string`: ordinary characters are stored without a NUL behind them. */
  method SerializeString(text: Bytes, buf: array?<byte>, off: nat) returns (written: nat)
    requires buf != null ==> off + |PrintString(text)| < buf.Length
    modifies buf
    ensures written == |PrintString(text)|
    ensures buf != null ==>
              Written(old(buf[..]), buf[..], off, PrintString(text)) && buf[off + |PrintString(text)|] == NUL
  {
    hide PrintByte, Written;
    ghost var whole := PrintString(text);
    ghost var o := if buf == null then [] else buf[..];
    StartWriting(buf, off, whole);
    assert text[0..] == text;
    var pos, total, t := Append(buf, o, off, off, 0, [], [QUOTE], PrintBytes(text) + [QUOTE], whole);
    var i := 0;
    while i < |text|
      invariant 0 <= i <= |text| && total == |t|
      invariant Progress(buf, o, off, pos, t, PrintBytes(text[i..]) + [QUOTE], whole)
    {
      var c := text[i];
      ghost var rest := PrintBytes(text[i + 1..]) + [QUOTE];
      assert text[i..][1..] == text[i + 1..];
      Regroup3(PrintByte(c), PrintBytes(text[i + 1..]), [QUOTE]);
      if PrintByte(c) == [c] {
        pos, total, t := StoreByte(buf, o, off, pos, total, t, c, rest, whole);
      } else {
        pos, total, t := Append(buf, o, off, pos, total, t, PrintByte(c), rest, whole);
      }
      i := i + 1;
    }
    assert PrintBytes(text[i..]) + [QUOTE] == [QUOTE] + [];
    pos, total, t := Append(buf, o, off, pos, total, t, [QUOTE], [], whole);
    assert t + [] == t;
    return total;
  }

  lemma Regroup3(a: Bytes, b: Bytes, c: Bytes)
    ensures (a + b) + c == a + (b + c)
  {
  }

  /** The `default` branch: one byte and no NUL. */
  method StoreByte(buf: array?<byte>, ghost o: Bytes, ghost off: nat, pos: nat, total: nat,
                   ghost t: Bytes, c: byte, ghost rest: Bytes, ghost whole: Bytes)
      returns (pos': nat, total': nat, ghost t': Bytes)
    requires Progress(buf, o, off, pos, t, [c] + rest, whole) && total == |t| && rest != []
    modifies buf
    ensures t' == t + [c] && total' == |t'| && Progress(buf, o, off, pos', t', rest, whole)
  {
    t' := t + [c];
    assert t' + rest == t + ([c] + rest);
    pos', total' := pos, total + 1;
    if buf != null {
      ghost var before := buf[..];
      buf[pos] := c;
      pos' := pos + 1;
      WriteOn(o, before, buf[..], off, t, [c]);
    }
  }

  const NUM_BUF_SIZE: nat := 64

  /**
   * A valid value that stands for `tree` and does not lie in the buffers; without a buffer for the text there is
   * one for a number.
   */
  ghost predicate Legible(v: Value, tree: Json, buf: array?<byte>, num: array?<byte>)
    reads v, v.repr
  {
    && v.Valid() && v.tree == tree && IntegerNumbers(tree)
    && (buf == null || buf !in v.repr) && (num == null || num !in v.repr)
    && (buf == null ==> num != null && num.Length == NUM_BUF_SIZE)
  }

  /** A printed number fits into the buffer for one, with its NUL. */
  lemma NumberFits(n: int)
    requires -D.TWO_53 <= n <= D.TWO_53
    ensures |N.IntText(n)| <= 17 < NUM_BUF_SIZE == 64
  {
    assert Ten(4) == 10_000 && Ten(8) == 100_000_000;
    assert Ten(12) == 1_000_000_000_000 && Ten(16) == 10_000_000_000_000_000;
    NatTextLength(if n < 0 then -n else n, 16);
  }

  lemma {:induction false} NatTextLength(n: nat, k: nat)
    requires n < Ten(k) && k > 0
    ensures |N.NatText(n)| <= k
  {
    if n >= 10 {
      NatTextLength(n / 10, k - 1);
    }
  }

  function Ten(k: nat): nat {
    if k == 0 then 1 else 10 * Ten(k - 1)
  }

  /**
   * `json_serialize_to_buffer_r`. Members are visited by index and their values fetched by name, as in
   * the C code. Whatever the mode, the count is the length of the text, with or without a buffer; with
   * one, exactly that text stands at `off` with a NUL behind it and nothing else has changed.
   */
  method SerializeRec(v: Value, ghost tree: Json, buf: array?<byte>, num: array?<byte>, off: nat, level: nat,
                      pretty: bool)
      returns (written: nat)
    requires Legible(v, tree, buf, num)
    requires buf != null ==> off + |Print(tree, level, pretty)| < buf.Length
    modifies buf, num
    ensures written == |Print(tree, level, pretty)|
    ensures buf != null ==>
              && Written(old(buf[..]), buf[..], off, Print(tree, level, pretty))
              && buf[off + |Print(tree, level, pretty)|] == NUL
    decreases v.repr, 3
  {
    PayloadShows(v);
    hide WellFormed, Value.Valid, Value.Linked, Value.Owns, CView;
    match v.payload
    case PArray(a) => written := SerializeArray(a, tree, buf, num, off, level, pretty);
    case PObject(t) => written := SerializeObject(t, tree, buf, num, off, level, pretty);
    case PString(s) => written := SerializeString(CView(s.bytes), buf, off);
    case PBoolean(b) => written := AppendString(buf, off, if b then P.TRUE_TEXT else P.FALSE_TEXT);
    case PNumber(x) =>
      NumberFits(x.Floor);
      if buf == null {
        written := AppendString(num, 0, N.IntText(x.Floor));
      } else {
        written := AppendString(buf, off, N.IntText(x.Floor));
      }
    case PNull => written := AppendString(buf, off, P.NULL_TEXT);
  }

  method SerializeArray(a: ArrayBlock, ghost v: Json, buf: array?<byte>, num: array?<byte>, off: nat, level: nat,
                        pretty: bool)
      returns (written: nat)
    requires a.wrapper.payload == PArray(a) && v.Array? && Legible(a.wrapper, v, buf, num)
    requires buf != null ==> off + |Print(v, level, pretty)| < buf.Length
    modifies buf, num
    ensures written == |Print(v, level, pretty)|
    ensures buf != null ==>
              && Written(old(buf[..]), buf[..], off, Print(v, level, pretty))
              && buf[off + |Print(v, level, pretty)|] == NUL
    decreases a.wrapper.repr, 2
  {
    hide Print, PrintItems, WellFormed, IntegerNumbers, NewLine, Indent, ItemsRest, Written, Progress;
    hide Value.Valid, Value.Linked, Value.Owns, Union, Disjoint;
    CountIs(a, v);
    PrintArrayIs(v, level, pretty);
    ghost var whole := Print(v, level, pretty);
    ghost var o := if buf == null then [] else buf[..];
    var count := a.count;
    var some := count > 0 && pretty;
    StartWriting(buf, off, whole);
    var pos, total, t := Append(buf, o, off, off, 0, [], [OPEN_BRACKET],
                             NewLine(some) + ItemsRest(v, 0, level, pretty), whole);
    pos, total, t := AppendNewLineIf(some, buf, o, off, pos, total, t, ItemsRest(v, 0, level, pretty), whole);
    pos, total, t := SerializeItems(a, v, buf, num, o, off, pos, total, t, level, pretty, whole);
    pos, total, t := AppendIndentIf(some, buf, o, off, pos, total, t, level, [CLOSE_BRACKET], whole);
    SkipNothing([CLOSE_BRACKET]);
    pos, total, t := Append(buf, o, off, pos, total, t, [CLOSE_BRACKET], [], whole);
    AllWritten(buf, o, off, pos, t, whole);
    return total;
  }

  /** The element loop. */
  method SerializeItems(a: ArrayBlock, ghost v: Json, buf: array?<byte>, num: array?<byte>, ghost o: Bytes,
                        ghost off: nat, pos: nat, total: nat, ghost t: Bytes, level: nat, pretty: bool,
                        ghost whole: Bytes)
      returns (pos': nat, total': nat, ghost t': Bytes)
    requires a.wrapper.payload == PArray(a) && v.Array? && Legible(a.wrapper, v, buf, num)
    requires Progress(buf, o, off, pos, t, ItemsRest(v, 0, level, pretty), whole) && total == |t|
    modifies buf, num
    ensures total' == |t'| && Progress(buf, o, off, pos', t', ItemsRest(v, |v.items|, level, pretty), whole)
    decreases a.wrapper.repr, 1
  {
    hide Print, PrintItems, WellFormed, IntegerNumbers, ItemsRest, Progress;
    hide Value.Valid, Value.Linked, Value.Owns, Union, Disjoint;
    CountIs(a, v);
    pos', total', t' := pos, total, t;
    var i := 0;
    while i < a.count
      invariant i <= a.count == |v.items| && total' == |t'| && Legible(a.wrapper, v, buf, num)
      invariant Progress(buf, o, off, pos', t', ItemsRest(v, i, level, pretty), whole)
    {
      ItemsRestIs(v, i, level, pretty);
      ItemsRestIs(v, i + 1, level, pretty);
      pos', total', t' := SerializeItem(a, v, i, buf, num, o, off, pos', total', t', level, pretty, whole);
      i := i + 1;
    }
  }

  /** What the loop of the array case has still to write; an empty container has only its bracket. */
  ghost function ItemsRest(v: Json, i: nat, level: nat, pretty: bool): Bytes
    requires v.Array? && IntegerNumbers(v) && i <= |v.items|
  {
    if v.items == [] then [CLOSE_BRACKET] else PrintItems(v, i, level, pretty)
  }

  lemma ItemsRestIs(v: Json, i: nat, level: nat, pretty: bool)
    requires v.Array? && IntegerNumbers(v) && i <= |v.items| && v.items != []
    ensures ItemsRest(v, i, level, pretty) == PrintItems(v, i, level, pretty)
  {
  }

  lemma PrintArrayIs(v: Json, level: nat, pretty: bool)
    requires v.Array? && IntegerNumbers(v)
    ensures var n := |v.items|; var some := n > 0 && pretty;
            && Print(v, level, pretty) == [OPEN_BRACKET] + (NewLine(some) + ItemsRest(v, 0, level, pretty))
            && ItemsRest(v, n, level, pretty) == Indent(some, level) + [CLOSE_BRACKET]
  {
    if v.items == [] {
      SkipNothing([CLOSE_BRACKET]);
    }
  }

  lemma AllWritten(buf: array?<byte>, o: Bytes, off: nat, pos: nat, t: Bytes, whole: Bytes)
    requires Progress(buf, o, off, pos, t, [], whole)
    ensures t == whole && (buf != null ==> Written(o, buf[..], off, whole) && pos == off + |whole|)
  {
    SkipNothing(t);
  }

  /** The line end, only when `some`. */
  method AppendNewLineIf(some: bool, buf: array?<byte>, ghost o: Bytes, ghost off: nat, pos: nat, total: nat,
                         ghost t: Bytes, ghost rest: Bytes, ghost whole: Bytes)
      returns (pos': nat, total': nat, ghost t': Bytes)
    requires Progress(buf, o, off, pos, t, NewLine(some) + rest, whole) && total == |t|
    modifies buf
    ensures total' == |t'| && Progress(buf, o, off, pos', t', rest, whole)
  {
    pos', total', t' := pos, total, t;
    SkipNothing(rest);
    if some {
      pos', total', t' := Append(buf, o, off, pos', total', t', [NEWLINE], rest, whole);
    }
  }

  lemma SkipNothing(t: Bytes)
    ensures [] + t == t && t + [] == t
  {
  }

  /** The body of the element loop. */
  method SerializeItem(a: ArrayBlock, ghost v: Json, i: nat, buf: array?<byte>, num: array?<byte>, ghost o: Bytes,
                       ghost off: nat, pos: nat, total: nat, ghost t: Bytes, level: nat, pretty: bool,
                       ghost whole: Bytes)
      returns (pos': nat, total': nat, ghost t': Bytes)
    requires a.wrapper.payload == PArray(a) && Legible(a.wrapper, v, buf, num)
    requires v.Array? && IntegerNumbers(v) && i < |v.items| == a.count
    requires Progress(buf, o, off, pos, t, PrintItems(v, i, level, pretty), whole) && total == |t|
    modifies buf, num
    ensures total' == |t'| && Progress(buf, o, off, pos', t', PrintItems(v, i + 1, level, pretty), whole)
    decreases a.wrapper.repr, 0
  {
    hide WellFormed, Value.Valid, Value.Linked, Value.Owns, Union, Disjoint;
    var child := Child(a, v, i, buf, num);
    ghost var last := NewLine(pretty) + PrintItems(v, i + 1, level, pretty);
    ghost var comma := if i + 1 < |v.items| then [COMMA] else [];
    pos', total', t' := AppendIndentIf(pretty, buf, o, off, pos, total, t, level + 1,
                                       Print(v.items[i], level + 1, pretty) + (comma + last), whole);
    pos', total', t' := AppendChild(a.wrapper, child, v.items[i], buf, num, o, off, pos', total', t',
                                   level, pretty, comma + last, whole);
    pos', total', t' := CloseEntry(i + 1 < a.count, pretty, buf, o, off, pos', total', t',
                                   PrintItems(v, i + 1, level, pretty), whole);
  }

  lemma CountIs(a: ArrayBlock, v: Json)
    requires a.wrapper.Valid() && a.wrapper.payload == PArray(a) && a.wrapper.tree == v && v.Array?
    ensures a.count == |v.items|
  {
    hide WellFormed, Value.Valid, Value.Linked, Value.Owns, Union, Disjoint;
    ArrayPieces(a.wrapper, a);
  }

  lemma EntriesAre(b: ObjectBlock, v: Json)
    requires b.wrapper.Valid() && b.wrapper.payload == PObject(b) && b.wrapper.tree == v && v.Object?
    ensures b.count == |v.members| && DistinctNames(v.members)
  {
    hide WellFormed, Value.Valid, Value.Linked, Value.Owns, Union, Disjoint;
    ObjectPieces(b.wrapper, b);
    assert WellFormed(v);
    MembersOf(v);
  }

  lemma MembersOf(v: Json)
    requires WellFormed(v) && v.Object?
    ensures DistinctNames(v.members)
  {
  }

  /** `json_array_get_value`. */
  method Child(a: ArrayBlock, ghost v: Json, i: nat, ghost buf: array?<byte>, ghost num: array?<byte>)
      returns (child: Value)
    requires a.wrapper.payload == PArray(a) && Legible(a.wrapper, v, buf, num) && v.Array? && i < |v.items|
    ensures Legible(child, v.items[i], buf, num) && child.repr < a.wrapper.repr
  {
    hide WellFormed, Value.Valid, Value.Linked, Value.Owns, Union, Disjoint;
    ArrayPieces(a.wrapper, a);
    assert a.items[i] == a.Contents()[i];
    child := a.items[i];
  }

  /** The recursive call for a child, and the bookkeeping behind it. */
  method AppendChild(ghost parent: Value, child: Value, ghost v: Json, buf: array?<byte>, num: array?<byte>,
                     ghost o: Bytes, ghost off: nat, pos: nat, total: nat, ghost t: Bytes, level: nat, pretty: bool,
                     ghost rest: Bytes, ghost whole: Bytes)
      returns (pos': nat, total': nat, ghost t': Bytes)
    requires child.repr < parent.repr && Legible(child, v, buf, num)
    requires Progress(buf, o, off, pos, t, Print(v, level + 1, pretty) + rest, whole) && total == |t|
    modifies buf, num
    ensures total' == |t'| && Progress(buf, o, off, pos', t', rest, whole)
    decreases child.repr, 4
  {
    hide Print, Value.Valid;
    ghost var text := Print(v, level + 1, pretty);
    t' := t + text;
    assert t' + rest == t + (text + rest);
    ghost var before := if buf == null then [] else buf[..];
    var written := SerializeRec(child, v, buf, num, pos, level + 1, pretty);
    pos' := if buf == null then pos else pos + written;
    total' := total + written;
    if buf != null {
      WriteOn(o, before, buf[..], off, t, text);
    }
  }

  /** The comma between entries, and the line end. */
  method CloseEntry(more: bool, pretty: bool, buf: array?<byte>, ghost o: Bytes, ghost off: nat, pos: nat, total: nat,
                    ghost t: Bytes, ghost rest: Bytes, ghost whole: Bytes)
      returns (pos': nat, total': nat, ghost t': Bytes)
    requires total == |t|
    requires Progress(buf, o, off, pos, t, (if more then [COMMA] else []) + (NewLine(pretty) + rest), whole)
    modifies buf
    ensures total' == |t'| && Progress(buf, o, off, pos', t', rest, whole)
  {
    pos', total', t' := pos, total, t;
    SkipNothing(NewLine(pretty) + rest);
    if more {
      pos', total', t' := Append(buf, o, off, pos', total', t', [COMMA], NewLine(pretty) + rest, whole);
    }
    pos', total', t' := AppendNewLineIf(pretty, buf, o, off, pos', total', t', rest, whole);
  }

  method SerializeObject(b: ObjectBlock, ghost v: Json, buf: array?<byte>, num: array?<byte>, off: nat, level: nat,
                         pretty: bool)
      returns (written: nat)
    requires b.wrapper.payload == PObject(b) && v.Object? && Legible(b.wrapper, v, buf, num)
    requires buf != null ==> off + |Print(v, level, pretty)| < buf.Length
    modifies buf, num
    ensures written == |Print(v, level, pretty)|
    ensures buf != null ==>
              && Written(old(buf[..]), buf[..], off, Print(v, level, pretty))
              && buf[off + |Print(v, level, pretty)|] == NUL
    decreases b.wrapper.repr, 2
  {
    hide Print, PrintMembers, WellFormed, IntegerNumbers, NewLine, Indent, MembersRest, Written, Progress;
    hide Value.Valid, Value.Linked, Value.Owns, Union, Disjoint, EntryOk, DistinctNames;
    EntriesAre(b, v);
    PrintObjectIs(v, level, pretty);
    ghost var whole := Print(v, level, pretty);
    ghost var o := if buf == null then [] else buf[..];
    var count := b.count;
    var some := count > 0 && pretty;
    StartWriting(buf, off, whole);
    var pos, total, t := Append(buf, o, off, off, 0, [], [OPEN_BRACE],
                             NewLine(some) + MembersRest(v, 0, level, pretty), whole);
    pos, total, t := AppendNewLineIf(some, buf, o, off, pos, total, t, MembersRest(v, 0, level, pretty), whole);
    pos, total, t := SerializeMembers(b, v, buf, num, o, off, pos, total, t, level, pretty, whole);
    pos, total, t := AppendIndentIf(some, buf, o, off, pos, total, t, level, [CLOSE_BRACE], whole);
    SkipNothing([CLOSE_BRACE]);
    pos, total, t := Append(buf, o, off, pos, total, t, [CLOSE_BRACE], [], whole);
    AllWritten(buf, o, off, pos, t, whole);
    return total;
  }

  /** The member loop. */
  method SerializeMembers(b: ObjectBlock, ghost v: Json, buf: array?<byte>, num: array?<byte>, ghost o: Bytes,
                          ghost off: nat, pos: nat, total: nat, ghost t: Bytes, level: nat, pretty: bool,
                          ghost whole: Bytes)
      returns (pos': nat, total': nat, ghost t': Bytes)
    requires b.wrapper.payload == PObject(b) && v.Object? && Legible(b.wrapper, v, buf, num)
    requires Progress(buf, o, off, pos, t, MembersRest(v, 0, level, pretty), whole) && total == |t|
    modifies buf, num
    ensures total' == |t'| && Progress(buf, o, off, pos', t', MembersRest(v, |v.members|, level, pretty), whole)
    decreases b.wrapper.repr, 1
  {
    hide Print, PrintMembers, WellFormed, IntegerNumbers, MembersRest, Progress;
    hide Value.Valid, Value.Linked, Value.Owns, Union, Disjoint;
    EntriesAre(b, v);
    pos', total', t' := pos, total, t;
    var i := 0;
    while i < b.count
      invariant i <= b.count == |v.members| && total' == |t'| && Legible(b.wrapper, v, buf, num)
      invariant Progress(buf, o, off, pos', t', MembersRest(v, i, level, pretty), whole)
    {
      MembersRestIs(v, i, level, pretty);
      MembersRestIs(v, i + 1, level, pretty);
      pos', total', t' := SerializeMember(b, v, i, buf, num, o, off, pos', total', t', level, pretty, whole);
      i := i + 1;
    }
  }

  /** What the loop of the object case has still to write; an empty container has only its bracket. */
  ghost function MembersRest(v: Json, i: nat, level: nat, pretty: bool): Bytes
    requires v.Object? && IntegerNumbers(v) && i <= |v.members|
  {
    if v.members == [] then [CLOSE_BRACE] else PrintMembers(v, i, level, pretty)
  }

  lemma MembersRestIs(v: Json, i: nat, level: nat, pretty: bool)
    requires v.Object? && IntegerNumbers(v) && i <= |v.members| && v.members != []
    ensures MembersRest(v, i, level, pretty) == PrintMembers(v, i, level, pretty)
  {
  }

  lemma PrintObjectIs(v: Json, level: nat, pretty: bool)
    requires v.Object? && IntegerNumbers(v)
    ensures var n := |v.members|; var some := n > 0 && pretty;
            && Print(v, level, pretty) == [OPEN_BRACE] + (NewLine(some) + MembersRest(v, 0, level, pretty))
            && MembersRest(v, n, level, pretty) == Indent(some, level) + [CLOSE_BRACE]
  {
    if v.members == [] {
      SkipNothing([CLOSE_BRACE]);
    }
  }

  /** The body of the member loop: the name by index, the value by name. */
  method SerializeMember(b: ObjectBlock, ghost v: Json, i: nat, buf: array?<byte>, num: array?<byte>, ghost o: Bytes,
                         ghost off: nat, pos: nat, total: nat, ghost t: Bytes, level: nat, pretty: bool,
                         ghost whole: Bytes)
      returns (pos': nat, total': nat, ghost t': Bytes)
    requires b.wrapper.payload == PObject(b) && Legible(b.wrapper, v, buf, num)
    requires v.Object? && IntegerNumbers(v) && i < |v.members| == b.count
    requires Progress(buf, o, off, pos, t, PrintMembers(v, i, level, pretty), whole) && total == |t|
    modifies buf, num
    ensures total' == |t'| && Progress(buf, o, off, pos', t', PrintMembers(v, i + 1, level, pretty), whole)
    decreases b.wrapper.repr, 0
  {
    hide WellFormed, Value.Valid, Value.Linked, Value.Owns, Union, Disjoint;
    var key, child := ChildEntry(b, v, i, buf, num);
    ghost var value := v.members[i].value;
    ghost var last := NewLine(pretty) + PrintMembers(v, i + 1, level, pretty);
    ghost var tail := (if i + 1 < |v.members| then [COMMA] else []) + last;
    ghost var afterColon := Blank(pretty) + (Print(value, level + 1, pretty) + tail);
    hide Print, Indent, PrintString, Blank, NewLine, Progress;
    pos', total', t' := AppendIndentIf(pretty, buf, o, off, pos, total, t, level + 1,
                                       PrintString(key) + ([COLON] + afterColon), whole);
    pos', total', t' := AppendName(key, buf, o, off, pos', total', t', [COLON] + afterColon, whole);
    pos', total', t' := AppendColon(pretty, buf, o, off, pos', total', t',
                                   Print(value, level + 1, pretty) + tail, whole);
    pos', total', t' := AppendChild(b.wrapper, child, value, buf, num, o, off, pos', total', t',
                                   level, pretty, tail, whole);
    pos', total', t' := CloseEntry(i + 1 < b.count, pretty, buf, o, off, pos', total', t',
                                   PrintMembers(v, i + 1, level, pretty), whole);
  }

  /** The name of an entry by index, and its value by that name. */
  method ChildEntry(b: ObjectBlock, ghost v: Json, i: nat, ghost buf: array?<byte>, ghost num: array?<byte>)
      returns (key: Bytes, child: Value)
    requires b.wrapper.payload == PObject(b) && Legible(b.wrapper, v, buf, num)
    requires v.Object? && i < |v.members| == b.count
    ensures key == v.members[i].name && Legible(child, v.members[i].value, buf, num) && child.repr < b.wrapper.repr
  {
    hide WellFormed, Value.Valid, Value.Linked, Value.Owns, Union, Disjoint, Lookup, Find, DistinctNames;
    EntriesAre(b, v);
    LookupByIndex(v.members, i);
    key := NameAt(b, i);
    var found := GetN(b, key);
    child := found;
  }

  /** The colon behind a name, and a space when pretty-printing. */
  method AppendColon(pretty: bool, buf: array?<byte>, ghost o: Bytes, ghost off: nat, pos: nat, total: nat,
                     ghost t: Bytes, ghost rest: Bytes, ghost whole: Bytes)
      returns (pos': nat, total': nat, ghost t': Bytes)
    requires Progress(buf, o, off, pos, t, [COLON] + (Blank(pretty) + rest), whole) && total == |t|
    modifies buf
    ensures total' == |t'| && Progress(buf, o, off, pos', t', rest, whole)
  {
    pos', total', t' := Append(buf, o, off, pos, total, t, [COLON], Blank(pretty) + rest, whole);
    SkipNothing(rest);
    if pretty {
      pos', total', t' := Append(buf, o, off, pos', total', t', [SPACE], rest, whole);
    }
  }

  method AppendName(key: Bytes, buf: array?<byte>, ghost o: Bytes, ghost off: nat, pos: nat, total: nat,
                    ghost t: Bytes, ghost rest: Bytes, ghost whole: Bytes)
      returns (pos': nat, total': nat, ghost t': Bytes)
    requires Progress(buf, o, off, pos, t, PrintString(key) + rest, whole) && total == |t|
    modifies buf
    ensures total' == |t'| && Progress(buf, o, off, pos', t', rest, whole)
  {
    hide PrintString;
    t' := t + PrintString(key);
    assert t' + rest == t + (PrintString(key) + rest);
    ghost var before := if buf == null then [] else buf[..];
    var written := SerializeString(key, buf, pos);
    pos' := if buf == null then pos else pos + written;
    total' := total + written;
    if buf != null {
      WriteOn(o, before, buf[..], off, t, PrintString(key));
    }
  }

  // ---------------------------------------------------------------- the entry points

  /** `json_serialization_size`: the dry run gives the length of the text and one byte for the NUL. */
  method SerializationSize(v: Value, pretty: bool) returns (size: nat)
    requires v.Valid() && IntegerNumbers(v.tree)
    ensures size == |Print(v.tree, 0, pretty)| + 1
  {
    hide Value.Valid;
    var num := new byte[NUM_BUF_SIZE];
    var written := SerializeRec(v, v.tree, null, num, 0, 0, pretty);
    size := written + 1;
  }

  /** `json_serialize_to_buffer`: succeeds exactly when the text and its NUL fit, and writes no further. */
  method SerializeToBuffer(v: Value, ghost tree: Json, buf: array<byte>, size: nat, pretty: bool) returns (ok: bool)
    requires Legible(v, tree, buf, null) && size <= buf.Length
    modifies buf
    ensures Legible(v, tree, buf, null) && (ok <==> size > |Print(tree, 0, pretty)|)
    ensures ok ==> Written(old(buf[..]), buf[..], 0, Print(tree, 0, pretty)) && buf[|Print(tree, 0, pretty)|] == NUL
    ensures !ok ==> buf[..] == old(buf[..])
  {
    hide Value.Valid, Print;
    var needed := SerializationSize(v, pretty);
    if size < needed {
      return false;
    }
    var _ := SerializeRec(v, tree, buf, null, 0, 0, pretty);
    return true;
  }

  /** `json_serialize_to_string`: a block of exactly the right size, or nothing and no block kept. */
  method SerializeToString(mem: Mem, v: Value, pretty: bool) returns (r: array?<byte>)
    requires Holds(mem, v) && IntegerNumbers(v.tree)
    modifies mem
    ensures Holds(mem, v) && unchanged(v`tree, v`repr)
    ensures r == null <==> mem.fails(old(mem.requests))
    ensures r == null ==> mem.live == old(mem.live)
    ensures r != null ==> fresh(r) && mem.live == old(mem.live) + {r}
    ensures r != null ==> r[..] == Print(v.tree, 0, pretty) + [NUL]
  {
    hide Print, Value.Valid;
    r := null;
    ghost var tree := v.tree;
    var size := SerializationSize(v, pretty);
    var buf := new byte[size];
    var granted := mem.Malloc(buf);
    if !granted {
      return;
    }
    var ok := SerializeToBuffer(v, tree, buf, size, pretty);
    assert ok;
    r := buf;
    FilledExactly(buf[..], Print(tree, 0, pretty));
  }

  lemma FilledExactly(b: Bytes, t: Bytes)
    requires |b| == |t| + 1 && Has(b, 0, t) && b[|t|] == NUL
    ensures b == t + [NUL]
  {
    forall k | 0 <= k < |t| ensures b[k] == t[k] {
      assert b[0 + k] == t[k];
    }
  }
}
