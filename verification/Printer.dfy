/** The text the serializer produces, compact or pretty, and the round trip through the parser. */
module Printer {
  import opened Bytes
  import opened Json
  import opened Literals
  import opened Parser
  import opened Grammar
  import opened GrammarComplete
  import N = Numbers
  import NG = NumberGrammar

  function NewLine(pretty: bool): Bytes { if pretty then [NEWLINE] else [] }

  /** `append_indent`: four spaces a level. */
  function Indent(pretty: bool, level: nat): Bytes {
    if !pretty || level == 0 then [] else Indent(pretty, level - 1) + [SPACE, SPACE, SPACE, SPACE]
  }

  /** The text of `v`, `level` containers deep. */
  function Print(v: Json, level: nat, pretty: bool): (t: Bytes)
    requires IntegerNumbers(v)
    decreases v, 1, 0
  {
    match v
    case Null => NULL_TEXT
    case Bool(b) => if b then TRUE_TEXT else FALSE_TEXT
    case Number(x) => N.IntText(x.Floor)
    case Str(t) => PrintString(t)
    case Array(items) =>
      [OPEN_BRACKET] + (if items == [] then [CLOSE_BRACKET] else NewLine(pretty) + PrintItems(v, 0, level, pretty))
    case Object(ms) =>
      [OPEN_BRACE] + (if ms == [] then [CLOSE_BRACE] else NewLine(pretty) + PrintMembers(v, 0, level, pretty))
  }

  /** What the loop of the array case still has to write when it has written `i` elements. */
  function PrintItems(v: Json, i: nat, level: nat, pretty: bool): Bytes
    requires v.Array? && IntegerNumbers(v) && i <= |v.items|
    decreases v, 0, |v.items| - i
  {
    if i == |v.items| then Indent(pretty, level) + [CLOSE_BRACKET]
    else
      Indent(pretty, level + 1) + (Print(v.items[i], level + 1, pretty) +
        ((if i + 1 < |v.items| then [COMMA] else []) + (NewLine(pretty) + PrintItems(v, i + 1, level, pretty))))
  }

  function PrintMembers(v: Json, i: nat, level: nat, pretty: bool): Bytes
    requires v.Object? && IntegerNumbers(v) && i <= |v.members|
    decreases v, 0, |v.members| - i
  {
    if i == |v.members| then Indent(pretty, level) + [CLOSE_BRACE]
    else
      Indent(pretty, level + 1) + (PrintString(v.members[i].name) + ([COLON] + (Blank(pretty) +
        (Print(v.members[i].value, level + 1, pretty) +
          ((if i + 1 < |v.members| then [COMMA] else []) +
            (NewLine(pretty) + PrintMembers(v, i + 1, level, pretty)))))))
  }

  function Blank(pretty: bool): Bytes { if pretty then [SPACE] else [] }

  // ---------------------------------------------------------------- the printed text is of the grammar

  function CstOf(v: Json, level: nat, pretty: bool): (c: Cst)
    requires IntegerNumbers(v)
    ensures if v.Number? then c == CNumber(NG.IntParts(v.value.Floor)) else !c.CNumber?
    decreases v, 1, 0
  {
    match v
    case Null => CNull
    case Bool(b) => if b then CTrue else CFalse
    case Number(x) => CNumber(NG.IntParts(x.Floor))
    case Str(t) => CString(UnitsOf(t))
    case Array(items) => CArray([], CstItems(v, 0, level, pretty))
    case Object(ms) => CObject([], CstEntries(v, 0, level, pretty))
  }

  function CstItems(v: Json, i: nat, level: nat, pretty: bool): (items: seq<Item>)
    requires v.Array? && IntegerNumbers(v) && i <= |v.items|
    ensures |items| == |v.items| - i
    decreases v, 0, |v.items| - i
  {
    if i == |v.items| then []
    else
      [Item(NewLine(pretty) + Indent(pretty, level + 1), CstOf(v.items[i], level + 1, pretty),
            if i + 1 < |v.items| then [] else NewLine(pretty) + Indent(pretty, level))]
      + CstItems(v, i + 1, level, pretty)
  }

  function CstEntries(v: Json, i: nat, level: nat, pretty: bool): (es: seq<Entry>)
    requires v.Object? && IntegerNumbers(v) && i <= |v.members|
    ensures |es| == |v.members| - i
    decreases v, 0, |v.members| - i
  {
    if i == |v.members| then []
    else
      [Entry(NewLine(pretty) + Indent(pretty, level + 1), UnitsOf(v.members[i].name), [], Blank(pretty),
             CstOf(v.members[i].value, level + 1, pretty),
             if i + 1 < |v.members| then [] else NewLine(pretty) + Indent(pretty, level))]
      + CstEntries(v, i + 1, level, pretty)
  }

  lemma {:induction false} IndentIsSpaces(pretty: bool, level: nat)
    ensures Spaces(Indent(pretty, level)) && Spaces(NewLine(pretty) + Indent(pretty, level)) && Spaces(Blank(pretty))
  {
    if pretty && level > 0 {
      IndentIsSpaces(pretty, level - 1);
    }
  }

  lemma {:induction false} PrintsCst(v: Json, level: nat, pretty: bool)
    requires IntegerNumbers(v) && WellFormed(v)
    ensures Text(CstOf(v, level, pretty)) == Print(v, level, pretty)
    decreases v, 1, 0
  {
    hide PrintString, LiteralText, UnitsOf, PrintItems, PrintMembers, CstItems, CstEntries, ItemsText, EntriesText,
      WellFormed, N.IntText, LiteralValue, UnitsOk, NG.PartsDouble, NG.TokenOk, NG.PartsText, NG.IntParts;
    match v
    case Number(x) => NG.IntTextIsToken(x.Floor);
    case Str(t) => StrWellFormed(v); PrintedLiteral(t);
    case Array(items) =>
      if items != [] {
        PrintsItems(v, 0, level, pretty);
      } else {
        assert [] + [CLOSE_BRACKET] == [CLOSE_BRACKET];
      }
    case Object(ms) =>
      if ms != [] {
        PrintsEntries(v, 0, level, pretty);
      } else {
        assert [] + [CLOSE_BRACE] == [CLOSE_BRACE];
      }
    case _ =>
  }

  lemma {:induction false} PrintsItems(v: Json, i: nat, level: nat, pretty: bool)
    requires v.Array? && IntegerNumbers(v) && WellFormed(v) && i < |v.items|
    ensures ItemsText(CstItems(v, i, level, pretty)) == NewLine(pretty) + PrintItems(v, i, level, pretty)
    decreases v, 0, |v.items| - i
  {
    PrintsCst(v.items[i], level + 1, pretty);
    var items := CstItems(v, i, level, pretty);
    ItemsTextIs(items);
    var nl, ind, x := NewLine(pretty), Indent(pretty, level + 1), Print(v.items[i], level + 1, pretty);
    if i + 1 < |v.items| {
      PrintsItems(v, i + 1, level, pretty);
      assert items[1..] == CstItems(v, i + 1, level, pretty);
      assert ItemTail(items) == [COMMA] + (nl + PrintItems(v, i + 1, level, pretty));
      Regroup(nl, ind, x, [], [COMMA] + (nl + PrintItems(v, i + 1, level, pretty)));
    } else {
      Regroup(nl, ind, x, nl + Indent(pretty, level), [CLOSE_BRACKET]);
      NoComma(nl, Indent(pretty, level), [CLOSE_BRACKET]);
    }
  }

  lemma Regroup(a: Bytes, b: Bytes, c: Bytes, d: Bytes, e: Bytes)
    ensures (a + b) + (c + (d + e)) == a + (b + (c + (d + e)))
    ensures [] + e == e
  {
  }

  lemma NoComma(a: Bytes, b: Bytes, c: Bytes)
    ensures (a + b) + c == [] + (a + (b + c))
  {
  }

  lemma {:induction false} PrintsEntries(v: Json, i: nat, level: nat, pretty: bool)
    requires v.Object? && IntegerNumbers(v) && WellFormed(v) && i < |v.members|
    ensures EntriesText(CstEntries(v, i, level, pretty)) == NewLine(pretty) + PrintMembers(v, i, level, pretty)
    decreases v, 0, |v.members| - i
  {
    PrintsCst(v.members[i].value, level + 1, pretty);
    PrintedLiteral(v.members[i].name);
    var es := CstEntries(v, i, level, pretty);
    EntriesTextIs(es);
    var nl, ind, x := NewLine(pretty), Indent(pretty, level + 1), Print(v.members[i].value, level + 1, pretty);
    var name := PrintString(v.members[i].name);
    if i + 1 < |v.members| {
      PrintsEntries(v, i + 1, level, pretty);
      assert es[1..] == CstEntries(v, i + 1, level, pretty);
      var tail := [COMMA] + (nl + PrintMembers(v, i + 1, level, pretty));
      assert EntryTail(es) == tail;
      RegroupEntry(nl, ind, name, Blank(pretty), x, [], tail);
    } else {
      RegroupEntry(nl, ind, name, Blank(pretty), x, nl + Indent(pretty, level), [CLOSE_BRACE]);
      NoComma(nl, Indent(pretty, level), [CLOSE_BRACE]);
    }
  }

  lemma RegroupEntry(nl: Bytes, ind: Bytes, name: Bytes, blank: Bytes, x: Bytes, after: Bytes, tail: Bytes)
    ensures (nl + ind) + (name + ([] + ([COLON] + (blank + (x + (after + tail)))))) ==
            nl + (ind + (name + ([COLON] + (blank + (x + (after + tail))))))
    ensures [] + tail == tail
  {
    assert [] + ([COLON] + (blank + (x + (after + tail)))) == [COLON] + (blank + (x + (after + tail)));
  }

  lemma StrWellFormed(v: Json)
    requires v.Str? && WellFormed(v)
    ensures NulFree(v.text)
  {
  }

  // ---------------------------------------------------------------- and means the tree

  lemma {:induction false} CstMeans(v: Json, level: nat, pretty: bool)
    requires IntegerNumbers(v) && WellFormed(v)
    ensures Meaning(CstOf(v, level, pretty)) == v
    decreases v, 1, 0
  {
    hide NG.PartsDouble, NG.PartsOk, NG.TokenOk, NG.PartsText, NG.IntParts, CstItems, CstEntries;
    match v
    case Number(x) => NG.IntTextIsToken(x.Floor); NG.TokenPartsOk(NG.IntParts(x.Floor));
    case Str(t) => PrintedLiteral(t);
    case Array(items) => ItemsMean(v, 0, level, pretty);
    case Object(ms) => EntriesMean(v, 0, level, pretty);
    case _ =>
  }

  lemma {:induction false} ItemsMean(v: Json, i: nat, level: nat, pretty: bool)
    requires v.Array? && IntegerNumbers(v) && WellFormed(v) && i <= |v.items|
    ensures ItemValues(CstItems(v, i, level, pretty)) == v.items[i..]
    decreases v, 0, |v.items| - i
  {
    if i < |v.items| {
      CstMeans(v.items[i], level + 1, pretty);
      ItemsMean(v, i + 1, level, pretty);
      assert CstItems(v, i, level, pretty)[1..] == CstItems(v, i + 1, level, pretty);
      assert v.items[i..] == [v.items[i]] + v.items[i + 1..];
    }
  }

  lemma {:induction false} EntriesMean(v: Json, i: nat, level: nat, pretty: bool)
    requires v.Object? && IntegerNumbers(v) && WellFormed(v) && i <= |v.members|
    ensures EntryMembers(CstEntries(v, i, level, pretty)) == v.members[i..]
    decreases v, 0, |v.members| - i
  {
    if i < |v.members| {
      var es := CstEntries(v, i, level, pretty);
      CstMeans(v.members[i].value, level + 1, pretty);
      PrintedLiteral(v.members[i].name);
      EntriesMean(v, i + 1, level, pretty);
      assert es[1..] == CstEntries(v, i + 1, level, pretty);
      assert EntryName(es[0]) == v.members[i].name;
      assert v.members[i..] == [v.members[i]] + v.members[i + 1..];
    }
  }

  lemma {:induction false} CstIsWf(v: Json, level: nat, pretty: bool, nesting: nat)
    requires IntegerNumbers(v) && WellFormed(v) && Nests(v, nesting)
    ensures Wf(CstOf(v, level, pretty), nesting)
    decreases v, 1, 0
  {
    match v
    case Number(x) => NG.IntTextIsToken(x.Floor);
    case Str(t) => PrintedLiteral(t);
    case Array(items) => ItemsAreWf(v, 0, level, pretty, nesting + 1);
    case Object(ms) =>
      EntriesAreWf(v, 0, level, pretty, nesting + 1);
      EntriesMean(v, 0, level, pretty);
    case _ =>
  }

  lemma {:induction false} ItemsAreWf(v: Json, i: nat, level: nat, pretty: bool, nesting: nat)
    requires v.Array? && IntegerNumbers(v) && WellFormed(v) && i <= |v.items|
    requires forall k | 0 <= k < |v.items| :: Nests(v.items[k], nesting)
    ensures ItemsWf(CstItems(v, i, level, pretty), nesting)
    decreases v, 0, |v.items| - i
  {
    hide Indent, NewLine, Blank, CstOf, Wf, Spaces;
    NothingIsSpaces();
    if i < |v.items| {
      CstIsWf(v.items[i], level + 1, pretty, nesting);
      ItemsAreWf(v, i + 1, level, pretty, nesting);
      IndentIsSpaces(pretty, level);
      IndentIsSpaces(pretty, level + 1);
      assert CstItems(v, i, level, pretty)[1..] == CstItems(v, i + 1, level, pretty);
    }
  }

  lemma NothingIsSpaces()
    ensures Spaces([])
  {
  }

  lemma {:induction false} EntriesAreWf(v: Json, i: nat, level: nat, pretty: bool, nesting: nat)
    requires v.Object? && IntegerNumbers(v) && WellFormed(v) && i <= |v.members|
    requires forall k | 0 <= k < |v.members| :: Nests(v.members[k].value, nesting)
    ensures EntriesWf(CstEntries(v, i, level, pretty), nesting)
    decreases v, 0, |v.members| - i
  {
    hide Indent, NewLine, Blank, CstOf, Wf, UnitsOf, UnitsOk, Spaces, LiteralValue;
    NothingIsSpaces();
    if i < |v.members| {
      CstIsWf(v.members[i].value, level + 1, pretty, nesting);
      PrintedLiteral(v.members[i].name);
      EntriesAreWf(v, i + 1, level, pretty, nesting);
      IndentIsSpaces(pretty, level);
      IndentIsSpaces(pretty, level + 1);
      assert CstEntries(v, i, level, pretty)[1..] == CstEntries(v, i + 1, level, pretty);
    }
  }

  // ---------------------------------------------------------------- round trip

  /** A printed value is read back wherever it stands, up to its end, if nothing continues its last number. */
  lemma PrintedValueParses(v: Json, level: nat, pretty: bool, nesting: nat, s: Bytes, i: nat)
    requires IntegerNumbers(v) && WellFormed(v) && Nests(v, nesting) && Has(s, i, Print(v, level, pretty))
    requires v.Number? ==> NG.Stops(s, i + |Print(v, level, pretty)|, NG.IntParts(v.value.Floor))
    ensures i <= |s| && ParseValue(s, i, nesting) == Ok(v, i + |Print(v, level, pretty)|)
  {
    hide CstOf, Print, Wf, Meaning, Text, ParseValue, Has, NG.Stops, IntegerNumbers, WellFormed, Nests, NG.IntParts;
    HasFits(s, i, Print(v, level, pretty));
    PrintsCst(v, level, pretty);
    CstMeans(v, level, pretty);
    CstIsWf(v, level, pretty, nesting);
    ValueParses(CstOf(v, level, pretty), nesting, s, i);
  }

  /** Printing never starts with a byte order mark. */
  lemma NoByteOrderMark(v: Json, pretty: bool)
    requires IntegerNumbers(v)
    ensures var t := Print(v, 0, pretty); |t| > 0 && t[0] < 0x80
  {
    hide PrintItems, PrintMembers, PrintBytes, N.NatText;
  }

  /** Parsing the compact or the pretty text of a tree gives back that tree, unchanged and whole. */
  lemma RoundTrip(v: Json, pretty: bool)
    requires IntegerNumbers(v) && WellFormed(v) && Nests(v, 0)
    ensures ParseString(Print(v, 0, pretty)) == Ok(v, |Print(v, 0, pretty)|)
  {
    var t := Print(v, 0, pretty);
    NoByteOrderMark(v, pretty);
    hide Print, ParseValue;
    if v.Number? {
      NG.StopsAtEnd(t, NG.IntParts(v.value.Floor));
    }
    HasSelf(t, []);
    assert t + [] == t;
    assert !Has(t, 0, [0xEF, 0xBB, 0xBF]) by {
      HasCons(t, 0, 0xEF, [0xBB, 0xBF]);
      assert [0xEF] + [0xBB, 0xBF] == [0xEF, 0xBB, 0xBF];
    }
    PrintedValueParses(v, 0, pretty, 0, t, 0);
  }
}
