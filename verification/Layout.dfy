/** Where the serializer puts white space: nowhere in the compact text, by a fixed layout in the pretty one. */
module Layout {
  import opened Bytes
  import opened Json
  import opened Grammar
  import opened Printer

  // ---------------------------------------------------------------- compact

  /** No white space outside strings. */
  predicate Tight(c: Cst)
    decreases c, 1
  {
    match c
    case CArray(gap, items) => gap == [] && ItemsTight(items)
    case CObject(gap, es) => gap == [] && EntriesTight(es)
    case _ => true
  }

  predicate ItemsTight(items: seq<Item>)
    decreases items, 0
  {
    items == [] ||
    (items[0].before == items[0].after == [] && Tight(items[0].value) && ItemsTight(items[1..]))
  }

  predicate EntriesTight(es: seq<Entry>)
    decreases es, 0
  {
    es == [] ||
    (es[0].before == es[0].beforeColon == es[0].afterColon == es[0].after == []
     && Tight(es[0].value) && EntriesTight(es[1..]))
  }

  // ---------------------------------------------------------------- pretty

  /** A line end and four spaces a level. */
  function Margin(level: nat): Bytes {
    ['\n' as int] + seq(4 * level, _ => ' ' as int)
  }

  /** Every item and entry on a line of its own, one level deeper; a single space behind colons; nothing else. */
  predicate Laid(c: Cst, level: nat)
    decreases c, 1
  {
    match c
    case CArray(gap, items) => gap == [] && ItemsLaid(items, level)
    case CObject(gap, es) => gap == [] && EntriesLaid(es, level)
    case _ => true
  }

  predicate ItemsLaid(items: seq<Item>, level: nat)
    decreases items, 0
  {
    items == [] ||
    (items[0].before == Margin(level + 1) && items[0].after == (if |items| == 1 then Margin(level) else [])
     && Laid(items[0].value, level + 1) && ItemsLaid(items[1..], level))
  }

  predicate EntriesLaid(es: seq<Entry>, level: nat)
    decreases es, 0
  {
    es == [] ||
    (es[0].before == Margin(level + 1) && es[0].beforeColon == [] && es[0].afterColon == [' ' as int]
     && es[0].after == (if |es| == 1 then Margin(level) else [])
     && Laid(es[0].value, level + 1) && EntriesLaid(es[1..], level))
  }

  // ---------------------------------------------------------------- what is printed

  /** The printed text is that of a grammar tree for the value, without white space or laid out. */
  lemma PrintedLayout(v: Json, pretty: bool)
    requires IntegerNumbers(v) && WellFormed(v)
    ensures var c := CstOf(v, 0, pretty);
            Text(c) == Print(v, 0, pretty) && Meaning(c) == v && if pretty then Laid(c, 0) else Tight(c)
  {
    hide CstOf, Text, Print, Meaning, Laid, Tight;
    PrintsCst(v, 0, pretty);
    CstMeans(v, 0, pretty);
    if pretty {
      PrettyIsLaid(v, 0);
    } else {
      CompactIsTight(v, 0);
    }
  }

  lemma {:induction false} CompactIsTight(v: Json, level: nat)
    requires IntegerNumbers(v)
    ensures Tight(CstOf(v, level, false))
    decreases v, 1, 0
  {
    hide CstItems, CstEntries, ItemsTight, EntriesTight;
    match v
    case Array(_) => TightItems(v, 0, level);
    case Object(_) => TightEntries(v, 0, level);
    case _ =>
  }

  lemma {:induction false} TightItems(v: Json, i: nat, level: nat)
    requires v.Array? && IntegerNumbers(v) && i <= |v.items|
    ensures ItemsTight(CstItems(v, i, level, false))
    decreases v, 0, |v.items| - i
  {
    hide CstOf, Tight;
    if i < |v.items| {
      CompactIsTight(v.items[i], level + 1);
      TightItems(v, i + 1, level);
    }
  }

  lemma {:induction false} TightEntries(v: Json, i: nat, level: nat)
    requires v.Object? && IntegerNumbers(v) && i <= |v.members|
    ensures EntriesTight(CstEntries(v, i, level, false))
    decreases v, 0, |v.members| - i
  {
    hide CstOf, Tight;
    if i < |v.members| {
      CompactIsTight(v.members[i].value, level + 1);
      TightEntries(v, i + 1, level);
    }
  }

  lemma {:induction false} MarginIs(level: nat)
    ensures NewLine(true) + Indent(true, level) == Margin(level)
  {
    if level > 0 {
      MarginIs(level - 1);
      assert Margin(level) == Margin(level - 1) + [SPACE, SPACE, SPACE, SPACE];
      assert NewLine(true) + Indent(true, level) ==
             (NewLine(true) + Indent(true, level - 1)) + [SPACE, SPACE, SPACE, SPACE];
    }
  }

  lemma {:induction false} PrettyIsLaid(v: Json, level: nat)
    requires IntegerNumbers(v)
    ensures Laid(CstOf(v, level, true), level)
    decreases v, 1, 0
  {
    hide CstItems, CstEntries, ItemsLaid, EntriesLaid;
    match v
    case Array(_) => LaidItems(v, 0, level);
    case Object(_) => LaidEntries(v, 0, level);
    case _ =>
  }

  lemma {:induction false} LaidItems(v: Json, i: nat, level: nat)
    requires v.Array? && IntegerNumbers(v) && i <= |v.items|
    ensures ItemsLaid(CstItems(v, i, level, true), level)
    decreases v, 0, |v.items| - i
  {
    hide CstOf, Laid, Margin, Indent, NewLine;
    if i < |v.items| {
      PrettyIsLaid(v.items[i], level + 1);
      LaidItems(v, i + 1, level);
      MarginIs(level);
      MarginIs(level + 1);
    }
  }

  lemma {:induction false} LaidEntries(v: Json, i: nat, level: nat)
    requires v.Object? && IntegerNumbers(v) && i <= |v.members|
    ensures EntriesLaid(CstEntries(v, i, level, true), level)
    decreases v, 0, |v.members| - i
  {
    hide CstOf, Laid, Margin, Indent, NewLine;
    if i < |v.members| {
      PrettyIsLaid(v.members[i].value, level + 1);
      LaidEntries(v, i + 1, level);
      MarginIs(level);
      MarginIs(level + 1);
    }
  }
}
