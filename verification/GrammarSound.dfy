/** Every text the parser accepts is a text of the grammar, and means the tree it returns. */
module GrammarSound {
  import opened Bytes
  import opened Json
  import opened Literals
  import opened Parser
  import opened Grammar
  import opened GrammarComplete
  import Strings
  import N = Numbers
  import NG = NumberGrammar

  /**
   * `c` as the outermost value, at `k`: a number token is the longest one there, because nothing else
   * has to end it.
   */
  predicate RootOk(c: Cst, s: Bytes, k: nat, nesting: nat) {
    && Wf(c, nesting) && k + |Text(c)| <= |s|
    && (c.CNumber? ==> NG.Stops(s, k + |Text(c)|, c.parts))
  }

  /** The text that is taken as the number 0 although no value stands there: a minus sign, left unread. */
  predicate Unread(s: Bytes, i: nat, nesting: nat)
    requires i <= |s|
  {
    nesting <= MAX_NESTING && SkipSpaces(s, i) < |s| && NG.BareMinus(s, SkipSpaces(s, i))
  }

  lemma SpacesAre(s: Bytes, i: nat) returns (w: Bytes)
    requires i <= |s|
    ensures Spaces(w) && Has(s, i, w) && i + |w| == SkipSpaces(s, i)
  {
    w := s[i..SkipSpaces(s, i)];
  }

  lemma ScalarIsText(s: Bytes, k: nat, nesting: nat) returns (c: Cst)
    requires k < |s| && ParseScalar(s, k).Ok? && ParseScalar(s, k).next > k && nesting <= MAX_NESTING
    ensures RootOk(c, s, k, nesting) && Has(s, k, Text(c))
    ensures ParseScalar(s, k) == Ok(Meaning(c), k + |Text(c)|)
  {
    hide Strings.GetQuoted, N.ParseNumber, LiteralText, LiteralValue, NG.Stops, NG.TokenOk,
      NG.PartsText, NG.PartsDouble, NG.PartsOk;
    var r := ParseScalar(s, k);
    match r.value
    case Str(_) =>
      var us := LiteralIsRead(s, k);
      HasFits(s, k, LiteralText(us));
      c := CString(us);
    case Number(x) =>
      var p := NG.NumberIsRead(s, k, r.next, x);
      NG.TokenPartsOk(p);
      c := CNumber(p);
    case Bool(b) => c := if b then CTrue else CFalse;
    case _ => c := CNull;
  }

  lemma {:induction false} ValueIsText(s: Bytes, i: nat, nesting: nat) returns (c: Cst)
    requires i <= |s| && ParseValue(s, i, nesting).Ok? && ParseValue(s, i, nesting).next > SkipSpaces(s, i)
    ensures RootOk(c, s, SkipSpaces(s, i), nesting) && Has(s, SkipSpaces(s, i), Text(c))
    ensures ParseValue(s, i, nesting) == Ok(Meaning(c), SkipSpaces(s, i) + |Text(c)|)
    decreases |s| - i, 1
  {
    hide ParseScalar, ParseArray, ParseObject, SkipSpaces, Text, Has, Wf, Meaning, RootOk;
    var k := SkipSpaces(s, i);
    if At(s, k) == OPEN_BRACKET {
      c := ArrayIsText(s, k, nesting);
    } else if At(s, k) == OPEN_BRACE {
      c := ObjectIsText(s, k, nesting);
    } else {
      c := ScalarIsText(s, k, nesting);
    }
  }

  lemma ArrayCst(s: Bytes, k: nat, nesting: nat, c: Cst)
    requires c.CArray? && k < |s| && s[k] == OPEN_BRACKET && nesting <= MAX_NESTING && Spaces(c.gap)
    requires if c.items == [] then Has(s, k + 1, c.gap + [CLOSE_BRACKET])
             else c.gap == [] && ItemsWf(c.items, nesting + 1) && Has(s, k + 1, ItemsText(c.items))
    ensures Wf(c, nesting) && Has(s, k, Text(c))
    ensures |Text(c)| == 1 + if c.items == [] then |c.gap| + 1 else |ItemsText(c.items)|
  {
    assert ItemsWf([], nesting + 1);
    hide ItemsText, ItemsWf, Has, Spaces;
    HasCons(s, k, OPEN_BRACKET, if c.items == [] then c.gap + [CLOSE_BRACKET] else ItemsText(c.items));
  }

  /** White space in front of the first item belongs to it. */
  lemma PrependItems(w: Bytes, items: seq<Item>, nesting: nat, s: Bytes, p: nat) returns (all: seq<Item>)
    requires items != [] && ItemsWf(items, nesting) && Spaces(w)
    requires Has(s, p, w) && Has(s, p + |w|, ItemsText(items))
    ensures all != [] && ItemsWf(all, nesting) && ItemValues(all) == ItemValues(items)
    ensures Has(s, p, ItemsText(all)) && |ItemsText(all)| == |w| + |ItemsText(items)|
  {
    hide Has, Text, Wf, Meaning;
    var it := items[0];
    all := [Item(w + it.before, it.value, it.after)] + items[1..];
    assert all[1..] == items[1..];
    var rest := Text(it.value) + (it.after + ItemTail(items));
    ItemsTextIs(items);
    ItemsTextIs(all);
    hide ItemsText;
    assert ItemsText(all) == (w + it.before) + rest;
    HasConcat(s, p + |w|, it.before, rest);
    HasConcat(s, p, w, it.before);
    HasConcat(s, p, w + it.before, rest);
  }

  lemma {:induction false} ArrayIsText(s: Bytes, k: nat, nesting: nat) returns (c: Cst)
    requires k < |s| && s[k] == OPEN_BRACKET && ParseArray(s, k, nesting + 1).Ok? && nesting <= MAX_NESTING
    ensures Wf(c, nesting) && RootOk(c, s, k, nesting) && Has(s, k, Text(c))
    ensures ParseArray(s, k, nesting + 1) == Ok(Meaning(c), k + |Text(c)|)
    decreases |s| - k, 0
  {
    hide SkipSpaces, Has, ItemsText, ItemsWf, Text, Wf, ItemValues, ParseElements;
    var w := SpacesAre(s, k + 1);
    var i := SkipSpaces(s, k + 1);
    if At(s, i) == CLOSE_BRACKET {
      c := CArray(w, []);
      HasOne(s, i, CLOSE_BRACKET);
      HasConcat(s, k + 1, w, [CLOSE_BRACKET]);
      assert ItemValues([]) == [] by { NoItems(); }
    } else {
      var items := ElementsAreText(s, i, nesting + 1, []);
      var all := PrependItems(w, items, nesting + 1, s, k + 1);
      c := CArray([], all);
      assert [] + ItemValues(items) == ItemValues(items);
    }
    ArrayCst(s, k, nesting, c);
  }

  lemma NoItems()
    ensures ItemValues([]) == []
  {
  }

  lemma OneItem(it: Item, nesting: nat)
    requires Spaces(it.before) && Spaces(it.after) && Wf(it.value, nesting)
    ensures ItemsWf([it], nesting) && ItemValues([it]) == [Meaning(it.value)]
  {
    hide Wf, Meaning, Spaces;
  }

  lemma MoreItems(it: Item, items: seq<Item>, nesting: nat)
    requires Spaces(it.before) && Spaces(it.after) && Wf(it.value, nesting) && items != [] && ItemsWf(items, nesting)
    ensures ItemsWf([it] + items, nesting) && ItemValues([it] + items) == [Meaning(it.value)] + ItemValues(items)
    ensures ItemTail([it] + items) == [COMMA] + ItemsText(items)
  {
    hide Wf, Meaning, Spaces;
    assert ([it] + items)[1..] == items;
  }

  /** An item and its tail, from where their parts stand. */
  lemma ItemStands(items: seq<Item>, s: Bytes, i: nat, k: nat)
    requires items != []
    requires Has(s, i, items[0].before) && Has(s, i + |items[0].before|, Text(items[0].value))
    requires Has(s, i + |items[0].before| + |Text(items[0].value)|, items[0].after)
    requires k == i + |items[0].before| + |Text(items[0].value)| + |items[0].after| && Has(s, k, ItemTail(items))
    ensures Has(s, i, ItemsText(items)) && i + |ItemsText(items)| == k + |ItemTail(items)|
  {
    hide Has, Text, ItemsText, ItemTail;
    var it := items[0];
    ItemsTextIs(items);
    HasFour(s, i, it.before, Text(it.value), it.after, ItemTail(items));
  }

  lemma {:induction false} ItemAt(s: Bytes, i: nat, nesting: nat) returns (it: Item, k: nat)
    requires i <= |s| && ParseValue(s, i, nesting).Ok?
    requires At(s, SkipSpaces(s, ParseValue(s, i, nesting).next)) in {COMMA, CLOSE_BRACKET, CLOSE_BRACE}
    ensures k == SkipSpaces(s, ParseValue(s, i, nesting).next) < |s|
    ensures Spaces(it.before) && Spaces(it.after) && Wf(it.value, nesting)
    ensures Has(s, i, it.before) && Has(s, i + |it.before|, Text(it.value))
    ensures Has(s, i + |it.before| + |Text(it.value)|, it.after)
    ensures k == i + |it.before| + |Text(it.value)| + |it.after|
    ensures ParseValue(s, i, nesting).value == Meaning(it.value)
    decreases |s| - i, 2
  {
    hide ParseValue, SkipSpaces, Has, Spaces, Wf, Meaning, RootOk;
    var before := SpacesAre(s, i);
    InsideMoves(s, i, nesting);
    var c := ValueIsText(s, i, nesting);
    var a := ParseValue(s, i, nesting).next;
    var after := SpacesAre(s, a);
    k := SkipSpaces(s, a);
    it := Item(before, c, after);
    RootIsWf(c, s, SkipSpaces(s, i), nesting);
  }

  lemma RootIsWf(c: Cst, s: Bytes, k: nat, nesting: nat)
    requires RootOk(c, s, k, nesting)
    ensures Wf(c, nesting)
  {
  }

  /** A value that leaves the cursor where it stands is not followed by what a container needs. */
  lemma InsideMoves(s: Bytes, i: nat, nesting: nat)
    requires i <= |s| && ParseValue(s, i, nesting).Ok?
    requires At(s, SkipSpaces(s, ParseValue(s, i, nesting).next)) in {COMMA, CLOSE_BRACKET, CLOSE_BRACE}
    ensures ParseValue(s, i, nesting).next > SkipSpaces(s, i)
  {
    hide ParseValue, SkipSpaces;
    if ParseValue(s, i, nesting).next <= SkipSpaces(s, i) {
      StaysAtMinus(s, i, nesting);
      SkipTwice(s, i);
    }
  }

  /** The cursor stays only at a bare minus sign. */
  lemma StaysAtMinus(s: Bytes, i: nat, nesting: nat)
    requires i <= |s|
    ensures Unread(s, i, nesting) <==>
              ParseValue(s, i, nesting).Ok? && ParseValue(s, i, nesting).next <= SkipSpaces(s, i)
    ensures Unread(s, i, nesting) ==> ParseValue(s, i, nesting) == Ok(Number(0.0), SkipSpaces(s, i))
  {
    var k := SkipSpaces(s, i);
    if k < |s| {
      ContainersMove(s, k, nesting);
      if s[k] == MINUS || N.Digit(s[k]) {
        NG.NumberStays(s, k);
      }
    }
    hide ParseArray, ParseObject, SkipSpaces, N.ParseNumber, Strings.GetQuoted, N.InfOrNan;
  }

  lemma ContainersMove(s: Bytes, k: nat, nesting: nat)
    requires k < |s|
    ensures ParseArray(s, k, nesting + 1).Ok? ==> ParseArray(s, k, nesting + 1).next > k
    ensures ParseObject(s, k, nesting + 1).Ok? ==> ParseObject(s, k, nesting + 1).next > k
  {
    hide ParseElements, ParseMembers, SkipSpaces;
  }

  lemma {:induction false} ElementsAreText(s: Bytes, i: nat, nesting: nat, done: seq<Json>) returns (items: seq<Item>)
    requires i <= |s| && ParseElements(s, i, nesting, done).Ok?
    ensures items != [] && ItemsWf(items, nesting) && Has(s, i, ItemsText(items))
    ensures ParseElements(s, i, nesting, done) == Ok(Array(done + ItemValues(items)), i + |ItemsText(items)|)
    decreases |s| - i, 3
  {
    hide ParseValue, SkipSpaces, Has, Spaces, Wf, Meaning, Text, ItemsText, ItemsWf, ItemValues, ItemTail;
    var it, k := ItemAt(s, i, nesting);
    if s[k] == COMMA {
      var w := SpacesAre(s, k + 1);
      var next := SkipSpaces(s, k + 1);
      var more := ElementsAreText(s, next, nesting, done + [Meaning(it.value)]);
      var tail := PrependItems(w, more, nesting, s, k + 1);
      items := [it] + tail;
      MoreItems(it, tail, nesting);
      HasCons(s, k, COMMA, ItemsText(tail));
      ConcatAssoc(done, [Meaning(it.value)], ItemValues(tail));
    } else {
      items := [it];
      OneItem(it, nesting);
      HasOne(s, k, CLOSE_BRACKET);
      assert ItemTail(items) == [CLOSE_BRACKET] by { LastItem(items); }
    }
    ItemStands(items, s, i, k);
  }

  lemma LastItem(items: seq<Item>)
    requires |items| == 1
    ensures ItemTail(items) == [CLOSE_BRACKET]
  {
  }

  // ---------------------------------------------------------------- objects

  lemma ObjectCst(s: Bytes, k: nat, nesting: nat, c: Cst)
    requires c.CObject? && k < |s| && s[k] == OPEN_BRACE && nesting <= MAX_NESTING && Spaces(c.gap)
    requires DistinctNames(EntryMembers(c.entries))
    requires if c.entries == [] then Has(s, k + 1, c.gap + [CLOSE_BRACE])
             else c.gap == [] && EntriesWf(c.entries, nesting + 1) && Has(s, k + 1, EntriesText(c.entries))
    ensures Wf(c, nesting) && Has(s, k, Text(c))
    ensures |Text(c)| == 1 + if c.entries == [] then |c.gap| + 1 else |EntriesText(c.entries)|
  {
    assert EntriesWf([], nesting + 1);
    hide EntriesText, EntriesWf, EntryMembers, DistinctNames, Has, Spaces;
    HasCons(s, k, OPEN_BRACE, if c.entries == [] then c.gap + [CLOSE_BRACE] else EntriesText(c.entries));
  }

  /** The text of the entries behind the white space in front of the first one. */
  function AfterBefore(es: seq<Entry>): Bytes
    requires es != []
  {
    LiteralText(es[0].name) + (es[0].beforeColon + ([COLON] + AfterColon(es)))
  }

  lemma EntriesTextIs2(es: seq<Entry>)
    requires es != []
    ensures EntriesText(es) == es[0].before + AfterBefore(es)
  {
    EntriesTextIs(es);
    hide EntriesText, LiteralText, AfterColon;
  }

  lemma PrependEntries(w: Bytes, es: seq<Entry>, nesting: nat, s: Bytes, p: nat) returns (all: seq<Entry>)
    requires es != [] && EntriesWf(es, nesting) && Spaces(w)
    requires Has(s, p, w) && Has(s, p + |w|, EntriesText(es))
    ensures all != [] && EntriesWf(all, nesting) && EntryMembers(all) == EntryMembers(es)
    ensures Has(s, p, EntriesText(all)) && |EntriesText(all)| == |w| + |EntriesText(es)|
  {
    hide Has, Text, Wf, Meaning, UnitsOk, LiteralValue, LiteralText, EntriesText;
    var e := es[0];
    all := [e.(before := w + e.before)] + es[1..];
    assert all[1..] == es[1..];
    assert AfterBefore(all) == AfterBefore(es);
    EntriesTextIs2(es);
    EntriesTextIs2(all);
    hide AfterBefore;
    HasConcat(s, p + |w|, e.before, AfterBefore(es));
    HasConcat(s, p, w, e.before);
    HasConcat(s, p, w + e.before, AfterBefore(es));
  }

  lemma NoEntries()
    ensures EntryMembers([]) == [] && DistinctNames(EntryMembers([]))
  {
  }

  lemma {:induction false} MembersDistinct(s: Bytes, i: nat, nesting: nat, done: seq<Member>)
    requires i <= |s| && ParseMembers(s, i, nesting, done).Ok? && DistinctNames(done)
    ensures ParseMembers(s, i, nesting, done).value.Object?
    ensures DistinctNames(ParseMembers(s, i, nesting, done).value.members)
    decreases |s| - i
  {
    hide ParseValue, SkipSpaces, Strings.GetQuoted;
    var q := Strings.GetQuoted(s, i).value;
    var colon := SkipSpaces(s, q.next);
    var r := ParseValue(s, colon + 1, nesting);
    var all := done + [Member(q.value, r.value)];
    assert DistinctNames(all) by {
      forall a, b | 0 <= a < b < |all| ensures all[a].name != all[b].name {
      }
    }
    var k := SkipSpaces(s, r.next);
    if At(s, k) == COMMA {
      MembersDistinct(s, SkipSpaces(s, k + 1), nesting, all);
    }
  }

  lemma {:induction false} ObjectIsText(s: Bytes, k: nat, nesting: nat) returns (c: Cst)
    requires k < |s| && s[k] == OPEN_BRACE && ParseObject(s, k, nesting + 1).Ok? && nesting <= MAX_NESTING
    ensures Wf(c, nesting) && RootOk(c, s, k, nesting) && Has(s, k, Text(c))
    ensures ParseObject(s, k, nesting + 1) == Ok(Meaning(c), k + |Text(c)|)
    decreases |s| - k, 0
  {
    hide SkipSpaces, Has, EntriesText, EntriesWf, Text, Wf, EntryMembers, ParseMembers;
    var w := SpacesAre(s, k + 1);
    var i := SkipSpaces(s, k + 1);
    NoEntries();
    if At(s, i) == CLOSE_BRACE {
      c := CObject(w, []);
      HasOne(s, i, CLOSE_BRACE);
      HasConcat(s, k + 1, w, [CLOSE_BRACE]);
    } else {
      MembersDistinct(s, i, nesting + 1, []);
      var es := MembersAreText(s, i, nesting + 1, []);
      var all := PrependEntries(w, es, nesting + 1, s, k + 1);
      c := CObject([], all);
      assert [] + EntryMembers(es) == EntryMembers(es);
    }
    ObjectCst(s, k, nesting, c);
  }

  lemma OneEntry(e: Entry, nesting: nat)
    requires Spaces(e.before) && UnitsOk(e.name) && Spaces(e.beforeColon) && Spaces(e.afterColon)
    requires Spaces(e.after) && Wf(e.value, nesting)
    ensures EntriesWf([e], nesting) && EntryMembers([e]) == [Member(EntryName(e), Meaning(e.value))]
    ensures EntryTail([e]) == [CLOSE_BRACE]
  {
    hide Wf, Meaning, Spaces, UnitsOk, EntryName;
  }

  lemma MoreEntries(e: Entry, es: seq<Entry>, nesting: nat)
    requires Spaces(e.before) && UnitsOk(e.name) && Spaces(e.beforeColon) && Spaces(e.afterColon)
    requires Spaces(e.after) && Wf(e.value, nesting) && es != [] && EntriesWf(es, nesting)
    ensures EntriesWf([e] + es, nesting)
    ensures EntryMembers([e] + es) == [Member(EntryName(e), Meaning(e.value))] + EntryMembers(es)
    ensures EntryTail([e] + es) == [COMMA] + EntriesText(es)
  {
    hide Wf, Meaning, Spaces, UnitsOk, EntryName;
    assert ([e] + es)[1..] == es;
  }

  lemma AfterColonStands(es: seq<Entry>, s: Bytes, p: nat, k: nat, w: Bytes, text: Bytes, after: Bytes, tail: Bytes)
    requires es != [] && w == es[0].afterColon && text == Text(es[0].value) && after == es[0].after
    requires tail == EntryTail(es) && Has(s, p, w) && Has(s, p + |w|, text) && Has(s, p + |w| + |text|, after)
    requires k == p + |w| + |text| + |after| && Has(s, k, tail)
    ensures Has(s, p, AfterColon(es)) && p + |AfterColon(es)| == k + |tail|
  {
    AfterColonIs(es);
    hide Has, Text, EntryTail, AfterColon;
    HasFour(s, p, w, text, after, tail);
  }

  lemma AfterColonIs(es: seq<Entry>)
    requires es != []
    ensures AfterColon(es) == es[0].afterColon + (Text(es[0].value) + (es[0].after + EntryTail(es)))
  {
    hide Text, EntryTail;
  }

  /** An entry without white space in front, from where its parts stand. */
  lemma EntryStands(es: seq<Entry>, s: Bytes, i: nat, colon: nat, name: Bytes, gap: Bytes, rest: Bytes)
    requires es != [] && es[0].before == [] && name == LiteralText(es[0].name) && gap == es[0].beforeColon
    requires rest == AfterColon(es) && Has(s, i, name) && Has(s, i + |name|, gap) && Has(s, colon + 1, rest)
    requires colon == i + |name| + |gap| && colon < |s| && s[colon] == COLON
    ensures Has(s, i, EntriesText(es)) && i + |EntriesText(es)| == colon + 1 + |rest|
  {
    EntriesTextIs(es);
    hide Has, EntriesText, LiteralText, AfterColon;
    NameAndColonStand(s, i, name, gap, colon, rest);
    NothingInFront(name + (gap + ([COLON] + rest)));
  }

  lemma NameAndColonStand(s: Bytes, i: nat, name: Bytes, gap: Bytes, colon: nat, rest: Bytes)
    requires Has(s, i, name) && Has(s, i + |name|, gap) && colon == i + |name| + |gap|
    requires colon < |s| && s[colon] == COLON && Has(s, colon + 1, rest)
    ensures Has(s, i, name + (gap + ([COLON] + rest)))
    ensures |name + (gap + ([COLON] + rest))| == |name| + |gap| + 1 + |rest|
  {
    hide Has;
    HasOne(s, colon, COLON);
    HasFour(s, i, name, gap, [COLON], rest);
  }

  /** The parts of an entry stand one behind the other from `i` on, with its colon where it should be. */
  predicate PartsStand(s: Bytes, i: nat, e: Entry, colon: nat, k: nat) {
    && Has(s, i, LiteralText(e.name)) && Has(s, i + |LiteralText(e.name)|, e.beforeColon)
    && colon == i + |LiteralText(e.name)| + |e.beforeColon|
    && Has(s, colon + 1, e.afterColon) && Has(s, colon + 1 + |e.afterColon|, Text(e.value))
    && Has(s, colon + 1 + |e.afterColon| + |Text(e.value)|, e.after)
    && k == colon + 1 + |e.afterColon| + |Text(e.value)| + |e.after|
  }

  /** Where the colon is looked for behind the name at `i`. */
  function ColonOf(s: Bytes, i: nat): (colon: nat)
    requires i <= |s| && Strings.GetQuoted(s, i).Some?
    ensures i < colon <= |s|
  {
    SkipSpaces(s, Strings.GetQuoted(s, i).value.next)
  }

  /** One iteration of the member loop finds an entry at `i`, with a comma or a bracket behind it. */
  predicate EntryHere(s: Bytes, i: nat, nesting: nat)
    requires i <= |s|
  {
    && Strings.GetQuoted(s, i).Some? && At(s, ColonOf(s, i)) == COLON
    && ValueHere(s, ColonOf(s, i) + 1, nesting)
  }

  predicate ValueHere(s: Bytes, p: nat, nesting: nat)
    requires p <= |s|
  {
    && ParseValue(s, p, nesting).Ok?
    && At(s, SkipSpaces(s, ParseValue(s, p, nesting).next)) in {COMMA, CLOSE_BRACKET, CLOSE_BRACE}
  }

  /** What that iteration has read. */
  predicate EntryRead(s: Bytes, i: nat, nesting: nat, e: Entry, colon: nat, k: nat)
    requires i <= |s| && colon < |s|
  {
    && Strings.GetQuoted(s, i).Some? && ParseValue(s, colon + 1, nesting).Ok?
    && k == SkipSpaces(s, ParseValue(s, colon + 1, nesting).next) < |s|
    && e.before == [] && UnitsOk(e.name) && EntryName(e) == Strings.GetQuoted(s, i).value.value
    && Spaces(e.beforeColon) && Spaces(e.afterColon) && Spaces(e.after) && Wf(e.value, nesting)
    && ParseValue(s, colon + 1, nesting).value == Meaning(e.value)
    && PartsStand(s, i, e, colon, k)
  }

  lemma {:induction false} EntryAt(s: Bytes, i: nat, nesting: nat) returns (e: Entry, colon: nat, k: nat)
    requires i <= |s| && EntryHere(s, i, nesting)
    ensures colon == ColonOf(s, i) < |s| && EntryRead(s, i, nesting, e, colon, k)
    decreases |s| - i, 3
  {
    hide ParseValue, SkipSpaces, Has, Spaces, Wf, Meaning, Text, Strings.GetQuoted, LiteralText, LiteralValue, UnitsOk;
    var us := LiteralIsRead(s, i);
    var q := Strings.GetQuoted(s, i).value;
    var beforeColon := SpacesAre(s, q.next);
    colon := SkipSpaces(s, q.next);
    var it;
    it, k := ItemAt(s, colon + 1, nesting);
    e := Entry([], us, beforeColon, it.before, it.value, it.after);
  }

  lemma {:induction false} MembersAreText(s: Bytes, i: nat, nesting: nat, done: seq<Member>) returns (es: seq<Entry>)
    requires i <= |s| && ParseMembers(s, i, nesting, done).Ok?
    ensures es != [] && EntriesWf(es, nesting) && Has(s, i, EntriesText(es))
    ensures ParseMembers(s, i, nesting, done) == Ok(Object(done + EntryMembers(es)), i + |EntriesText(es)|)
    decreases |s| - i, 4
  {
    hide ParseValue, SkipSpaces, Has, Spaces, Wf, Meaning, Text, EntriesText, EntriesWf, EntryMembers, EntryTail,
      Strings.GetQuoted, LiteralText, LiteralValue, UnitsOk, Lookup, EntryName, AfterColon;
    var e, colon, k := EntryAt(s, i, nesting);
    var m := Member(EntryName(e), Meaning(e.value));
    EmptyIsSpaces();
    if s[k] == COMMA {
      var tail := MoreMembers(s, k, nesting, done + [m]);
      es := [e] + tail;
      MoreEntries(e, tail, nesting);
      HasCons(s, k, COMMA, EntriesText(tail));
      ConcatAssoc(done, [m], EntryMembers(tail));
    } else {
      es := [e];
      OneEntry(e, nesting);
      HasOne(s, k, CLOSE_BRACE);
    }
    AfterColonStands(es, s, colon + 1, k, e.afterColon, Text(e.value), e.after, EntryTail(es));
    EntryStands(es, s, i, colon, LiteralText(e.name), e.beforeColon, AfterColon(es));
  }

  /** The members behind a comma, with the white space in front of them. */
  lemma {:induction false} MoreMembers(s: Bytes, k: nat, nesting: nat, done: seq<Member>) returns (tail: seq<Entry>)
    requires k < |s| && ParseMembers(s, SkipSpaces(s, k + 1), nesting, done).Ok?
    ensures tail != [] && EntriesWf(tail, nesting) && Has(s, k + 1, EntriesText(tail))
    ensures ParseMembers(s, SkipSpaces(s, k + 1), nesting, done) ==
            Ok(Object(done + EntryMembers(tail)), k + 1 + |EntriesText(tail)|)
    decreases |s| - k - 1, 5
  {
    hide SkipSpaces, Has, Spaces, EntriesText, EntriesWf, EntryMembers, ParseMembers;
    var w := SpacesAre(s, k + 1);
    var more := MembersAreText(s, SkipSpaces(s, k + 1), nesting, done);
    tail := PrependEntries(w, more, nesting, s, k + 1);
  }

  lemma EmptyIsSpaces()
    ensures Spaces([])
  {
  }

  // ---------------------------------------------------------------- the theorem

  /**
   * The parser accepts exactly the grammar: `parse_value` at `i` returns `v` with the cursor at `j` if and
   * only if white space and a tree of the grammar meaning `v` stand between `i` and `j`, or `v` is the 0
   * of a bare minus sign at `j`.
   */
  lemma ParserMeetsGrammar(s: Bytes, i: nat, nesting: nat, v: Json, j: nat)
    requires i <= |s|
    ensures ParseValue(s, i, nesting) == Ok(v, j) <==>
            || (exists w, c ::
                  && Spaces(w) && Has(s, i, w) && Has(s, i + |w|, Text(c)) && RootOk(c, s, i + |w|, nesting)
                  && Meaning(c) == v && j == i + |w| + |Text(c)|)
            || (Unread(s, i, nesting) && v == Number(0.0) && j == SkipSpaces(s, i))
  {
    hide ParseValue, Text, Has, RootOk, Meaning, Spaces, SkipSpaces, Unread;
    StaysAtMinus(s, i, nesting);
    if ParseValue(s, i, nesting) == Ok(v, j) && j > SkipSpaces(s, i) {
      var w := SpacesAre(s, i);
      var c := ValueIsText(s, i, nesting);
    }
    if w, c :| Spaces(w) && Has(s, i, w) && Has(s, i + |w|, Text(c)) && RootOk(c, s, i + |w|, nesting)
               && Meaning(c) == v && j == i + |w| + |Text(c)| {
      SkipsSpaces(s, i, w);
      SkipFirst(s, i, nesting);
      RootParses(c, nesting, s, i + |w|);
    }
  }

  lemma RootParses(c: Cst, nesting: nat, s: Bytes, k: nat)
    requires RootOk(c, s, k, nesting) && Has(s, k, Text(c))
    ensures k < |s| && SkipSpaces(s, k) == k && ParseValue(s, k, nesting) == Ok(Meaning(c), k + |Text(c)|)
  {
    hide Wf, Text, Has, ParseValue, Meaning, SkipSpaces, NG.Stops;
    FirstByte(c, nesting, s, k);
    ValueParses(c, nesting, s, k);
  }
}
