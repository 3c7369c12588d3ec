/** Every text of the grammar is parsed, to the tree it means and up to its end. */
module GrammarComplete {
  import opened Bytes
  import opened Json
  import opened Literals
  import opened Parser
  import opened Grammar
  import Strings
  import N = Numbers
  import NG = NumberGrammar

  lemma {:induction false} SkipsSpaces(s: Bytes, i: nat, w: Bytes)
    requires Has(s, i, w) && Spaces(w)
    ensures i + |w| <= |s| && SkipSpaces(s, i) == SkipSpaces(s, i + |w|)
    decreases |w|
  {
    if w != [] {
      assert s[i + 0] == w[0];
      assert [w[0]] + w[1..] == w;
      HasCons(s, i, w[0], w[1..]);
      SkipsSpaces(s, i + 1, w[1..]);
    }
  }

  /** The parser's words, white space and limit are those of the grammar. */
  lemma SameWords()
    ensures NULL_TEXT == NULL_WORD && TRUE_TEXT == TRUE_WORD && FALSE_TEXT == FALSE_WORD
    ensures forall b: byte :: IsSpace(b) <==> b in WHITE
    ensures MAX_NESTING == DEPTH
  {
  }

  predicate Starts(b: byte) {
    !IsSpace(b) && b != CLOSE_BRACKET && b != CLOSE_BRACE
  }

  /** A value starts with a byte that is neither white space nor a closing bracket. */
  lemma FirstByte(c: Cst, nesting: nat, s: Bytes, i: nat)
    requires Wf(c, nesting) && Has(s, i, Text(c))
    ensures i < |s| && Starts(s[i]) && SkipSpaces(s, i) == i
    ensures Text(c) != [] && s[i] == Text(c)[0]
  {
    if c.CNumber? {
      NG.TokenStarts(c.parts);
    }
    hide NG.PartsText, NG.TokenOk;
    assert Text(c) != [] && Starts(Text(c)[0]);
    assert s[i + 0] == Text(c)[0];
  }

  lemma ScalarParses(c: Cst, nesting: nat, s: Bytes, i: nat)
    requires Wf(c, nesting) && Has(s, i, Text(c)) && !c.CArray? && !c.CObject?
    requires c.CNumber? ==> i + |Text(c)| <= |s| && NG.Stops(s, i + |Text(c)|, c.parts)
    ensures i < |s| && s[i] != OPEN_BRACE && s[i] != OPEN_BRACKET
    ensures ParseScalar(s, i) == Ok(Meaning(c), i + |Text(c)|)
  {
    hide Strings.GetQuoted, N.ParseNumber, NG.PartsText, NG.PartsDouble, NG.PartsOk, NG.TokenOk, NG.Stops, UnitsText,
      UnitsValue, UnitsOk, CView;
    FirstByte(c, nesting, s, i);
    match c
    case CNumber(p) => NG.TokenPartsOk(p); NG.TokenReads(p, s, i);
    case CString(us) => LiteralReads(us, s, i);
    case CFalse => NotTrue(s, i);
    case _ =>
  }

  lemma NotTrue(s: Bytes, i: nat)
    requires i < |s| && s[i] == 102
    ensures !Has(s, i, TRUE_TEXT)
  {
    assert TRUE_TEXT[0] == 116 && s[i + 0] == 102;
  }

  /** A container of the grammar: its bracket, and the position behind it. */
  lemma ContainerOpens(c: Cst, nesting: nat, s: Bytes, i: nat)
    requires (c.CArray? || c.CObject?) && Wf(c, nesting) && Has(s, i, Text(c))
    ensures i < |s| && SkipSpaces(s, i) == i && s[i] == if c.CArray? then OPEN_BRACKET else OPEN_BRACE
    ensures Has(s, i + 1, Text(c)[1..]) && Text(c) == [Text(c)[0]] + Text(c)[1..]
  {
    FirstByte(c, nesting, s, i);
    assert s[i + 0] == Text(c)[0];
    HasCons(s, i, Text(c)[0], Text(c)[1..]);
  }

  /** White space and then a byte that is none: where the parser's skip ends. */
  lemma SkipsTo(s: Bytes, i: nat, w: Bytes, t: Bytes)
    requires Has(s, i, w + t) && Spaces(w) && t != [] && !IsSpace(t[0])
    ensures i + |w| + |t| <= |s| && SkipSpaces(s, i) == i + |w| && s[i + |w|] == t[0] && Has(s, i + |w|, t)
  {
    HasConcat(s, i, w, t);
    SkipsSpaces(s, i, w);
    assert s[i + |w| + 0] == t[0];
  }

  /** White space in front of a value changes nothing. */
  lemma SkipFirst(s: Bytes, i: nat, nesting: nat)
    requires i <= |s|
    ensures ParseValue(s, i, nesting) == ParseValue(s, SkipSpaces(s, i), nesting)
  {
    SkipTwice(s, i);
    hide ParseObject, ParseArray, ParseScalar, SkipSpaces;
  }

  lemma SkipTwice(s: Bytes, i: nat)
    requires i <= |s|
    ensures SkipSpaces(s, SkipSpaces(s, i)) == SkipSpaces(s, i)
  {
  }

  lemma {:induction false} ValueParses(c: Cst, nesting: nat, s: Bytes, i: nat)
    requires Wf(c, nesting) && Has(s, i, Text(c))
    requires c.CNumber? ==> i + |Text(c)| <= |s| && NG.Stops(s, i + |Text(c)|, c.parts)
    ensures i <= |s| && ParseValue(s, i, nesting) == Ok(Meaning(c), i + |Text(c)|)
    decreases c, 1
  {
    if c.CArray? {
      ArrayParses(c, nesting, s, i);
    } else if c.CObject? {
      ObjectParses(c, nesting, s, i);
    } else {
      hide ParseScalar, Text, Wf, Meaning, SkipSpaces, ParseArray, ParseObject;
      assert nesting <= MAX_NESTING by {
        WfNesting(c, nesting);
      }
      ScalarParses(c, nesting, s, i);
      FirstByte(c, nesting, s, i);
    }
  }

  /** Inside a container something always ends a number. */
  lemma {:induction false} ValueParsesInside(c: Cst, nesting: nat, s: Bytes, i: nat)
    requires Wf(c, nesting) && Has(s, i, Text(c)) && i + |Text(c)| <= |s| && NG.Ends(At(s, i + |Text(c)|))
    ensures ParseValue(s, i, nesting) == Ok(Meaning(c), i + |Text(c)|)
    decreases c, 2
  {
    hide Wf, Text, Meaning, ParseValue, Has, NG.Stops, NG.Ends;
    if c.CNumber? {
      NG.EndsStops(s, i + |Text(c)|, c.parts);
    }
    ValueParses(c, nesting, s, i);
  }

  lemma WfNesting(c: Cst, nesting: nat)
    requires Wf(c, nesting)
    ensures nesting <= MAX_NESTING
  {
  }

  /** `parse_value` at an opening bracket. */
  lemma ArrayOpens(s: Bytes, i: nat, nesting: nat)
    requires i < |s| && SkipSpaces(s, i) == i && s[i] == OPEN_BRACKET && nesting <= MAX_NESTING
    ensures ParseValue(s, i, nesting) ==
            var j := SkipSpaces(s, i + 1);
            if At(s, j) == CLOSE_BRACKET then Ok(Array([]), j + 1) else ParseElements(s, j, nesting + 1, [])
  {
    hide SkipSpaces, ParseElements;
  }

  lemma ObjectOpens(s: Bytes, i: nat, nesting: nat)
    requires i < |s| && SkipSpaces(s, i) == i && s[i] == OPEN_BRACE && nesting <= MAX_NESTING
    ensures ParseValue(s, i, nesting) ==
            var j := SkipSpaces(s, i + 1);
            if At(s, j) == CLOSE_BRACE then Ok(Object([]), j + 1) else ParseMembers(s, j, nesting + 1, [])
  {
    hide SkipSpaces, ParseMembers;
  }

  lemma ArrayText(c: Cst, nesting: nat)
    requires c.CArray? && Wf(c, nesting)
    ensures nesting <= MAX_NESTING && Spaces(c.gap) && ItemsWf(c.items, nesting + 1)
    ensures |Text(c)| > 0 && Text(c)[1..] == if c.items == [] then c.gap + [CLOSE_BRACKET] else ItemsText(c.items)
    ensures c.items == [] ==> Meaning(c) == Array([])
    ensures Meaning(c) == Array([] + ItemValues(c.items))
  {
    hide ItemsText, ItemsWf, Spaces;
    assert [] + ItemValues(c.items) == ItemValues(c.items);
  }

  lemma ObjectText(c: Cst, nesting: nat)
    requires c.CObject? && Wf(c, nesting)
    ensures nesting <= MAX_NESTING && Spaces(c.gap) && EntriesWf(c.entries, nesting + 1)
    ensures |Text(c)| > 0 && Text(c)[1..] == if c.entries == [] then c.gap + [CLOSE_BRACE] else EntriesText(c.entries)
    ensures c.entries == [] ==> Meaning(c) == Object([])
    ensures Meaning(c) == Object([] + EntryMembers(c.entries)) && DistinctNames([] + EntryMembers(c.entries))
  {
    hide EntriesText, EntriesWf, Spaces;
    assert [] + EntryMembers(c.entries) == EntryMembers(c.entries);
  }

  lemma {:induction false} ArrayParses(c: Cst, nesting: nat, s: Bytes, i: nat)
    requires c.CArray? && Wf(c, nesting) && Has(s, i, Text(c))
    ensures i <= |s| && ParseValue(s, i, nesting) == Ok(Meaning(c), i + |Text(c)|)
    decreases c, 0
  {
    hide Has, SkipSpaces, Spaces, Text, Wf, ItemsWf, Meaning, ItemsText, ItemValues, ParseElements, ParseValue,
      N.ParseNumber, NG.PartsDouble, NG.TokenOk;
    ContainerOpens(c, nesting, s, i);
    ArrayText(c, nesting);
    ArrayOpens(s, i, nesting);
    if c.items == [] {
      SkipsTo(s, i + 1, c.gap, [CLOSE_BRACKET]);
    } else {
      ItemsParse(c.items, nesting + 1, s, i + 1, []);
    }
  }

  lemma {:induction false} ObjectParses(c: Cst, nesting: nat, s: Bytes, i: nat)
    requires c.CObject? && Wf(c, nesting) && Has(s, i, Text(c))
    ensures i <= |s| && ParseValue(s, i, nesting) == Ok(Meaning(c), i + |Text(c)|)
    decreases c, 0
  {
    hide Has, SkipSpaces, Spaces, Text, Wf, EntriesWf, Meaning, EntriesText, EntryMembers, ParseMembers, ParseValue,
      DistinctNames;
    ContainerOpens(c, nesting, s, i);
    ObjectText(c, nesting);
    ObjectOpens(s, i, nesting);
    if c.entries == [] {
      SkipsTo(s, i + 1, c.gap, [CLOSE_BRACE]);
    } else {
      EntriesParse(c.entries, nesting + 1, s, i + 1, []);
    }
  }

  // ---------------------------------------------------------------- arrays

  /** What stands behind the first item: the closing bracket, or a comma and the other items. */
  function ItemTail(items: seq<Item>): (t: Bytes)
    requires items != []
    ensures t != [] && t[0] == if |items| == 1 then CLOSE_BRACKET else COMMA
  {
    if |items| == 1 then [CLOSE_BRACKET] else [COMMA] + ItemsText(items[1..])
  }

  lemma ItemsTextIs(items: seq<Item>)
    requires items != []
    ensures ItemsText(items) == items[0].before + (Text(items[0].value) + (items[0].after + ItemTail(items)))
  {
    hide Text;
  }

  /** White space, a comma or a closing bracket ends a number. */
  lemma EndsBehind(s: Bytes, i: nat, w: Bytes, t: Bytes)
    requires Has(s, i, w + t) && Spaces(w) && t != [] && t[0] in {COMMA, CLOSE_BRACKET, CLOSE_BRACE}
    ensures i < |s| && NG.Ends(At(s, i))
  {
    assert s[i + 0] == (w + t)[0];
  }

  /** A value between white space, at `v`, and what the cursor finds behind it, at `k`. */
  lemma ValueLayout(before: Bytes, c: Cst, nesting: nat, after: Bytes, tail: Bytes, s: Bytes, p: nat)
      returns (v: nat, a: nat, k: nat)
    requires Has(s, p, before + (Text(c) + (after + tail))) && Spaces(before) && Wf(c, nesting) && Spaces(after)
    requires tail != [] && tail[0] in {COMMA, CLOSE_BRACKET, CLOSE_BRACE}
    ensures p <= v < |s| && SkipSpaces(s, p) == v && Starts(s[v]) && Has(s, v, Text(c))
    ensures a == v + |Text(c)| <= |s| && NG.Ends(At(s, a))
    ensures a <= k < |s| && SkipSpaces(s, a) == k && s[k] == tail[0] && Has(s, k, tail)
    ensures k + |tail| == p + |before + (Text(c) + (after + tail))|
  {
    hide Has, SkipSpaces, Text, Wf, Spaces, Starts;
    HasFour(s, p, before, Text(c), after, tail);
    v := p + |before|;
    SkipsSpaces(s, p, before);
    FirstByte(c, nesting, s, v);
    a := v + |Text(c)|;
    k := a + |after|;
    assert !IsSpace(tail[0]);
    HasConcat(s, a, after, tail);
    SkipsTo(s, a, after, tail);
    EndsBehind(s, a, after, tail);
  }

  lemma ItemLayout(items: seq<Item>, nesting: nat, s: Bytes, p: nat) returns (v: nat, a: nat, k: nat)
    requires items != [] && ItemsWf(items, nesting) && Has(s, p, ItemsText(items))
    ensures p <= v < |s| && SkipSpaces(s, p) == v && Starts(s[v]) && Has(s, v, Text(items[0].value))
    ensures a == v + |Text(items[0].value)| <= |s| && NG.Ends(At(s, a))
    ensures a <= k < |s| && SkipSpaces(s, a) == k && s[k] == ItemTail(items)[0] && Has(s, k, ItemTail(items))
    ensures k + |ItemTail(items)| == p + |ItemsText(items)|
  {
    ItemsTextIs(items);
    hide Has, SkipSpaces, Text, Wf, Spaces, Starts, ItemsText, ItemTail;
    v, a, k := ValueLayout(items[0].before, items[0].value, nesting, items[0].after, ItemTail(items), s, p);
  }

  /** One iteration of the element loop. */
  lemma ElementsStep(s: Bytes, v: nat, nesting: nat, done: seq<Json>, m: Json, a: nat, k: nat)
    requires v <= |s| && ParseValue(s, v, nesting) == Ok(m, a) && SkipSpaces(s, a) == k && k < |s|
    ensures s[k] == COMMA ==>
              ParseElements(s, v, nesting, done) == ParseElements(s, SkipSpaces(s, k + 1), nesting, done + [m])
    ensures s[k] == CLOSE_BRACKET ==> ParseElements(s, v, nesting, done) == Ok(Array(done + [m]), k + 1)
  {
    hide ParseValue, SkipSpaces;
  }

  lemma ItemsUnfold(items: seq<Item>, nesting: nat)
    requires items != [] && ItemsWf(items, nesting)
    ensures Wf(items[0].value, nesting) && (|items| > 1 ==> ItemsWf(items[1..], nesting))
    ensures ItemValues(items) == [Meaning(items[0].value)] + ItemValues(items[1..])
    ensures |items| == 1 ==> ItemValues(items) == [Meaning(items[0].value)]
  {
    hide Meaning, Wf, Spaces;
  }

  lemma {:induction false} ItemsParse(items: seq<Item>, nesting: nat, s: Bytes, p: nat, done: seq<Json>)
    requires items != [] && ItemsWf(items, nesting) && Has(s, p, ItemsText(items))
    ensures p <= |s| && At(s, SkipSpaces(s, p)) != CLOSE_BRACKET
    ensures ParseElements(s, SkipSpaces(s, p), nesting, done) ==
            Ok(Array(done + ItemValues(items)), p + |ItemsText(items)|)
    decreases items, 0
  {
    hide Has, SkipSpaces, Text, Wf, Spaces, ParseValue, Meaning, ItemsText, ParseElements, ItemsWf, ItemValues;
    var v, a, k := ItemLayout(items, nesting, s, p);
    ItemsUnfold(items, nesting);
    ValueParsesInside(items[0].value, nesting, s, v);
    var m := Meaning(items[0].value);
    ElementsStep(s, v, nesting, done, m, a, k);
    if |items| > 1 {
      HasCons(s, k, COMMA, ItemsText(items[1..]));
      ItemsParse(items[1..], nesting, s, k + 1, done + [m]);
      ConcatAssoc(done, [m], ItemValues(items[1..]));
    }
  }

  // ---------------------------------------------------------------- objects

  /** What stands behind the first entry. */
  function EntryTail(es: seq<Entry>): (t: Bytes)
    requires es != []
    ensures t != [] && t[0] == if |es| == 1 then CLOSE_BRACE else COMMA
  {
    if |es| == 1 then [CLOSE_BRACE] else [COMMA] + EntriesText(es[1..])
  }

  /** What stands behind the first colon. */
  function AfterColon(es: seq<Entry>): Bytes
    requires es != []
  {
    es[0].afterColon + (Text(es[0].value) + (es[0].after + EntryTail(es)))
  }

  lemma EntriesTextIs(es: seq<Entry>)
    requires es != []
    ensures EntriesText(es) ==
            es[0].before + (LiteralText(es[0].name) + (es[0].beforeColon + ([COLON] + AfterColon(es))))
  {
    hide Text, LiteralText;
  }

  lemma LiteralStarts(us: seq<Unit>, s: Bytes, i: nat)
    requires Has(s, i, LiteralText(us))
    ensures i < |s| && s[i] == QUOTE && SkipSpaces(s, i) == i
  {
    assert s[i + 0] == LiteralText(us)[0];
  }

  /** A name, at `i`, and the colon behind it. */
  lemma NameInText(before: Bytes, us: seq<Unit>, gap: Bytes, rest: Bytes, s: Bytes, p: nat) returns (i: nat, colon: nat)
    requires Has(s, p, before + (LiteralText(us) + (gap + ([COLON] + rest)))) && Spaces(before) && Spaces(gap)
    ensures p <= i < |s| && SkipSpaces(s, p) == i && s[i] == QUOTE && Has(s, i, LiteralText(us))
    ensures i + |LiteralText(us)| <= |s| && SkipSpaces(s, i + |LiteralText(us)|) == colon
    ensures i < colon < |s| && s[colon] == COLON && Has(s, colon + 1, rest)
    ensures colon + 1 + |rest| == p + |before + (LiteralText(us) + (gap + ([COLON] + rest)))|
  {
    hide Has, SkipSpaces, LiteralText, Spaces;
    HasFour(s, p, before, LiteralText(us), gap, [COLON] + rest);
    i := p + |before|;
    colon := i + |LiteralText(us)| + |gap|;
    HasCons(s, colon, COLON, rest);
    LiteralStarts(us, s, i);
    SkipsSpaces(s, p, before);
    HasConcat(s, i + |LiteralText(us)|, gap, [COLON] + rest);
    SkipsTo(s, i + |LiteralText(us)|, gap, [COLON] + rest);
  }

  /** The name of the first entry, at `i`, and the colon behind it. */
  lemma NameLayout(es: seq<Entry>, nesting: nat, s: Bytes, p: nat) returns (i: nat, colon: nat)
    requires es != [] && EntriesWf(es, nesting) && Has(s, p, EntriesText(es))
    ensures p <= i < |s| && SkipSpaces(s, p) == i && s[i] == QUOTE && Has(s, i, LiteralText(es[0].name))
    ensures i + |LiteralText(es[0].name)| <= |s| && SkipSpaces(s, i + |LiteralText(es[0].name)|) == colon
    ensures i < colon < |s| && s[colon] == COLON && Has(s, colon + 1, AfterColon(es))
    ensures colon + 1 + |AfterColon(es)| == p + |EntriesText(es)|
  {
    EntriesTextIs(es);
    hide Has, SkipSpaces, LiteralText, AfterColon, EntriesText, Spaces, Wf, UnitsOk;
    i, colon := NameInText(es[0].before, es[0].name, es[0].beforeColon, AfterColon(es), s, p);
  }

  /** The first entry: where its parts stand and what the parser makes of them. */
  lemma {:induction false} EntryParses(es: seq<Entry>, nesting: nat, s: Bytes, p: nat)
    returns (i: nat, colon: nat, a: nat, k: nat)
    requires es != [] && EntriesWf(es, nesting) && Has(s, p, EntriesText(es))
    ensures p <= i < |s| && SkipSpaces(s, p) == i && s[i] == QUOTE
    ensures Strings.GetQuoted(s, i).Some? && Strings.GetQuoted(s, i).value.value == EntryName(es[0])
    ensures colon < |s| && SkipSpaces(s, Strings.GetQuoted(s, i).value.next) == colon && s[colon] == COLON
    ensures ParseValue(s, colon + 1, nesting) == Ok(Meaning(es[0].value), a)
    ensures a <= k < |s| && SkipSpaces(s, a) == k && s[k] == EntryTail(es)[0] && Has(s, k, EntryTail(es))
    ensures k + |EntryTail(es)| == p + |EntriesText(es)|
    decreases es, 0
  {
    hide Has, SkipSpaces, LiteralText, Text, Wf, ParseValue, Meaning, Strings.GetQuoted, EntriesText, EntryTail,
      UnitsOk;
    i, colon := NameLayout(es, nesting, s, p);
    var e := es[0];
    LiteralReads(e.name, s, i);
    var v;
    v, a, k := ValueLayout(e.afterColon, e.value, nesting, e.after, EntryTail(es), s, colon + 1);
    ValueParsesInside(e.value, nesting, s, v);
    SkipFirst(s, colon + 1, nesting);
  }

  /** One iteration of the member loop. */
  lemma MembersStep(s: Bytes, i: nat, nesting: nat, done: seq<Member>, name: Bytes, m: Json, colon: nat, a: nat, k: nat)
    requires i <= |s| && Strings.GetQuoted(s, i).Some? && Strings.GetQuoted(s, i).value.value == name
    requires SkipSpaces(s, Strings.GetQuoted(s, i).value.next) == colon && colon < |s| && s[colon] == COLON
    requires ParseValue(s, colon + 1, nesting) == Ok(m, a) && SkipSpaces(s, a) == k && k < |s|
    requires Lookup(done, name).None?
    ensures s[k] == COMMA ==>
              ParseMembers(s, i, nesting, done) ==
              ParseMembers(s, SkipSpaces(s, k + 1), nesting, done + [Member(name, m)])
    ensures s[k] == CLOSE_BRACE ==>
              ParseMembers(s, i, nesting, done) == Ok(Object(done + [Member(name, m)]), k + 1)
  {
    hide ParseValue, SkipSpaces, Strings.GetQuoted, Lookup;
  }

  lemma EntriesUnfold(es: seq<Entry>, nesting: nat)
    requires es != [] && EntriesWf(es, nesting)
    ensures |es| > 1 ==> EntriesWf(es[1..], nesting)
    ensures EntryMembers(es) == [Member(EntryName(es[0]), Meaning(es[0].value))] + EntryMembers(es[1..])
    ensures |es| == 1 ==> EntryMembers(es) == [Member(EntryName(es[0]), Meaning(es[0].value))]
  {
    hide Meaning, Wf, Spaces, EntryName, UnitsOk;
  }

  lemma {:induction false} EntriesParse(es: seq<Entry>, nesting: nat, s: Bytes, p: nat, done: seq<Member>)
    requires es != [] && EntriesWf(es, nesting) && Has(s, p, EntriesText(es))
    requires DistinctNames(done + EntryMembers(es))
    ensures p <= |s| && At(s, SkipSpaces(s, p)) != CLOSE_BRACE
    ensures ParseMembers(s, SkipSpaces(s, p), nesting, done) ==
            Ok(Object(done + EntryMembers(es)), p + |EntriesText(es)|)
    decreases es, 1
  {
    hide Has, SkipSpaces, LiteralText, Text, Wf, ParseValue, Meaning, Strings.GetQuoted, Lookup, EntryName,
      EntriesText, DistinctNames, Spaces, UnitsOk, ParseMembers, EntriesWf, EntryMembers;
    var i, colon, a, k := EntryParses(es, nesting, s, p);
    EntriesUnfold(es, nesting);
    var m := Member(EntryName(es[0]), Meaning(es[0].value));
    NewName(done, m, EntryMembers(es[1..]));
    MembersStep(s, i, nesting, done, m.name, m.value, colon, a, k);
    if |es| > 1 {
      HasCons(s, k, COMMA, EntriesText(es[1..]));
      EntriesParse(es[1..], nesting, s, k + 1, done + [m]);
    }
  }

  lemma NewName(done: seq<Member>, m: Member, rest: seq<Member>)
    requires DistinctNames(done + ([m] + rest))
    ensures Lookup(done, m.name).None?
    ensures done + [m] + rest == done + ([m] + rest)
  {
    var all := done + ([m] + rest);
    forall i | 0 <= i < |done| ensures done[i].name != m.name {
      assert all[i] == done[i] && all[|done|] == m;
    }
  }
}
