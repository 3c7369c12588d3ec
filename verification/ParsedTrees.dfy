/** What holds of every tree the parser builds, and exactly when printing and parsing undo each other. */
module ParsedTrees {
  import opened Bytes
  import opened Json
  import opened Parser
  import opened Grammar
  import opened GrammarSound
  import Literals
  import Printer

  lemma {:induction false} MeaningKeepsInvariants(c: Cst, nesting: nat)
    requires Wf(c, nesting)
    ensures WellFormed(Meaning(c)) && Nests(Meaning(c), nesting)
    decreases c, 1
  {
    match c
    case CArray(_, items) => ItemsKeepInvariants(items, nesting + 1);
    case CObject(_, es) => EntriesKeepInvariants(es, nesting + 1);
    case _ =>
  }

  lemma {:induction false} ItemsKeepInvariants(items: seq<Item>, nesting: nat)
    requires ItemsWf(items, nesting)
    ensures forall k | 0 <= k < |ItemValues(items)| ::
              WellFormed(ItemValues(items)[k]) && Nests(ItemValues(items)[k], nesting)
    decreases items, 0
  {
    hide Wf, Meaning, WellFormed, Nests, Spaces;
    if items != [] {
      MeaningKeepsInvariants(items[0].value, nesting);
      ItemsKeepInvariants(items[1..], nesting);
    }
  }

  lemma {:induction false} EntriesKeepInvariants(es: seq<Entry>, nesting: nat)
    requires EntriesWf(es, nesting)
    ensures forall k | 0 <= k < |EntryMembers(es)| ::
              && NulFree(EntryMembers(es)[k].name)
              && WellFormed(EntryMembers(es)[k].value) && Nests(EntryMembers(es)[k].value, nesting)
    decreases es, 0
  {
    hide Wf, Meaning, WellFormed, Nests, Spaces, NulFree;
    if es != [] {
      MeaningKeepsInvariants(es[0].value, nesting);
      EntriesKeepInvariants(es[1..], nesting);
      assert NulFree(EntryName(es[0])) by { NameIsCString(es[0]); }
      hide EntryName;
    }
  }

  lemma NameIsCString(e: Entry)
    ensures NulFree(EntryName(e))
  {
    hide Literals.UnitsOk, Literals.LiteralValue;
  }

  /** Every tree that comes out of the parser has distinct names, C strings, and bounded nesting. */
  lemma ParsedIsWellFormed(s: Bytes, i: nat, nesting: nat)
    requires i <= |s| && ParseValue(s, i, nesting).Ok?
    ensures WellFormed(ParseValue(s, i, nesting).value) && Nests(ParseValue(s, i, nesting).value, nesting)
  {
    hide ParseValue, Has, Text, RootOk, Unread;
    StaysAtMinus(s, i, nesting);
    if ParseValue(s, i, nesting).next > SkipSpaces(s, i) {
      var c := ValueIsText(s, i, nesting);
      RootIsWf(c, s, SkipSpaces(s, i), nesting);
      MeaningKeepsInvariants(c, nesting);
    } else {
      UnreadNesting(s, i, nesting);
    }
  }

  lemma UnreadNesting(s: Bytes, i: nat, nesting: nat)
    requires i <= |s| && Unread(s, i, nesting)
    ensures nesting <= MAX_NESTING
  {
  }

  /**
   * Compact or pretty, the printed text of a tree of integer numbers parses back to that tree if and
   * only if names are distinct, strings are C strings, and no value has more than 2048 containers around it.
   */
  lemma RoundTripExactly(v: Json, pretty: bool)
    requires IntegerNumbers(v)
    ensures ParseString(Printer.Print(v, 0, pretty)) == Ok(v, |Printer.Print(v, 0, pretty)|) <==>
            WellFormed(v) && Nests(v, 0)
  {
    hide ParseValue, Printer.Print;
    var t := Printer.Print(v, 0, pretty);
    if WellFormed(v) && Nests(v, 0) {
      Printer.RoundTrip(v, pretty);
    }
    if ParseString(t) == Ok(v, |t|) {
      ParsedIsWellFormed(t, if Has(t, 0, [0xEF, 0xBB, 0xBF]) then 3 else 0, 0);
    }
  }

  /**
   * The whole parse leaves the cursor at the start of the value exactly at a bare minus sign, behind the
   * byte order mark and white space, and returns 0 there.
   */
  lemma BareMinusIsZero(s: Bytes)
    ensures var start := if Has(s, 0, [0xEF, 0xBB, 0xBF]) then 3 else 0;
            && (ParseString(s).Ok? && ParseString(s).next <= SkipSpaces(s, start) <==> Unread(s, start, 0))
            && (Unread(s, start, 0) ==> ParseString(s) == Ok(Number(0.0), SkipSpaces(s, start)))
  {
    hide ParseValue, Unread, SkipSpaces;
    StaysAtMinus(s, if Has(s, 0, [0xEF, 0xBB, 0xBF]) then 3 else 0, 0);
  }
}
