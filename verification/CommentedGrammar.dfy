/** Comment blanking leaves every text of the JSON grammar, and so every printed text, unchanged. */
module CommentedGrammar {
  import opened Bytes
  import opened Literals
  import opened CommentedJson
  import opened CommentedPasses
  import opened HarmlessLines
  import opened Grammar
  import opened GrammarComplete
  import Comments
  import Json
  import P = Parser
  import D = Doubles
  import NG = NumberGrammar
  import Printer

  function Codes(t: Bytes): (ps: seq<Piece>)
    ensures |ps| == |t|
  {
    if t == [] then [] else [Code(t[0])] + Codes(t[1..])
  }

  predicate PlainText(t: Bytes) {
    forall k | 0 <= k < |t| :: PlainByte(t[k])
  }

  /** The pieces of a grammar text: every string literal one piece, every other byte one. No comments. */
  function Pieces(c: Cst): seq<Piece>
    decreases c, 1
  {
    match c
    case CString(us) => [Lit(us)]
    case CArray(gap, items) =>
      Codes([OPEN_BRACKET]) + (if items == [] then Codes(gap) + Codes([CLOSE_BRACKET]) else ItemPieces(items))
    case CObject(gap, es) =>
      Codes([OPEN_BRACE]) + (if es == [] then Codes(gap) + Codes([CLOSE_BRACE]) else EntryPieces(es))
    case _ => Codes(Text(c))
  }

  function ItemPieces(items: seq<Item>): seq<Piece>
    requires items != []
    decreases items, 0
  {
    Codes(items[0].before) + (Pieces(items[0].value) + (Codes(items[0].after) +
      (if |items| == 1 then Codes([CLOSE_BRACKET]) else Codes([COMMA]) + ItemPieces(items[1..]))))
  }

  function EntryPieces(es: seq<Entry>): seq<Piece>
    requires es != []
    decreases es, 0
  {
    Codes(es[0].before) + ([Lit(es[0].name)] + (Codes(es[0].beforeColon) + (Codes([COLON]) + (Codes(es[0].afterColon) +
      (Pieces(es[0].value) + (Codes(es[0].after) +
        (if |es| == 1 then Codes([CLOSE_BRACE]) else Codes([COMMA]) + EntryPieces(es[1..]))))))))
  }

  predicate NoComments(ps: seq<Piece>) {
    forall i | 0 <= i < |ps| :: ps[i].Code? || ps[i].Lit?
  }

  /** `ps` are sound pieces of `t` among which there is no comment. */
  ghost predicate Stand(ps: seq<Piece>, t: Bytes) {
    PiecesOk(ps) && NoComments(ps) && forall b: bool, l: bool :: Render(ps, b, l) == t
  }

  lemma {:induction false} RenderConcat(ps: seq<Piece>, qs: seq<Piece>, b: bool, l: bool)
    ensures Render(ps + qs, b, l) == Render(ps, b, l) + Render(qs, b, l)
  {
    hide RenderOne;
    if ps == [] {
      assert ps + qs == qs;
    } else {
      RenderConcat(ps[1..], qs, b, l);
      assert (ps + qs)[1..] == ps[1..] + qs;
    }
  }

  lemma JoinStand(ps: seq<Piece>, t: Bytes, qs: seq<Piece>, u: Bytes)
    requires Stand(ps, t) && Stand(qs, u)
    ensures Stand(ps + qs, t + u)
  {
    hide Render, PieceOk;
    forall b: bool, l: bool ensures Render(ps + qs, b, l) == t + u {
      RenderConcat(ps, qs, b, l);
    }
  }

  lemma {:induction false} CodesStand(t: Bytes)
    requires PlainText(t)
    ensures Stand(Codes(t), t)
  {
    if t != [] {
      CodesStand(t[1..]);
      OneStands(Code(t[0]), [t[0]]);
      JoinStand([Code(t[0])], [t[0]], Codes(t[1..]), t[1..]);
      assert t == [t[0]] + t[1..];
    }
  }

  lemma OneStands(p: Piece, t: Bytes)
    requires PieceOk(p) && (p.Code? || p.Lit?) && RenderOne(p, false, false) == t
    ensures Stand([p], t)
  {
    hide LiteralText, UnitsOk;
    forall b: bool, l: bool ensures Render([p], b, l) == t {
      assert [p][1..] == [];
      assert Render([p], b, l) == RenderOne(p, b, l) + [];
    }
  }

  lemma SpacesArePlain(w: Bytes)
    requires Spaces(w)
    ensures PlainText(w)
  {
  }

  /** Number tokens hold digits, a sign, a dot and an exponent letter, nothing else. */
  lemma PartsArePlain(p: NG.Parts)
    requires NG.TokenOk(p)
    ensures PlainText(NG.PartsText(p))
  {
    hide D.OutOfRange, NG.PartsValue;
    assert PlainText(p.sign) && PlainText(p.integer);
    assert PlainText(NG.FractionText(p.fraction));
    assert PlainText(NG.ExponentText(p.exponent));
    hide NG.FractionText, NG.ExponentText;
  }

  lemma {:induction false} CstStands(c: Cst, nesting: nat)
    requires Wf(c, nesting)
    ensures Stand(Pieces(c), Text(c))
    decreases c, 1
  {
    hide Stand, Codes, LiteralText, UnitsOk, ItemsText, EntriesText, ItemPieces, EntryPieces, ItemsWf, EntriesWf,
      Spaces, NG.PartsText, NG.TokenOk;
    match c
    case CNumber(p) =>
      PartsArePlain(p);
      CodesStand(NG.PartsText(p));
    case CString(us) => LiteralStands(us);
    case CArray(gap, items) =>
      CodesStand([OPEN_BRACKET]);
      if items == [] {
        EmptyStands(gap, CLOSE_BRACKET);
        JoinStand(Codes([OPEN_BRACKET]), [OPEN_BRACKET], Codes(gap) + Codes([CLOSE_BRACKET]), gap + [CLOSE_BRACKET]);
      } else {
        ItemsStand(items, nesting + 1);
        JoinStand(Codes([OPEN_BRACKET]), [OPEN_BRACKET], ItemPieces(items), ItemsText(items));
      }
    case CObject(gap, es) =>
      CodesStand([OPEN_BRACE]);
      if es == [] {
        EmptyStands(gap, CLOSE_BRACE);
        JoinStand(Codes([OPEN_BRACE]), [OPEN_BRACE], Codes(gap) + Codes([CLOSE_BRACE]), gap + [CLOSE_BRACE]);
      } else {
        EntriesStand(es, nesting + 1);
        JoinStand(Codes([OPEN_BRACE]), [OPEN_BRACE], EntryPieces(es), EntriesText(es));
      }
    case _ => CodesStand(Text(c));
  }

  lemma LiteralStands(us: seq<Unit>)
    requires UnitsOk(us)
    ensures Stand([Lit(us)], LiteralText(us))
  {
    hide LiteralText, UnitsOk, Stand;
    OneStands(Lit(us), LiteralText(us));
  }

  lemma EmptyStands(gap: Bytes, close: byte)
    requires Spaces(gap) && PlainByte(close)
    ensures Stand(Codes(gap) + Codes([close]), gap + [close])
  {
    SpacesArePlain(gap);
    CodesStand(gap);
    CodesStand([close]);
    hide Stand, Codes;
    JoinStand(Codes(gap), gap, Codes([close]), [close]);
  }

  lemma {:induction false} ItemsStand(items: seq<Item>, nesting: nat)
    requires items != [] && ItemsWf(items, nesting)
    ensures Stand(ItemPieces(items), ItemsText(items))
    decreases items, 0
  {
    var it := items[0];
    CodesStand([CLOSE_BRACKET]);
    CodesStand([COMMA]);
    SpacesArePlain(it.before);
    SpacesArePlain(it.after);
    CodesStand(it.before);
    CodesStand(it.after);
    hide Stand, Codes, Pieces, Text, Wf, Spaces, PlainText;
    CstStands(it.value, nesting);
    var tail, tailText := Codes([CLOSE_BRACKET]), [CLOSE_BRACKET];
    if |items| > 1 {
      ItemsStand(items[1..], nesting);
      JoinStand(Codes([COMMA]), [COMMA], ItemPieces(items[1..]), ItemsText(items[1..]));
      tail, tailText := Codes([COMMA]) + ItemPieces(items[1..]), [COMMA] + ItemsText(items[1..]);
    }
    JoinStand(Codes(it.after), it.after, tail, tailText);
    JoinStand(Pieces(it.value), Text(it.value), Codes(it.after) + tail, it.after + tailText);
    JoinStand(Codes(it.before), it.before,
              Pieces(it.value) + (Codes(it.after) + tail), Text(it.value) + (it.after + tailText));
  }

  lemma {:induction false} EntriesStand(es: seq<Entry>, nesting: nat)
    requires es != [] && EntriesWf(es, nesting)
    ensures Stand(EntryPieces(es), EntriesText(es))
    decreases es, 0
  {
    var e := es[0];
    CodesStand([CLOSE_BRACE]);
    CodesStand([COMMA]);
    CodesStand([COLON]);
    SpacesArePlain(e.before);
    SpacesArePlain(e.beforeColon);
    SpacesArePlain(e.afterColon);
    SpacesArePlain(e.after);
    CodesStand(e.before);
    CodesStand(e.beforeColon);
    CodesStand(e.afterColon);
    CodesStand(e.after);
    LiteralStands(e.name);
    hide Stand, Codes, Pieces, Text, Wf, Spaces, PlainText, LiteralText, UnitsOk;
    CstStands(e.value, nesting);
    var tail, tailText := Codes([CLOSE_BRACE]), [CLOSE_BRACE];
    if |es| > 1 {
      EntriesStand(es[1..], nesting);
      JoinStand(Codes([COMMA]), [COMMA], EntryPieces(es[1..]), EntriesText(es[1..]));
      tail, tailText := Codes([COMMA]) + EntryPieces(es[1..]), [COMMA] + EntriesText(es[1..]);
    }
    var p3, t3 := Pieces(e.value) + (Codes(e.after) + tail), Text(e.value) + (e.after + tailText);
    JoinStand(Codes(e.after), e.after, tail, tailText);
    JoinStand(Pieces(e.value), Text(e.value), Codes(e.after) + tail, e.after + tailText);
    JoinStand(Codes(e.afterColon), e.afterColon, p3, t3);
    JoinStand(Codes([COLON]), [COLON], Codes(e.afterColon) + p3, e.afterColon + t3);
    var p2, t2 := Codes([COLON]) + (Codes(e.afterColon) + p3), [COLON] + (e.afterColon + t3);
    JoinStand(Codes(e.beforeColon), e.beforeColon, p2, t2);
    JoinStand([Lit(e.name)], LiteralText(e.name), Codes(e.beforeColon) + p2, e.beforeColon + t2);
    JoinStand(Codes(e.before), e.before, [Lit(e.name)] + (Codes(e.beforeColon) + p2),
              LiteralText(e.name) + (e.beforeColon + t2));
  }

  /** Blanking leaves every text of the grammar as it is, so both parsers agree on it. */
  lemma GrammarTextUntouched(c: Cst, nesting: nat)
    requires Wf(c, nesting)
    ensures Pass(Text(c), 0, false, false, true) == Text(c) && Pass(Text(c), 0, false, false, false) == Text(c)
    ensures ParseWithComments(Text(c)) == P.ParseValue(Text(c), 0, 0)
  {
    CstStands(c, nesting);
    assert AllHarmless(Pieces(c), false);
    hide Pieces, Text, Pass, Render, PiecesOk, Course, P.ParseValue;
    HarmlessEnds(Pieces(c), false, false);
    PassBlanksExactly(Pieces(c), true, false, false);
    PassBlanksExactly(Pieces(c), false, true, false);
  }

  /** On every text the serializer produces, parsing with and without comments agree, and give the tree back. */
  lemma PrintedTextUntouched(v: Json.Json, pretty: bool)
    requires Json.IntegerNumbers(v) && Json.WellFormed(v) && Json.Nests(v, 0)
    ensures var t := Printer.Print(v, 0, pretty);
            ParseWithComments(t) == P.ParseString(t) == P.Ok(v, |t|)
  {
    hide Printer.Print, Printer.CstOf, P.ParseValue, ParseWithComments;
    var t := Printer.Print(v, 0, pretty);
    Printer.PrintsCst(v, 0, pretty);
    Printer.CstIsWf(v, 0, pretty, 0);
    GrammarTextUntouched(Printer.CstOf(v, 0, pretty), 0);
    Printer.RoundTrip(v, pretty);
    Printer.NoByteOrderMark(v, pretty);
    assert !Has(t, 0, [0xEF, 0xBB, 0xBF]) by {
      HasCons(t, 0, 0xEF, [0xBB, 0xBF]);
      assert [0xEF] + [0xBB, 0xBF] == [0xEF, 0xBB, 0xBF];
    }
  }

  /** `//"`, a line end, an empty block comment, `1`. */
  const MIXED: Bytes := [SLASH, SLASH, QUOTE, NEWLINE, SLASH, STAR, STAR, SLASH, 49]

  lemma NoTokenFrom(s: Bytes, i: nat, block: bool)
    requires i <= |s|
    requires forall k | i <= k < |s| ::
               s[k] != QUOTE && s[k] != BACKSLASH
               && (s[k] == SLASH ==> k + 1 == |s| || s[k + 1] != if block then STAR else SLASH)
    ensures Pass(s, i, false, false, block) == s[i..]
  {
    forall k | i <= k < |s| ensures s[k] != QUOTE && s[k] != BACKSLASH && !Has(s, k, Open(block)) {
      OpensHere(s, k, block);
    }
    hide Has, Pass;
    RunKept(s, i, |s| - i, block);
    assert s[i..|s|] + [] == s[i..];
    PassAtEnd(s, block);
  }

  lemma PassAtEnd(s: Bytes, block: bool)
    ensures Pass(s, |s|, false, false, block) == [] && Pass(s, |s|, true, false, block) == []
  {
  }

  lemma MixedFirstPass()
    ensures Pass(MIXED, 0, false, false, true) == MIXED
  {
    var s := MIXED;
    OpensHere(s, 0, true);
    OpensHere(s, 1, true);
    hide Has, Pass;
    RunKept(s, 0, 2, true);
    QuoteKept(s, 2, false, true);
    StringRunKept(s, 3, 6, true);
    PassAtEnd(s, true);
    assert s == s[0..2] + ([QUOTE] + (s[3..9] + []));
  }

  lemma MixedSecondPass()
    ensures Pass(MIXED, 0, false, false, false) == Comments.Spaces(4) + MIXED[4..]
  {
    var s := MIXED;
    OpensHere(s, 0, false);
    HasOne(s, 2, NEWLINE);
    HasOne(s, 3, NEWLINE);
    hide Has;
    FirstAt(s, 2, 3, Comments.LINE_CLOSE);
    Comments.CommentUnfolds(s, 0, false, Comments.LINE_OPEN, Comments.LINE_CLOSE);
    hide Comments.Blank;
    NoTokenFrom(s, 4, false);
  }

  lemma MixedRefused(r: Bytes)
    requires r == Comments.Spaces(4) + MIXED[4..]
    ensures P.ParseValue(r, 0, 0) == P.Fail
  {
    assert |r| == 9 && r[4] == SLASH;
    assert r[..4] == Comments.Spaces(4);
    SkipsSpaces(r, 0, r[..4]);
    assert P.SkipSpaces(r, 4) == 4;
    hide P.ParseObject, P.ParseArray;
    assert P.ParseScalar(r, 4) == P.Fail;
  }

  /**
   * A line comment that is not harmless: the block pass takes the quote in it for the start of a string, so the
   * block comment behind it survives and the parser refuses the text.
   */
  lemma QuoteInLineCommentHidesBlock()
    ensures ParseWithComments(MIXED) == P.Fail
  {
    hide Pass, P.ParseValue, Comments.Spaces;
    MixedFirstPass();
    MixedSecondPass();
    MixedRefused(Pass(MIXED, 0, false, false, false));
  }
}
