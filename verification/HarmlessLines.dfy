/** Which line comments both passes cope with, wherever they stand. */
module HarmlessLines {
  import opened Bytes
  import opened Literals
  import opened Comments
  import opened CommentedJson
  import opened BlockCourse
  import opened CommentedPasses

  /** The text opens no block comment, not even inside a string or a line comment. */
  predicate NoBlockOpens(s: Bytes) {
    forall k | 0 <= k < |s| :: !Has(s, k, BLOCK_OPEN)
  }

  lemma {:induction false} UnopenedCrossed(t: Bytes, s: Bytes, i: nat, k: nat, inString: bool, escaped: bool, from: nat)
    requires Has(s, i, t) && Closed(t) && k <= |t| && NoBlockOpens(s)
    ensures Cross(t, k, inString, escaped, from).Ends?
    decreases |t| - k
  {
    hide Has;
    if k < |t| {
      OpensInside(t, s, i, k);
      UnopenedCrossed(t, s, i, k + 1, Toggles(t[k], inString, escaped), Escapes(t[k], escaped), from);
    }
  }

  /** A text that opens no block comment at all is got through, whatever its line comments hold. */
  lemma {:induction false} UnopenedEnds(ps: seq<Piece>, s: Bytes, i: nat, inString: bool, through: bool)
    requires PiecesOk(ps) && Has(s, i, Render(ps, false, false)) && NoBlockOpens(s)
    ensures Course(ps, inString, false, through).Ends?
    decreases |ps|
  {
    hide Has, RenderOne, PieceOk, Cross, NoBlockOpens, Closed;
    if ps != [] {
      var t := RenderOne(ps[0], false, false);
      HasConcat(s, i, t, Render(ps[1..], false, false));
      RenderLengths(ps[0], false, false);
      if ps[0].Block? {
        BlockOpens(ps[0], s, i);
      } else {
        PieceIsClosed(ps[0]);
        UnopenedCrossed(t, s, i, 0, inString, false, From(ps[0], through));
        var st := Cross(t, 0, inString, false, From(ps[0], through)).inString;
        UnopenedEnds(ps[1..], s, i + |t|, st, through);
      }
    }
  }

  lemma BlockOpens(p: Piece, s: Bytes, i: nat)
    requires p.Block? && Has(s, i, RenderOne(p, false, false))
    ensures !NoBlockOpens(s)
  {
    hide Has;
    HasConcat(s, i, BLOCK_OPEN, p.body + BLOCK_CLOSE);
    HasFits(s, i, BLOCK_OPEN);
  }

  /** The block pass gets through the line comment and is outside strings again behind it. */
  predicate Harmless(body: Bytes, through: bool) {
    Cross(RenderOne(Line(body), false, false), 0, false, false, From(Line(body), through)) == Ends(false)
  }

  predicate AllHarmless(ps: seq<Piece>, through: bool) {
    forall i | 0 <= i < |ps| && ps[i].Line? :: Harmless(ps[i].body, through)
  }

  lemma SpoiledDiffers(t: Bytes, s: Bytes)
    requires Has(s, 0, t) && Closed(t) && Cross(t, 0, false, false, |t|) == Spoils
    ensures |t| <= |s| && Pass(s, 0, false, false, true)[..|t|] != t
  {
    hide Has, Pass, Cross;
    var j := SpoiledAt(t, s, 0, 0, false, false, |t|);
    assert Pass(s, 0, false, false, true)[..|t|][j] != t[j];
  }

  /** Outside strings, the block pass crosses a literal and is outside strings behind it. */
  lemma LiteralCrossed(us: seq<Unit>)
    requires UnitsOk(us)
    ensures Cross(LiteralText(us), 0, false, false, |LiteralText(us)|) == Ends(false)
  {
    hide Pass, UnitsOk, Has, Cross, LiteralText;
    var t := LiteralText(us);
    var s := t + [QUOTE, SLASH, STAR];
    HasSelf(t, [QUOTE, SLASH, STAR]);
    LiteralKept(us, s, 0, true);
    PieceIsClosed(Lit(us)) by {
      assert PieceOk(Lit(us));
    }
    KeptWhole(t, 0, false, false);
    assert Pass(s, 0, false, false, true)[..|t|] == t;
    if Cross(t, 0, false, false, |t|) == Spoils {
      SpoiledDiffers(t, s);
    } else {
      Crossed(t, s, 0, 0, false, false, |t|);
      var st := Cross(t, 0, false, false, |t|).inString;
      SamePrefix(t, Pass(s, |t|, st, false, true), Pass(s, |t|, false, false, true));
      if st {
        QuoteTellsStrings(s, |t|);
      }
    }
  }

  /** Behind a quote, a comment opens only if the quote has opened no string. */
  lemma QuoteTellsStrings(s: Bytes, i: nat)
    requires i + 3 == |s| && s[i..] == [QUOTE, SLASH, STAR]
    ensures Pass(s, i, true, false, true) != Pass(s, i, false, false, true)
  {
    assert s[i] == s[i..][0] && s[i + 1] == s[i..][1] && s[i + 2] == s[i..][2];
    OpensHere(s, i + 1, true);
    hide Pass, Has;
    QuoteKept(s, i, true, true);
    QuoteKept(s, i, false, true);
    ByteKept(s, i + 1, true, false);
    CommentHere(s, i + 1, false);
    assert Pass(s, i, true, false, true)[1] == Pass(s, i + 1, false, false, true)[0];
    assert Pass(s, i, false, false, true)[1] == Pass(s, i + 1, true, false, true)[0];
  }

  lemma CodeCrossed(b: byte)
    requires PlainByte(b)
    ensures Cross([b], 0, false, false, 1) == Ends(false)
  {
    hide FindFrom;
    OpensHere([b], 0, true);
  }

  /** A text is got through if every single line comment in it is. */
  lemma {:induction false} HarmlessEnds(ps: seq<Piece>, blocks: bool, through: bool)
    requires PiecesOk(ps) && AllHarmless(ps, through)
    ensures Course(ps, false, blocks, through) == Ends(false)
    decreases |ps|
  {
    hide Cross, LiteralText, UnitsOk;
    if ps != [] {
      match ps[0]
      case Code(b) => CodeCrossed(b);
      case Lit(us) => LiteralCrossed(us);
      case Block(_) =>
      case Line(body) => assert Harmless(body, through);
    }
    if ps != [] {
      HarmlessEnds(ps[1..], blocks, through);
    }
  }

  // ---------------------------------------------------------------- which line comments are harmless

  predicate LinesAre(ps: seq<Piece>, body: Bytes) {
    forall i | 0 <= i < |ps| && ps[i].Line? :: ps[i].body == body
  }

  /** A line comment, an empty block comment, `1` and a line end. */
  function Probe(body: Bytes): seq<Piece> {
    [Line(body), Block([]), Code(49), Code(NEWLINE)]
  }

  lemma ProbeIsOk(body: Bytes)
    requires NEWLINE !in body
    ensures PiecesOk(Probe(body)) && LinesAre(Probe(body), body)
  {
  }

  /**
   * Exactly which line comments the passes cope with, wherever they stand: those that the block pass gets
   * through without ending in a string. On its own it must not meet the opening of a block comment outside
   * strings; with the line pass behind it, it may if the comment is closed on the line and does not open with
   * the second slash.
   */
  lemma HarmlessExactly(body: Bytes)
    requires NEWLINE !in body
    ensures Harmless(body, false) <==>
            forall ps | PiecesOk(ps) && LinesAre(ps, body) ::
              Pass(Render(ps, false, false), 0, false, false, true) == Render(ps, true, false)
    ensures Harmless(body, true) <==>
            forall ps | PiecesOk(ps) && LinesAre(ps, body) ::
              BothPasses(Render(ps, false, false)) == Render(ps, true, true)
  {
    hide Pass, Render, PiecesOk, Course, Harmless, BothPasses;
    ProbeIsOk(body);
    forall ps | PiecesOk(ps) && LinesAre(ps, body)
      ensures Harmless(body, false) ==> Pass(Render(ps, false, false), 0, false, false, true) == Render(ps, true, false)
      ensures Harmless(body, true) ==> BothPasses(Render(ps, false, false)) == Render(ps, true, true)
    {
      if Harmless(body, false) {
        HarmlessEnds(ps, false, false);
        PassBlanksExactly(ps, true, false, false);
      }
      if Harmless(body, true) {
        HarmlessEnds(ps, false, true);
        BothPassesBlank(ps);
      }
    }
    if !Harmless(body, false) {
      ProbeCourse(body, false);
      PassBlanksExactly(Probe(body), true, false, false);
    }
    if !Harmless(body, true) {
      ProbeCourse(body, true);
      if Course(Probe(body), false, false, true) == Spoils {
        BothPassesBlank(Probe(body));
      } else {
        ProbeSwallowed(body);
      }
    }
  }

  lemma ProbeCourse(body: Bytes, through: bool)
    requires NEWLINE !in body && !Harmless(body, through)
    ensures var w := Course(Probe(body), false, false, through);
            w == Spoils || (w == RunsOn && through
              && Cross(RenderOne(Line(body), false, false), 0, false, false, 2) == RunsOn)
  {
    hide Cross;
    var ps := Probe(body);
    var t := RenderOne(Line(body), false, false);
    KeptWhole(t, 0, false, false);
    assert ps[1..] == [Block([]), Code(49), Code(NEWLINE)];
    var rest := Render(ps[1..], false, false);
    HasSelf(RenderOne(Block([]), false, false), Render(ps[1..][1..], false, false));
    BlockCloses(Block([]), rest, 0);
  }

  lemma ProbeText(body: Bytes)
    ensures var t := RenderOne(Line(body), false, false);
            && Render(Probe(body), false, false) == t + [SLASH, STAR, STAR, SLASH, 49, NEWLINE]
            && Render(Probe(body), true, true) == Spaces(|t| + 4) + [49, NEWLINE]
  {
    ProbeRenders(body, false, false);
    ProbeRenders(body, true, true);
    var t := RenderOne(Line(body), false, false);
    assert RenderOne(Block([]), false, false) == [SLASH, STAR, STAR, SLASH];
    assert RenderOne(Line(body), true, true) + (Spaces(4) + [49, NEWLINE]) == Spaces(|t| + 4) + [49, NEWLINE];
  }

  lemma ProbeRenders(body: Bytes, b: bool, l: bool)
    ensures Render(Probe(body), b, l) ==
            RenderOne(Line(body), b, l) + (RenderOne(Block([]), b, l) + [49, NEWLINE])
  {
    var two, three := [Code(49), Code(NEWLINE)], [Block([]), Code(49), Code(NEWLINE)];
    assert two[1..] == [Code(NEWLINE)] && three[1..] == two && Probe(body)[1..] == three;
    assert Render(two[1..], b, l) == [NEWLINE];
    assert Render(two, b, l) == [49, NEWLINE];
    hide RenderOne;
    assert Render(three, b, l) == RenderOne(Block([]), b, l) + Render(two, b, l);
  }

  /** The block comment in the probe closes one that opens in the line, and the line end between them is lost. */
  lemma ProbeSwallowed(body: Bytes)
    requires NEWLINE !in body && Cross(RenderOne(Line(body), false, false), 0, false, false, 2) == RunsOn
    ensures BothPasses(Render(Probe(body), false, false)) != Render(Probe(body), true, true)
  {
    hide Pass, Has, Cross, Render;
    var t := RenderOne(Line(body), false, false);
    var s := t + [SLASH, STAR, STAR, SLASH, 49, NEWLINE];
    var n := |t|;
    ProbeText(body);
    HasSelf(t, [SLASH, STAR, STAR, SLASH, 49, NEWLINE]);
    ProbeCloses(t, s);
    RunsOnTo(t, s, 0, 0, false, false, 2, n + 2);
    ProbeEnd(s, n + 4);
    var s1 := Pass(s, 0, false, false, true);
    LineTextIs(body);
    ProbeLine(t, s, s1);
    SwallowedLine(s1);
    assert Render(Probe(body), true, true)[n + 4] == 49;
  }

  lemma ProbeCloses(t: Bytes, s: Bytes)
    requires s == t + [SLASH, STAR, STAR, SLASH, 49, NEWLINE]
    ensures FindFrom(s, |t|, BLOCK_CLOSE) == Some(|t| + 2)
  {
    var n := |t|;
    assert s[n] == SLASH && s[n + 1] == STAR && s[n + 2] == STAR && s[n + 3] == SLASH;
    assert BLOCK_CLOSE == [STAR] + [SLASH];
    HasCons(s, n, STAR, [SLASH]);
    HasCons(s, n + 1, STAR, [SLASH]);
    HasCons(s, n + 2, STAR, [SLASH]);
    HasOne(s, n + 2, SLASH);
    HasOne(s, n + 3, SLASH);
    hide Has;
    FirstAt(s, n, n + 2, BLOCK_CLOSE);
  }

  lemma ProbeEnd(s: Bytes, k: nat)
    requires k + 2 == |s| && s[k] == 49 && s[k + 1] == NEWLINE
    ensures Pass(s, k, false, false, true) == [49, NEWLINE]
  {
    OpensHere(s, k, true);
    OpensHere(s, k + 1, true);
    hide Has;
    ByteKept(s, k, false, false);
    ByteKept(s, k + 1, false, false);
  }

  /** The first pass leaves two slashes, no line end before the last byte, and one there. */
  lemma ProbeLine(t: Bytes, s: Bytes, s1: Bytes)
    requires IsLine(t) && |t| > 2 && Has(t, 0, LINE_OPEN) && forall k | 2 <= k < |t| - 1 :: t[k] != NEWLINE
    requires Has(s, 0, t) && |s| == |t| + 6 && s1 == Pass(s, 0, false, false, true)
    requires Cross(t, 0, false, false, 2) == RunsOn && BlankTo(s1, |t| - 1, |t| + 4, [49, NEWLINE])
    ensures |s1| == |s| && s1[..2] == LINE_OPEN && s1[|s1| - 1] == NEWLINE
    ensures forall k | 2 <= k < |s1| - 1 :: s1[k] != NEWLINE
  {
    hide Pass, Cross;
    var n := |t|;
    LineStartKept(t, s, 0, false);
    assert s1[n + 4] == s1[n + 4..][0] && s1[n + 5] == s1[n + 4..][1];
    forall k | 2 <= k < n - 1 ensures s1[k] != NEWLINE {
      assert s[0 + k] == t[k];
      BlockPassFades(s, k);
    }
  }

  lemma BlockPassFades(s: Bytes, k: nat)
    requires k < |s|
    ensures var b := Pass(s, 0, false, false, true)[k]; b == s[k] || b == SPACE
  {
    OnlySpaces(s, 0, false, false, BLOCK_OPEN, BLOCK_CLOSE);
  }

  lemma LineTextIs(body: Bytes)
    requires NEWLINE !in body
    ensures var t := RenderOne(Line(body), false, false);
            IsLine(t) && |t| > 2 && Has(t, 0, LINE_OPEN) && forall k | 2 <= k < |t| - 1 :: t[k] != NEWLINE
  {
    hide Has;
    var t := RenderOne(Line(body), false, false);
    HasSelf(LINE_OPEN, body + LINE_CLOSE);
    forall k | 2 <= k < |t| - 1 ensures t[k] != NEWLINE {
      assert t[k] == (body + LINE_CLOSE)[k - 2] == body[k - 2];
    }
  }

  lemma SwallowedLine(s: Bytes)
    requires |s| > 2 && s[..2] == LINE_OPEN && s[|s| - 1] == NEWLINE && forall k | 2 <= k < |s| - 1 :: s[k] != NEWLINE
    ensures Pass(s, 0, false, false, false) == Spaces(|s|)
  {
    assert s[0] == s[..2][0] && s[1] == s[..2][1];
    OpensHere(s, 0, false);
    forall k | 2 <= k < |s| ensures Has(s, k, LINE_CLOSE) <==> k == |s| - 1 {
      HasOne(s, k, NEWLINE);
    }
    hide Has;
    FirstAt(s, 2, |s| - 1, LINE_CLOSE);
    CommentUnfolds(s, 0, false, LINE_OPEN, LINE_CLOSE);
    assert Pass(s, |s|, false, false, false) == [];
  }
}
