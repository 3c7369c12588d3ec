/** Exactly when the passes, one and both, blank the comments and nothing else. */
module CommentedPasses {
  import opened Bytes
  import opened Literals
  import opened Comments
  import opened CommentedJson
  import opened BlockCourse
  import P = Parser

  /**
   * The way of the block pass through a whole text: through everything but block comments, which it must
   * meet outside strings. If `through`, comments may also open inside line comments: the line pass blanks what
   * is left there. `blocks` tells that the block comments are blank already.
   */
  function Course(ps: seq<Piece>, inString: bool, blocks: bool, through: bool): Way {
    if ps == [] then Ends(inString)
    else if ps[0].Block? then
      if inString && !blocks then Spoils else Course(ps[1..], inString, blocks, through)
    else
      var t := RenderOne(ps[0], false, false);
      match Cross(t, 0, inString, false, From(ps[0], through))
      case Ends(st) => Course(ps[1..], st, blocks, through)
      case Spoils => Spoils
      case RunsOn => if Closes(Render(ps[1..], false, false)) then RunsOn else Ends(false)
  }

  function From(p: Piece, through: bool): nat {
    if through && p.Line? then 2 else |RenderOne(p, false, false)|
  }

  predicate Closes(s: Bytes) {
    FindFrom(s, 0, BLOCK_CLOSE).Some?
  }

  lemma SamePrefix(a: Bytes, b: Bytes, c: Bytes)
    ensures a + b == a + c <==> b == c
  {
    if a + b == a + c {
      assert b == (a + b)[|a|..] == (a + c)[|a|..] == c;
    }
  }

  lemma DifferAt(a: Bytes, b: Bytes, k: nat)
    requires k < |a| && k < |b| && a[k] != b[k]
    ensures a != b
  {
  }

  lemma RenderLengths(p: Piece, b: bool, l: bool)
    ensures |RenderOne(p, b, l)| == |RenderOne(p, false, false)| > 0
  {
    hide LiteralText;
    match p
    case Lit(us) => LiteralIsNotEmpty(us);
    case _ =>
  }

  lemma LiteralIsNotEmpty(us: seq<Unit>)
    ensures LiteralText(us) != []
  {
  }

  lemma BlockRenders(p: Piece, b: bool, l: bool)
    requires p.Block?
    ensures RenderOne(p, b, l) == RenderOne(p, b, true) && RenderOne(p, true, l) == Spaces(|RenderOne(p, false, false)|)
    ensures RenderOne(p, false, l)[..2] == BLOCK_OPEN
  {
  }

  lemma OtherRenders(p: Piece, b: bool)
    requires !p.Block?
    ensures RenderOne(p, b, false) == RenderOne(p, false, false)
  {
  }

  /** The block pass over a block comment that it meets outside strings, or that is blank already. */
  lemma BlockStep(p: Piece, s: Bytes, i: nat, inString: bool, blocks: bool)
    requires PieceOk(p) && p.Block? && (blocks || !inString) && Has(s, i, RenderOne(p, blocks, false))
    ensures i + |RenderOne(p, blocks, false)| <= |s|
    ensures Pass(s, i, inString, false, true) ==
            RenderOne(p, true, false) + Pass(s, i + |RenderOne(p, blocks, false)|, inString, false, true)
  {
    hide Has, Pass, PieceOk, RenderOne;
    BlockRenders(p, blocks, false);
    BlockRenders(p, true, false);
    if inString {
      BlankStringKept(s, i, |RenderOne(p, false, false)|);
    } else {
      PieceBlanked(p, s, i, true, blocks, true);
    }
  }

  lemma BlankStringKept(s: Bytes, i: nat, n: nat)
    requires Has(s, i, Spaces(n))
    ensures i + n <= |s| && Pass(s, i, true, false, true) == Spaces(n) + Pass(s, i + n, true, false, true)
  {
    hide Pass;
    HasIsSlice(s, i, Spaces(n));
    forall k | i <= k < i + n ensures s[k] != QUOTE && s[k] != BACKSLASH {
      assert s[i + (k - i)] == Spaces(n)[k - i];
    }
    StringRunKept(s, i, n, true);
  }

  lemma BlockInString(p: Piece, s: Bytes, i: nat)
    requires p.Block? && Has(s, i, RenderOne(p, false, false))
    ensures i < |s| && s[i] == SLASH && |RenderOne(p, false, false)| >= 2
    ensures i + 1 < |s| && s[i + 1] == STAR
    ensures Pass(s, i, true, false, true) == [SLASH] + ([STAR] + Pass(s, i + 2, true, false, true))
  {
    hide Has, Pass;
    HasConcat(s, i, BLOCK_OPEN, p.body + BLOCK_CLOSE);
    HasFits(s, i, BLOCK_OPEN);
    OpensHere(s, i, true);
    ByteKept(s, i, true, false);
    ByteKept(s, i + 1, true, false);
  }

  /** The block pass over another piece, kept or spoiled. */
  lemma OtherStep(p: Piece, s: Bytes, i: nat, inString: bool) returns (j: nat)
    requires PieceOk(p) && !p.Block? && Has(s, i, RenderOne(p, false, false))
    ensures i + |RenderOne(p, false, false)| <= |s|
    ensures var t := RenderOne(p, false, false);
            match Cross(t, 0, inString, false, |t|)
            case Ends(st) => Pass(s, i, inString, false, true) == t + Pass(s, i + |t|, st, false, true)
            case Spoils => j < |t| && t[j] == SLASH && Pass(s, i, inString, false, true)[j] == SPACE
            case RunsOn => false
  {
    hide Has, Pass, PieceOk, RenderOne, Closed;
    PieceIsClosed(p);
    var t := RenderOne(p, false, false);
    HasFits(s, i, t);
    KeptWhole(t, 0, inString, false);
    assert t[0..] == t;
    j := 0;
    match Cross(t, 0, inString, false, |t|)
    case Ends(_) => EmptyIsNotClosed(t); Crossed(t, s, i, 0, inString, false, |t|);
    case Spoils => j := SpoiledAt(t, s, i, 0, inString, false, |t|);
    case RunsOn =>
  }

  lemma EmptyIsNotClosed(t: Bytes)
    requires Closed(t)
    ensures t != []
  {
  }

  /** The block pass alone: it blanks exactly the block comments exactly when its course has no accident. */
  lemma {:induction false} OnePass(ps: seq<Piece>, s: Bytes, i: nat, inString: bool, blocks: bool)
    requires PiecesOk(ps) && Has(s, i, Render(ps, blocks, false)) && i + |Render(ps, blocks, false)| == |s|
    ensures |Render(ps, true, false)| == |s| - i
    ensures Pass(s, i, inString, false, true) == Render(ps, true, false) <==> Course(ps, inString, blocks, false).Ends?
    decreases |ps|
  {
    hide Has, Pass, PieceOk, RenderOne, Cross;
    if ps != [] {
      var p, rest := ps[0], ps[1..];
      var one, t := RenderOne(p, blocks, false), RenderOne(p, false, false);
      HasConcat(s, i, one, Render(rest, blocks, false));
      RenderLengths(p, blocks, false);
      RenderLengths(p, true, false);
      if p.Block? {
        if inString && !blocks {
          OnePass(rest, s, i + |t|, false, blocks);
          BlockInString(p, s, i);
          BlockRenders(p, true, false);
          DifferAt(Pass(s, i, inString, false, true), Render(ps, true, false), 0);
        } else {
          OnePass(rest, s, i + |t|, inString, blocks);
          BlockStep(p, s, i, inString, blocks);
          SamePrefix(RenderOne(p, true, false), Pass(s, i + |t|, inString, false, true), Render(rest, true, false));
        }
      } else {
        OtherRenders(p, blocks);
        OtherRenders(p, true);
        var j := OtherStep(p, s, i, inString);
        match Cross(t, 0, inString, false, |t|)
        case Ends(st) =>
          OnePass(rest, s, i + |t|, st, blocks);
          SamePrefix(t, Pass(s, i + |t|, st, false, true), Render(rest, true, false));
        case Spoils =>
          OnePass(rest, s, i + |t|, false, blocks);
          DifferAt(Pass(s, i, inString, false, true), Render(ps, true, false), j);
        case RunsOn =>
      }
    }
  }

  /**
   * A pass turns exactly the comments of its kind into spaces and keeps every other byte. The line pass does so
   * whatever the comments hold, once the block comments are blank. The block pass does so exactly when nothing
   * on its course through the line comments goes wrong.
   */
  lemma PassBlanksExactly(ps: seq<Piece>, block: bool, blocks: bool, lines: bool)
    requires PiecesOk(ps) && (block || blocks)
    ensures Pass(Render(ps, blocks, lines), 0, false, false, block) == Render(ps, blocks || block, lines || !block)
            <==> (block ==> lines || Course(ps, false, blocks, false).Ends?)
  {
    hide Pass, Render, Has, PiecesOk, Course;
    var s := Render(ps, blocks, lines);
    HasSelf(s, []);
    assert s + [] == s;
    if block && !lines {
      OnePass(ps, s, 0, false, blocks);
    } else {
      PiecesBlanked(ps, s, 0, block, blocks, lines);
    }
  }

  /** Where the block pass blanks exactly the block comments, a second one changes nothing. */
  lemma BlockPassAgain(ps: seq<Piece>)
    requires PiecesOk(ps) && Course(ps, false, false, false).Ends?
    ensures var once := Pass(Render(ps, false, false), 0, false, false, true);
            Pass(once, 0, false, false, true) == once
  {
    hide Pass, Render, PiecesOk, Course;
    CourseAgain(ps, false);
    PassBlanksExactly(ps, true, false, false);
    PassBlanksExactly(ps, true, true, false);
  }

  lemma {:induction false} CourseAgain(ps: seq<Piece>, inString: bool)
    requires Course(ps, inString, false, false).Ends?
    ensures Course(ps, inString, true, false).Ends?
    decreases |ps|
  {
    hide Cross, RenderOne;
    if ps != [] {
      if ps[0].Block? {
        CourseAgain(ps[1..], inString);
      } else {
        var t := RenderOne(ps[0], false, false);
        match Cross(t, 0, inString, false, From(ps[0], false))
        case Ends(st) => CourseAgain(ps[1..], st);
        case _ => RunsOnNever(t, inString);
      }
    }
  }

  lemma RunsOnNever(t: Bytes, inString: bool)
    ensures Cross(t, 0, inString, false, |t|) != RunsOn
  {
    KeptWhole(t, 0, inString, false);
  }

  // ---------------------------------------------------------------- both passes

  /** The line end is kept, whatever opens in front of it. */
  lemma {:induction false} LineEndKept(t: Bytes, k: nat, inString: bool, escaped: bool, from: nat)
    requires IsLine(t) && k < |t| && Cross(t, k, inString, escaped, from) != Spoils
    ensures Pass(t, k, inString, escaped, true)[|t| - 1 - k] == NEWLINE
    decreases |t| - k
  {
    hide Has, Pass, FindFrom;
    if !inString && Has(t, k, BLOCK_OPEN) {
      OpensHere(t, k, true);
      CommentHere(t, k, escaped);
      if FindFrom(t, k + 2, BLOCK_CLOSE).Some? {
        var p := FindFrom(t, k + 2, BLOCK_CLOSE).value;
        CloseBeforeEnd(t, p);
        LineEndKept(t, p + 2, false, false, from);
      }
    } else {
      ByteKept(t, k, inString, escaped);
      if k + 1 < |t| {
        LineEndKept(t, k + 1, Toggles(t[k], inString, escaped), Escapes(t[k], escaped), from);
      }
    }
  }

  lemma CloseBeforeEnd(t: Bytes, p: nat)
    requires IsLine(t) && Has(t, p, BLOCK_CLOSE)
    ensures p + 2 < |t|
  {
    assert t[p + 1] == BLOCK_CLOSE[1];
  }

  /** What the first pass makes of a line comment is a line comment. */
  lemma LineStays(body: Bytes, inString: bool) returns (body': Bytes)
    requires NEWLINE !in body && Cross(RenderOne(Line(body), false, false), 0, inString, false, 2) != Spoils
    ensures NEWLINE !in body' && |body'| == |body|
    ensures Pass(RenderOne(Line(body), false, false), 0, inString, false, true) == LINE_OPEN + (body' + LINE_CLOSE)
  {
    var t := RenderOne(Line(body), false, false);
    var u := Pass(t, 0, inString, false, true);
    LineEndKept(t, 0, inString, false, 2);
    LineStartKept(t, t, 0, inString);
    OnlySpaces(t, 0, inString, false, BLOCK_OPEN, BLOCK_CLOSE);
    hide Has, Pass, Cross;
    body' := u[2..|t| - 1];
    forall k | 0 <= k < |body'| ensures body'[k] != NEWLINE {
      assert u[2 + k] == t[0 + (2 + k)] || u[2 + k] == SPACE;
      assert t[2 + k] == body[k];
    }
    assert u == u[..2] + (u[2..|t| - 1] + u[|t| - 1..]);
  }

  lemma LineStartKept(t: Bytes, s: Bytes, i: nat, inString: bool)
    requires Has(s, i, t) && IsLine(t) && Has(t, 0, LINE_OPEN)
    ensures |t| > 2 && i + |t| <= |s| && t[0] == t[1] == s[i] == s[i + 1] == SLASH
    ensures Pass(s, i, inString, false, true)[0] == SLASH
    ensures Cross(t, 0, inString, false, 2) != Spoils ==> Pass(s, i, inString, false, true)[..2] == LINE_OPEN
  {
    hide Pass, FindFrom;
    assert t[0 + 0] == LINE_OPEN[0] && t[0 + 1] == LINE_OPEN[1];
    assert s[i + 0] == t[0] && s[i + 1] == t[1];
    hide Has;
    LineIsClosed(t);
    HasFits(s, i, t);
    OpensHere(s, i, true);
    OpensInside(t, s, i, 0);
    ByteKept(s, i, inString, false);
    OpensInside(t, s, i, 1);
    if inString || !Has(t, 1, BLOCK_OPEN) {
      ByteKept(s, i + 1, inString, false);
      var tail := Pass(s, i + 2, inString, false, true);
      assert Pass(s, i, inString, false, true) == [SLASH] + ([SLASH] + tail);
    } else {
      assert Cross(t, 0, inString, false, 2) == Cross(t, 1, inString, false, 2);
    }
  }

  /** The line pass over what the block pass has made of a piece that it got through. */
  lemma SecondStep(p: Piece, s: Bytes, i: nat, inString: bool)
    requires PieceOk(p) && !p.Block?
    requires Cross(RenderOne(p, false, false), 0, inString, false, From(p, true)) != Spoils
    requires Has(s, i, Pass(RenderOne(p, false, false), 0, inString, false, true))
    ensures i + |RenderOne(p, false, false)| <= |s|
    ensures Pass(s, i, false, false, false) ==
            RenderOne(p, true, true) + Pass(s, i + |RenderOne(p, false, false)|, false, false, false)
  {
    hide Has, Pass, LiteralText, UnitsOk;
    var t := RenderOne(p, false, false);
    if p.Line? {
      var body' := LineStays(p.body, inString);
      PieceBlanked(Line(body'), s, i, false, true, false);
    } else {
      KeptWhole(t, 0, inString, false);
      assert t[0..] == t;
      PieceBlanked(p, s, i, false, true, false);
    }
  }

  lemma TailSplit(s: Bytes, i: nat, a: Bytes, b: Bytes)
    requires i <= |s| && s[i..] == a + b
    ensures i + |a| <= |s| && Has(s, i, a) && s[i + |a|..] == b
  {
    assert s == s[..i] + (a + b);
    HasSelf(s[..i], a + b);
    HasConcat(s, i, a, b);
  }

  lemma ClosesBehind(s: Bytes, i: nat)
    requires i <= |s|
    ensures FindFrom(s, i, BLOCK_CLOSE).Some? ==> Closes(s[i..])
  {
    if FindFrom(s, i, BLOCK_CLOSE).Some? {
      var p := FindFrom(s, i, BLOCK_CLOSE).value;
      assert Has(s[i..], p - i, BLOCK_CLOSE);
      HasFound(s[i..], 0, p - i, BLOCK_CLOSE);
    }
  }

  lemma {:induction false} NoBlocks(ps: seq<Piece>, s: Bytes, i: nat)
    requires i <= |s| && FindFrom(s, i, BLOCK_CLOSE) == None && Has(s, i, Render(ps, false, false))
    ensures Render(ps, true, false) == Render(ps, false, false)
    decreases |ps|
  {
    hide Has, RenderOne;
    if ps != [] {
      var one := RenderOne(ps[0], false, false);
      HasConcat(s, i, one, Render(ps[1..], false, false));
      HasFits(s, i, one);
      if ps[0].Block? {
        BlockCloses(ps[0], s, i);
      } else {
        OtherRenders(ps[0], true);
        NoneBehind(s, i, i + |one|);
        NoBlocks(ps[1..], s, i + |one|);
      }
    }
  }

  lemma NoneBehind(s: Bytes, i: nat, j: nat)
    requires i <= j <= |s|
    ensures FindFrom(s, j, BLOCK_CLOSE).Some? ==> FindFrom(s, i, BLOCK_CLOSE).Some?
  {
    hide Has;
    var f := FindFrom(s, j, BLOCK_CLOSE);
    if f.Some? {
      HasFound(s, i, f.value, BLOCK_CLOSE);
    }
  }

  lemma HasFound(s: Bytes, i: nat, k: nat, t: Bytes)
    requires i <= k && Has(s, k, t)
    ensures i <= |s| && FindFrom(s, i, t).Some?
  {
    hide Has;
    HasFits(s, k, t);
    assert FindFrom(s, i, t).None? ==> !Has(s, k, t);
  }

  lemma BlockCloses(p: Piece, s: Bytes, i: nat)
    requires p.Block? && i <= |s| && Has(s, i, RenderOne(p, false, false))
    ensures FindFrom(s, i, BLOCK_CLOSE).Some?
  {
    hide Has;
    HasThree(s, i, BLOCK_OPEN, p.body, BLOCK_CLOSE);
    var k := i + 2 + |p.body|;
    assert |BLOCK_OPEN| == 2 && Has(s, k, BLOCK_CLOSE);
    HasFound(s, i, k, BLOCK_CLOSE);
  }

  /** A block comment that is met inside a string survives both passes. */
  lemma BlockSurvives(p: Piece, s: Bytes, s1: Bytes, i: nat)
    requires p.Block? && Has(s, i, RenderOne(p, false, false)) && |s1| == |s|
    requires i <= |s| && s1[i..] == Pass(s, i, true, false, true)
    ensures i < |s| && Pass(s1, i, false, false, false)[0] == SLASH
  {
    BlockInString(p, s, i);
    hide Has, Pass;
    assert s1[i] == s1[i..][0] && s1[i + 1] == s1[i..][1];
    SlashKept(s1, i);
  }

  /** The line pass keeps a slash that no other one follows. */
  lemma SlashKept(s: Bytes, i: nat)
    requires i + 1 < |s| && s[i] == SLASH && s[i + 1] != SLASH
    ensures Pass(s, i, false, false, false)[0] == SLASH
  {
    OpensHere(s, i, false);
    hide Has;
  }

  /** A piece that the block pass spoils stays spoiled. */
  lemma SpoilSurvives(p: Piece, s: Bytes, s1: Bytes, i: nat, inString: bool) returns (j: nat)
    requires PieceOk(p) && !p.Block? && Has(s, i, RenderOne(p, false, false)) && |s1| == |s|
    requires i <= |s| && s1[i..] == Pass(s, i, inString, false, true)
    requires Cross(RenderOne(p, false, false), 0, inString, false, From(p, true)) == Spoils
    ensures j < |RenderOne(p, false, false)| <= |s| - i
    ensures Pass(s1, i, false, false, false)[j] != RenderOne(p, true, true)[j]
  {
    hide Has, Pass, Cross, LiteralText;
    var t := RenderOne(p, false, false);
    PieceIsClosed(p);
    j := SpoiledAt(t, s, i, 0, inString, false, From(p, true));
    assert s1[i + j] == s1[i..][j] == SPACE;
    if p.Line? {
      LineStartKept(t, s, i, inString) by {
        assert Has(t, 0, LINE_OPEN) by {
          HasSelf(LINE_OPEN, p.body + LINE_CLOSE);
        }
      }
      assert j == 1 && s1[i] == s1[i..][0];
      SlashKept(s1, i);
      j := 0;
    } else {
      OnlySpaces(s1, i, false, false, LINE_OPEN, LINE_CLOSE);
      LinePassKeepsSpace(s1, i, j);
    }
  }

  lemma LinePassKeepsSpace(s: Bytes, i: nat, j: nat)
    requires i + j < |s| && s[i + j] == SPACE
    ensures Pass(s, i, false, false, false)[j] == SPACE
  {
    OnlySpaces(s, i, false, false, LINE_OPEN, LINE_CLOSE);
  }

  /** Both passes, from a piece on; `s1` is what the first pass makes of `s`. */
  lemma {:induction false} TwoPasses(ps: seq<Piece>, s: Bytes, s1: Bytes, i: nat, inString: bool)
    requires PiecesOk(ps) && Has(s, i, Render(ps, false, false)) && i + |Render(ps, false, false)| == |s| == |s1|
    requires s1[i..] == Pass(s, i, inString, false, true)
    ensures |Render(ps, true, true)| == |s| - i
    ensures match Course(ps, inString, false, true)
            case Ends(_) => Pass(s1, i, false, false, false) == Render(ps, true, true)
            case Spoils => Pass(s1, i, false, false, false) != Render(ps, true, true)
            case RunsOn => true
    decreases |ps|
  {
    hide Has, Pass, PieceOk, RenderOne, Cross;
    if ps != [] {
      var p, rest := ps[0], ps[1..];
      var t := RenderOne(p, false, false);
      HasConcat(s, i, t, Render(rest, false, false));
      RenderLengths(p, true, true);
      LengthsAgree(rest);
      if p.Block? {
        BlocksTwice(ps, s, s1, i, inString);
      } else {
        match Cross(t, 0, inString, false, From(p, true))
        case Ends(st) =>
          FirstStep(p, s, s1, i, inString, st);
          SecondStep(p, s1, i, inString);
          TwoPasses(rest, s, s1, i + |t|, st);
          SamePrefix(RenderOne(p, true, true), Pass(s1, i + |t|, false, false, false), Render(rest, true, true));
        case Spoils =>
          var j := SpoilSurvives(p, s, s1, i, inString);
          DifferAt(Pass(s1, i, false, false, false), Render(ps, true, true), j);
        case RunsOn =>
          if !Closes(Render(rest, false, false)) {
            LastLine(p, rest, s, s1, i, inString);
          }
      }
    }
  }

  lemma {:induction false} LengthsAgree(ps: seq<Piece>)
    ensures |Render(ps, true, true)| == |Render(ps, false, false)|
  {
    hide RenderOne;
    if ps != [] {
      RenderLengths(ps[0], true, true);
      LengthsAgree(ps[1..]);
    }
  }

  lemma {:induction false} BlocksTwice(ps: seq<Piece>, s: Bytes, s1: Bytes, i: nat, inString: bool)
    requires ps != [] && ps[0].Block?
    requires PiecesOk(ps) && Has(s, i, Render(ps, false, false)) && i + |Render(ps, false, false)| == |s| == |s1|
    requires s1[i..] == Pass(s, i, inString, false, true)
    ensures |Render(ps, true, true)| == |s| - i
    ensures match Course(ps, inString, false, true)
            case Ends(_) => Pass(s1, i, false, false, false) == Render(ps, true, true)
            case Spoils => Pass(s1, i, false, false, false) != Render(ps, true, true)
            case RunsOn => true
    decreases |ps|, 0
  {
    hide Has, Pass, PieceOk, RenderOne, Cross;
    var p, rest := ps[0], ps[1..];
    var t := RenderOne(p, false, false);
    HasConcat(s, i, t, Render(rest, false, false));
    RenderLengths(p, true, true);
    LengthsAgree(rest);
    BlockRenders(p, true, true);
    BlockRenders(p, true, false);
    if inString {
      BlockSurvives(p, s, s1, i);
      DifferAt(Pass(s1, i, false, false, false), Render(ps, true, true), 0);
    } else {
      BlockStep(p, s, i, false, false);
      TailSplit(s1, i, Spaces(|t|), Pass(s, i + |t|, false, false, true));
      SpacesKept(s1, i, |t|, false);
      TwoPasses(rest, s, s1, i + |t|, false);
      SamePrefix(Spaces(|t|), Pass(s1, i + |t|, false, false, false), Render(rest, true, true));
    }
  }

  lemma FirstStep(p: Piece, s: Bytes, s1: Bytes, i: nat, inString: bool, st: bool)
    requires PieceOk(p) && !p.Block? && Has(s, i, RenderOne(p, false, false))
    requires i <= |s| == |s1| && s1[i..] == Pass(s, i, inString, false, true)
    requires Cross(RenderOne(p, false, false), 0, inString, false, From(p, true)) == Ends(st)
    ensures Has(s1, i, Pass(RenderOne(p, false, false), 0, inString, false, true))
    ensures var j := i + |RenderOne(p, false, false)|; j <= |s| && s1[j..] == Pass(s, j, st, false, true)
  {
    hide Has, Pass, Cross, RenderOne, PieceOk;
    var t := RenderOne(p, false, false);
    PieceIsClosed(p);
    RenderLengths(p, false, false);
    Crossed(t, s, i, 0, inString, false, From(p, true));
    TailSplit(s1, i, Pass(t, 0, inString, false, true), Pass(s, i + |t|, st, false, true));
  }

  /** A comment that opens in a line comment and is not closed anywhere: the block pass ends there. */
  lemma LastLine(p: Piece, rest: seq<Piece>, s: Bytes, s1: Bytes, i: nat, inString: bool)
    requires PiecesOk([p] + rest) && !p.Block? && Has(s, i, RenderOne(p, false, false) + Render(rest, false, false))
    requires i + |RenderOne(p, false, false) + Render(rest, false, false)| == |s| == |s1|
    requires s1[i..] == Pass(s, i, inString, false, true) && !Closes(Render(rest, false, false))
    requires Cross(RenderOne(p, false, false), 0, inString, false, From(p, true)) == RunsOn
    ensures Pass(s1, i, false, false, false) == RenderOne(p, true, true) + Render(rest, true, true)
  {
    hide Pass, Cross, RenderOne, PieceOk, Closes;
    var t, tail := RenderOne(p, false, false), Render(rest, false, false);
    var j := i + |t|;
    assert ([p] + rest)[0] == p && forall k | 0 <= k < |rest| :: ([p] + rest)[k + 1] == rest[k];
    HasConcat(s, i, t, tail);
    HasIsSlice(s, j, tail);
    assert s[j..] == tail;
    hide Has;
    OnlyLinesRunOn(p, inString);
    ClosesBehind(s, j);
    RunsOnForNothing(t, s, i, 0, inString, false, 2);
    TailSplit(s1, i, Pass(t, 0, inString, false, true), tail);
    SecondStep(p, s1, i, inString);
    NoBlocks(rest, s, j);
    PiecesBlanked(rest, s1, j, false, true, false) by {
      HasWhole(s1, j, tail);
    }
  }

  lemma HasWhole(s: Bytes, j: nat, t: Bytes)
    requires j <= |s| && s[j..] == t
    ensures Has(s, j, t)
  {
    forall k | 0 <= k < |t| ensures s[j + k] == t[k] {
      assert s[j..][k] == t[k];
    }
  }

  lemma OnlyLinesRunOn(p: Piece, inString: bool)
    requires PieceOk(p) && !p.Block?
    requires Cross(RenderOne(p, false, false), 0, inString, false, From(p, true)) == RunsOn
    ensures p.Line? && IsLine(RenderOne(p, false, false)) && From(p, true) == 2
  {
    hide Cross, LiteralText, PieceOk;
    if !p.Line? {
      KeptWhole(RenderOne(p, false, false), 0, inString, false);
    }
  }

  /**
   * Both passes together: they blank exactly the comments when the block pass gets through, and do not when it
   * spoils something. Nothing is said of the third case, in which a block comment opens in a line comment, is
   * not closed there, and something behind closes it.
   */
  lemma BothPassesBlank(ps: seq<Piece>)
    requires PiecesOk(ps)
    ensures match Course(ps, false, false, true)
            case Ends(_) => BothPasses(Render(ps, false, false)) == Render(ps, true, true)
            case Spoils => BothPasses(Render(ps, false, false)) != Render(ps, true, true)
            case RunsOn => true
  {
    hide Pass, Render, Has, PiecesOk, Course;
    var s := Render(ps, false, false);
    HasSelf(s, []);
    assert s + [] == s;
    var s1 := Pass(s, 0, false, false, true);
    assert s1[0..] == s1;
    TwoPasses(ps, s, s1, 0, false);
  }

  /** A commented text through which the block pass gets is parsed as the same text with spaces for comments. */
  lemma CommentsAreWhiteSpace(ps: seq<Piece>)
    requires PiecesOk(ps) && Course(ps, false, false, true).Ends?
    ensures ParseWithComments(Render(ps, false, false)) == P.ParseValue(Render(ps, true, true), 0, 0)
  {
    hide BothPasses, Render, PiecesOk, Course, P.ParseValue;
    BothPassesBlank(ps);
  }
}
