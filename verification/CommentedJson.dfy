/** JSON interleaved with comments: the two passes blank exactly the comments and nothing else. */
module CommentedJson {
  import opened Bytes
  import opened Strings
  import opened Literals
  import opened Comments
  import P = Parser

  const STAR: byte := 42

  /** A piece of a commented text: a byte outside strings, a string literal, or a comment. */
  datatype Piece = Code(b: byte) | Lit(units: seq<Unit>) | Block(body: Bytes) | Line(body: Bytes)

  predicate PlainByte(b: byte) {
    b != QUOTE && b != BACKSLASH && b != SLASH
  }

  /** A block comment ends at its first end token, a line comment at its first line end. */
  predicate PieceOk(p: Piece) {
    match p
    case Code(b) => PlainByte(b)
    case Lit(us) => UnitsOk(us)
    case Block(body) => forall k | 0 <= k < |body| :: !Has(body + BLOCK_CLOSE, k, BLOCK_CLOSE)
    case Line(body) => NEWLINE !in body
  }

  predicate PiecesOk(ps: seq<Piece>) {
    forall i | 0 <= i < |ps| :: PieceOk(ps[i])
  }

  /** The text of a piece, with block comments or line comments already blanked. */
  function RenderOne(p: Piece, blocks: bool, lines: bool): Bytes {
    match p
    case Code(b) => [b]
    case Lit(us) => LiteralText(us)
    case Block(body) =>
      var t := BLOCK_OPEN + (body + BLOCK_CLOSE);
      if blocks then Spaces(|t|) else t
    case Line(body) =>
      var t := LINE_OPEN + (body + LINE_CLOSE);
      if lines then Spaces(|t|) else t
  }

  function Render(ps: seq<Piece>, blocks: bool, lines: bool): Bytes {
    if ps == [] then [] else RenderOne(ps[0], blocks, lines) + Render(ps[1..], blocks, lines)
  }

  /** One of the two passes: `block` selects the first. */
  function Open(block: bool): Bytes { if block then BLOCK_OPEN else LINE_OPEN }

  function Close(block: bool): Bytes { if block then BLOCK_CLOSE else LINE_CLOSE }

  function Pass(s: Bytes, i: nat, inString: bool, escaped: bool, block: bool): (r: Bytes)
    requires i <= |s|
    ensures |r| == |s| - i
  {
    Blank(s, i, inString, escaped, Open(block), Close(block))
  }

  // ---------------------------------------------------------------- bytes the pass leaves alone

  lemma OpensHere(s: Bytes, k: nat, block: bool)
    requires k < |s|
    ensures Has(s, k, Open(block)) <==> s[k] == SLASH && k + 1 < |s| && s[k + 1] == if block then STAR else SLASH
  {
    var t := Open(block);
    if Has(s, k, t) {
      assert s[k + 0] == t[0] && s[k + 1] == t[1];
    }
  }

  /** A run of bytes outside strings in which no quote, backslash or start token occurs. */
  lemma {:induction false} RunKept(s: Bytes, i: nat, n: nat, block: bool)
    requires i + n <= |s|
    requires forall k | i <= k < i + n :: s[k] != QUOTE && s[k] != BACKSLASH && !Has(s, k, Open(block))
    ensures Pass(s, i, false, false, block) == s[i..i + n] + Pass(s, i + n, false, false, block)
    decreases n
  {
    hide Has, Pass;
    if n == 0 {
      NothingInFront(Pass(s, i, false, false, block));
      assert s[i..i] == [];
    } else {
      RunKept(s, i + 1, n - 1, block);
      OneKept(s, i, block);
      Unshift(s, i, n, Pass(s, i + n, false, false, block));
    }
  }

  lemma OneKept(s: Bytes, i: nat, block: bool)
    requires i < |s| && s[i] != QUOTE && s[i] != BACKSLASH && !Has(s, i, Open(block))
    ensures Pass(s, i, false, false, block) == [s[i]] + Pass(s, i + 1, false, false, block)
  {
    hide Has;
  }

  lemma Unshift(s: Bytes, i: nat, n: nat, tail: Bytes)
    requires n > 0 && i + n <= |s|
    ensures [s[i]] + (s[i + 1..i + n] + tail) == s[i..i + n] + tail
  {
    assert s[i..i + n] == [s[i]] + s[i + 1..i + n];
  }

  /** Inside a string, bytes that are neither quotes nor backslashes are kept. */
  lemma {:induction false} StringRunKept(s: Bytes, i: nat, n: nat, block: bool)
    requires i + n <= |s| && forall k | i <= k < i + n :: s[k] != QUOTE && s[k] != BACKSLASH
    ensures Pass(s, i, true, false, block) == s[i..i + n] + Pass(s, i + n, true, false, block)
    decreases n
  {
    if n == 0 {
      assert s[i..i] + Pass(s, i, true, false, block) == Pass(s, i, true, false, block);
    } else {
      StringRunKept(s, i + 1, n - 1, block);
      assert Pass(s, i, true, false, block) == [s[i]] + Pass(s, i + 1, true, false, block);
      Unshift(s, i, n, Pass(s, i + n, true, false, block));
    }
  }

  /** Inside a string, a backslash and whatever follows it are kept. */
  lemma EscapeKept(s: Bytes, i: nat, block: bool)
    requires i + 1 < |s| && s[i] == BACKSLASH
    ensures Pass(s, i, true, false, block) == s[i..i + 2] + Pass(s, i + 2, true, false, block)
  {
    assert Pass(s, i + 1, true, true, block) == [s[i + 1]] + Pass(s, i + 2, true, false, block);
    assert s[i..i + 2] == [s[i]] + [s[i + 1]];
    ConcatAssoc([s[i]], [s[i + 1]], Pass(s, i + 2, true, false, block));
  }

  lemma Join(s: Bytes, i: nat, j: nat, k: nat, tail: Bytes)
    requires i <= j <= k <= |s|
    ensures s[i..j] + (s[j..k] + tail) == s[i..k] + tail
  {
    assert s[i..k] == s[i..j] + s[j..k];
  }

  lemma HexUnitKept(h: Bytes, s: Bytes, i: nat, block: bool)
    requires HexDigits(h) && Has(s, i, ESCAPE_U + h)
    ensures i + 6 <= |s| && Pass(s, i, true, false, block) == s[i..i + 6] + Pass(s, i + 6, true, false, block)
  {
    assert |h| == 4;
    hide HexDigits, Pass, Has;
    HasConcat(s, i, ESCAPE_U, h);
    EscapeUAt(s, i);
    EscapeKept(s, i, block);
    HexReads(h, s, i + 2);
    HexDigitsArePlain(s, i + 2);
    StringRunKept(s, i + 2, 4, block);
    Join(s, i, i + 2, i + 6, Pass(s, i + 6, true, false, block));
  }

  lemma UnitKept(u: Unit, s: Bytes, i: nat, block: bool)
    requires UnitOk(u) && Has(s, i, UnitText(u))
    ensures i + |UnitText(u)| <= |s|
    ensures Pass(s, i, true, false, block) == UnitText(u) + Pass(s, i + |UnitText(u)|, true, false, block)
  {
    UnitLengths(u);
    HasIsSlice(s, i, UnitText(u));
    match u
    case Plain(b) =>
      assert s[i + 0] == UnitText(u)[0];
      StringRunKept(s, i, 1, block);
    case Short(c) =>
      assert s[i + 0] == UnitText(u)[0];
      EscapeKept(s, i, block);
    case Hex(h) => HexUnitKept(h, s, i, block);
    case Pair(h, t) => PairKept(h, t, s, i, block);
  }

  lemma PairKept(h: Bytes, t: Bytes, s: Bytes, i: nat, block: bool)
    requires HexDigits(h) && HexDigits(t) && Has(s, i, ESCAPE_U + (h + (ESCAPE_U + t)))
    ensures i + 12 <= |s| && Pass(s, i, true, false, block) == s[i..i + 12] + Pass(s, i + 12, true, false, block)
  {
    assert |h| == 4;
    hide HexDigits, Pass, Has;
    HasConcat(s, i, ESCAPE_U, h + (ESCAPE_U + t));
    HasConcat(s, i + 2, h, ESCAPE_U + t);
    HasConcat(s, i, ESCAPE_U, h);
    HexUnitKept(h, s, i, block);
    HexUnitKept(t, s, i + 6, block);
    Join(s, i, i + 6, i + 12, Pass(s, i + 12, true, false, block));
  }

  lemma {:induction false} BodyKept(us: seq<Unit>, s: Bytes, i: nat, block: bool)
    requires UnitsOk(us) && Has(s, i, UnitsText(us))
    ensures i + |UnitsText(us)| <= |s|
    ensures Pass(s, i, true, false, block) == UnitsText(us) + Pass(s, i + |UnitsText(us)|, true, false, block)
    decreases |us|
  {
    hide Pass, UnitText, UnitOk;
    if us == [] {
      NothingInFront(Pass(s, i, true, false, block));
    } else {
      HasConcat(s, i, UnitText(us[0]), UnitsText(us[1..]));
      UnitKept(us[0], s, i, block);
      BodyKept(us[1..], s, i + |UnitText(us[0])|, block);
      ConcatAssoc(UnitText(us[0]), UnitsText(us[1..]), Pass(s, i + |UnitsText(us)|, true, false, block));
    }
  }

  lemma QuoteKept(s: Bytes, i: nat, inString: bool, block: bool)
    requires i < |s| && s[i] == QUOTE
    ensures Pass(s, i, inString, false, block) == [QUOTE] + Pass(s, i + 1, !inString, false, block)
  {
  }

  /** A string literal is kept whole, whatever is written in it. */
  lemma LiteralKept(us: seq<Unit>, s: Bytes, i: nat, block: bool)
    requires UnitsOk(us) && Has(s, i, LiteralText(us))
    ensures i + |LiteralText(us)| <= |s|
    ensures Pass(s, i, false, false, block) == LiteralText(us) + Pass(s, i + |LiteralText(us)|, false, false, block)
  {
    hide Pass, UnitsText, UnitsOk, Has;
    var body := UnitsText(us);
    var end := i + 1 + |body|;
    HasCons(s, i, QUOTE, body + [QUOTE]);
    HasConcat(s, i + 1, body, [QUOTE]);
    HasOne(s, end, QUOTE);
    QuoteKept(s, i, false, block);
    BodyKept(us, s, i + 1, block);
    QuoteKept(s, end, true, block);
    Regroup([QUOTE], body, [QUOTE], Pass(s, end + 1, false, false, block));
  }

  lemma Regroup(a: Bytes, b: Bytes, c: Bytes, d: Bytes)
    ensures a + (b + (c + d)) == (a + (b + c)) + d
  {
  }

  // ---------------------------------------------------------------- comments

  lemma {:induction false} FirstAt(s: Bytes, i: nat, p: nat, t: Bytes)
    requires i <= p <= |s| && Has(s, p, t) && forall k | i <= k < p :: !Has(s, k, t)
    ensures FindFrom(s, i, t) == Some(p)
    decreases p - i
  {
    if i < p {
      FirstAt(s, i + 1, p, t);
    }
  }

  lemma CommentBlanked(body: Bytes, s: Bytes, i: nat, block: bool)
    requires Has(s, i, Open(block) + (body + Close(block)))
    requires forall k | 0 <= k < |body| :: !Has(body + Close(block), k, Close(block))
    ensures var n := |Open(block) + (body + Close(block))|;
            i + n <= |s| && Pass(s, i, false, false, block) == Spaces(n) + Pass(s, i + n, false, false, block)
  {
    hide Has;
    CommentEnds(body, s, i, block);
    OpensHere(s, i, block);
    CommentUnfolds(s, i, false, Open(block), Close(block));
    hide Blank;
  }

  lemma CommentEnds(body: Bytes, s: Bytes, i: nat, block: bool)
    requires Has(s, i, Open(block) + (body + Close(block)))
    requires forall k | 0 <= k < |body| :: !Has(body + Close(block), k, Close(block))
    ensures |Open(block)| == 2 && i + |Open(block) + (body + Close(block))| <= |s| && Has(s, i, Open(block))
    ensures FindFrom(s, i + 2, Close(block)) == Some(i + 2 + |body|)
  {
    hide Has;
    HasFits(s, i, Open(block) + (body + Close(block)));
    HasThree(s, i, Open(block), body, Close(block));
    HasConcat(s, i + 2, body, Close(block));
    var p := i + 2 + |body|;
    forall k | i + 2 <= k < p ensures !Has(s, k, Close(block)) {
      if Has(s, k, Close(block)) {
        CloseInside(body, s, i + 2, k - i - 2, block);
      }
    }
    FirstAt(s, i + 2, p, Close(block));
  }

  lemma CloseInside(body: Bytes, s: Bytes, i: nat, k: nat, block: bool)
    requires k < |body| && Has(s, i, body + Close(block)) && Has(s, i + k, Close(block))
    ensures Has(body + Close(block), k, Close(block))
  {
    var t, c := body + Close(block), Close(block);
    forall j | 0 <= j < |c| ensures t[k + j] == c[j] {
      assert s[i + (k + j)] == t[k + j] && s[i + k + j] == c[j];
    }
  }

  lemma LineEndsOnce(body: Bytes)
    requires PieceOk(Line(body))
    ensures forall k | 0 <= k < |body| :: !Has(body + LINE_CLOSE, k, LINE_CLOSE)
  {
    forall k | 0 <= k < |body| ensures !Has(body + LINE_CLOSE, k, LINE_CLOSE) {
      HasOne(body + LINE_CLOSE, k, NEWLINE);
      assert (body + LINE_CLOSE)[k] == body[k];
    }
  }

  lemma SpacesKept(s: Bytes, i: nat, n: nat, block: bool)
    requires Has(s, i, Spaces(n))
    ensures i + n <= |s| && Pass(s, i, false, false, block) == Spaces(n) + Pass(s, i + n, false, false, block)
  {
    hide Has, Pass;
    HasFits(s, i, Spaces(n));
    HasIsSlice(s, i, Spaces(n));
    forall k | i <= k < i + n ensures s[k] != QUOTE && s[k] != BACKSLASH && !Has(s, k, Open(block)) {
      SpaceAt(s, i, n, k - i, block);
    }
    RunKept(s, i, n, block);
  }

  lemma SpaceAt(s: Bytes, i: nat, n: nat, k: nat, block: bool)
    requires Has(s, i, Spaces(n)) && k < n
    ensures i + k < |s| && s[i + k] == SPACE && !Has(s, i + k, Open(block))
  {
    assert s[i + k] == Spaces(n)[k];
    hide Has;
    OpensHere(s, i + k, block);
  }

  lemma CodeKept(b: byte, s: Bytes, i: nat, block: bool)
    requires PlainByte(b) && Has(s, i, [b])
    ensures i + 1 <= |s| && Pass(s, i, false, false, block) == [b] + Pass(s, i + 1, false, false, block)
  {
    HasOne(s, i, b);
    OpensHere(s, i, block);
  }

  /** A pass over a piece without comments of the other kind. */
  lemma PieceBlanked(p: Piece, s: Bytes, i: nat, block: bool, blocks: bool, lines: bool)
    requires PieceOk(p) && (if block then lines else blocks) && Has(s, i, RenderOne(p, blocks, lines))
    ensures i + |RenderOne(p, blocks, lines)| <= |s|
    ensures Pass(s, i, false, false, block) ==
            RenderOne(p, blocks || block, lines || !block)
            + Pass(s, i + |RenderOne(p, blocks, lines)|, false, false, block)
  {
    hide Pass, LiteralText, UnitsOk, Has;
    match p
    case Code(b) => CodeKept(b, s, i, block);
    case Lit(us) => LiteralKept(us, s, i, block);
    case Block(body) =>
      if blocks {
        SpacesKept(s, i, |BLOCK_OPEN + (body + BLOCK_CLOSE)|, block);
      } else {
        CommentBlanked(body, s, i, true);
      }
    case Line(body) =>
      if lines {
        SpacesKept(s, i, |LINE_OPEN + (body + LINE_CLOSE)|, block);
      } else {
        LineEndsOnce(body);
        CommentBlanked(body, s, i, false);
      }
  }

  lemma {:induction false} PiecesBlanked(ps: seq<Piece>, s: Bytes, i: nat, block: bool, blocks: bool, lines: bool)
    requires PiecesOk(ps) && (if block then lines else blocks) && Has(s, i, Render(ps, blocks, lines))
    requires i + |Render(ps, blocks, lines)| == |s|
    ensures Pass(s, i, false, false, block) == Render(ps, blocks || block, lines || !block)
    decreases |ps|
  {
    hide Pass, RenderOne, PieceOk, Has;
    if ps == [] {
      assert |Pass(s, i, false, false, block)| == 0;
    } else {
      HasConcat(s, i, RenderOne(ps[0], blocks, lines), Render(ps[1..], blocks, lines));
      PieceBlanked(ps[0], s, i, block, blocks, lines);
      PiecesBlanked(ps[1..], s, i + |RenderOne(ps[0], blocks, lines)|, block, blocks, lines);
    }
  }

  // ---------------------------------------------------------------- both passes

  /** The two passes, the block pass first. */
  function BothPasses(s: Bytes): (r: Bytes)
    ensures |r| == |s|
  {
    Pass(Pass(s, 0, false, false, true), 0, false, false, false)
  }

  /** `json_parse_string_with_comments`: both passes, then the parser, without the byte order mark test. */
  function ParseWithComments(s: Bytes): P.Result {
    P.ParseValue(BothPasses(s), 0, 0)
  }
}
