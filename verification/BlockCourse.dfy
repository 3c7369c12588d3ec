/**
 * How the block pass gets through line comments. It comes first and does not know them: it reads the quotes in
 * them as ends of strings, and opens block comments there.
 */
module BlockCourse {
  import opened Bytes
  import opened Comments
  import opened CommentedJson

  /**
   * How the block pass gets through a text: to its end, where it is in a string or not; to a place where it
   * blanks what is no comment; or into a comment that goes on behind the text.
   */
  datatype Way = Ends(inString: bool) | Spoils | RunsOn

  /** The way through `t` from `k` on, if block comments may open from `from` on only. */
  function Cross(t: Bytes, k: nat, inString: bool, escaped: bool, from: nat): Way
    requires k <= |t|
    decreases |t| - k
  {
    if k == |t| then Ends(inString)
    else if !inString && Has(t, k, BLOCK_OPEN) then
      if k < from then Spoils
      else
        match FindFrom(t, k + 2, BLOCK_CLOSE)
        case None => RunsOn
        case Some(p) => Cross(t, p + 2, false, false, from)
    else Cross(t, k + 1, Toggles(t[k], inString, escaped), Escapes(t[k], escaped), from)
  }

  predicate Toggles(b: byte, inString: bool, escaped: bool) {
    if b == QUOTE && !escaped then !inString else inString
  }

  predicate Escapes(b: byte, escaped: bool) {
    b == BACKSLASH && !escaped
  }

  /** The last byte neither escapes the next one nor opens a comment together with it. */
  predicate Closed(t: Bytes) {
    t != [] && t[|t| - 1] != SLASH && t[|t| - 1] != BACKSLASH
  }

  lemma PieceIsClosed(p: Piece)
    requires PieceOk(p) && !p.Block?
    ensures Closed(RenderOne(p, false, false))
  {
  }

  // ---------------------------------------------------------------- a text inside another one

  lemma HasInside(t: Bytes, s: Bytes, i: nat, k: nat, u: Bytes)
    requires Has(s, i, t) && k + |u| <= |t|
    ensures Has(s, i + k, u) <==> Has(t, k, u)
  {
    forall j | 0 <= j < |u| ensures s[i + k + j] == u[j] <==> t[k + j] == u[j] {
      assert s[i + (k + j)] == t[k + j];
    }
  }

  lemma OpensInside(t: Bytes, s: Bytes, i: nat, k: nat)
    requires Has(s, i, t) && k < |t| && Closed(t)
    ensures i + k < |s| && s[i + k] == t[k] && (Has(s, i + k, BLOCK_OPEN) <==> Has(t, k, BLOCK_OPEN))
  {
    if k + 1 < |t| {
      HasInside(t, s, i, k, BLOCK_OPEN);
    } else {
      OpensHere(s, i + k, true);
      OpensHere(t, k, true);
    }
  }

  lemma {:induction false} FindInside(t: Bytes, s: Bytes, i: nat, k: nat, u: Bytes)
    requires Has(s, i, t) && k <= |t| && FindFrom(t, k, u).Some?
    ensures i + k <= |s| && FindFrom(s, i + k, u) == Some(i + FindFrom(t, k, u).value)
    decreases |t| - k
  {
    hide Has;
    var p := FindFrom(t, k, u).value;
    HasFits(t, p, u);
    HasFits(s, i, t);
    HasInside(t, s, i, k, u);
    if !Has(t, k, u) {
      FindInside(t, s, i, k + 1, u);
    }
  }

  lemma ByteKept(s: Bytes, i: nat, inString: bool, escaped: bool)
    requires i < |s| && (inString || !Has(s, i, BLOCK_OPEN))
    ensures Pass(s, i, inString, escaped, true) ==
            [s[i]] + Pass(s, i + 1, Toggles(s[i], inString, escaped), Escapes(s[i], escaped), true)
  {
    hide Has;
  }

  /** What a comment that opens here becomes. */
  lemma CommentHere(s: Bytes, i: nat, escaped: bool)
    requires i < |s| && Has(s, i, BLOCK_OPEN)
    ensures i + 2 <= |s|
    ensures match FindFrom(s, i + 2, BLOCK_CLOSE)
            case None => Pass(s, i, false, escaped, true) == Spaces(2) + s[i + 2..]
            case Some(p) =>
              p + 2 <= |s| && Pass(s, i, false, escaped, true) == Spaces(p + 2 - i) + Pass(s, p + 2, false, false, true)
  {
    OpensHere(s, i, true);
    hide Has;
    CommentUnfolds(s, i, escaped, BLOCK_OPEN, BLOCK_CLOSE);
  }

  // ---------------------------------------------------------------- the three ways

  /** A text that is crossed is treated inside another one as on its own. */
  lemma {:induction false} Crossed(t: Bytes, s: Bytes, i: nat, k: nat, inString: bool, escaped: bool, from: nat)
    requires Has(s, i, t) && Closed(t) && k <= |t| && (k == |t| ==> !escaped)
    requires Cross(t, k, inString, escaped, from).Ends?
    ensures i + |t| <= |s|
    ensures Pass(s, i + k, inString, escaped, true) ==
            Pass(t, k, inString, escaped, true)
            + Pass(s, i + |t|, Cross(t, k, inString, escaped, from).inString, false, true)
    decreases |t| - k
  {
    hide Has, Pass, FindFrom;
    HasFits(s, i, t);
    var rest := Pass(s, i + |t|, Cross(t, k, inString, escaped, from).inString, false, true);
    if k == |t| {
      assert Pass(t, k, inString, escaped, true) == [];
      NothingInFront(rest);
    } else {
      OpensInside(t, s, i, k);
      if !inString && Has(t, k, BLOCK_OPEN) {
        CommentHere(t, k, escaped);
        CommentHere(s, i + k, escaped);
        FindInside(t, s, i, k + 2, BLOCK_CLOSE);
        var p := FindFrom(t, k + 2, BLOCK_CLOSE).value;
        Crossed(t, s, i, p + 2, false, false, from);
        ConcatAssoc(Spaces(p + 2 - k), Pass(t, p + 2, false, false, true), rest);
      } else {
        ByteKept(t, k, inString, escaped);
        ByteKept(s, i + k, inString, escaped);
        var st, e := Toggles(t[k], inString, escaped), Escapes(t[k], escaped);
        Crossed(t, s, i, k + 1, st, e, from);
        ConcatAssoc([t[k]], Pass(t, k + 1, st, e, true), rest);
      }
    }
  }

  /** A text in which no comment may open is kept when it is crossed. */
  lemma {:induction false} KeptWhole(t: Bytes, k: nat, inString: bool, escaped: bool)
    requires k <= |t|
    ensures Cross(t, k, inString, escaped, |t|) != RunsOn
    ensures Cross(t, k, inString, escaped, |t|).Ends? ==> Pass(t, k, inString, escaped, true) == t[k..]
    decreases |t| - k
  {
    hide Has, Pass;
    if k == |t| {
      assert Pass(t, k, inString, escaped, true) == [] == t[k..];
    } else if inString || !Has(t, k, BLOCK_OPEN) {
      ByteKept(t, k, inString, escaped);
      KeptWhole(t, k + 1, Toggles(t[k], inString, escaped), Escapes(t[k], escaped));
      assert t[k..] == [t[k]] + t[k + 1..];
    }
  }

  /** A slash that opens a comment where none may open becomes a space. */
  lemma {:induction false} SpoiledAt(t: Bytes, s: Bytes, i: nat, k: nat, inString: bool, escaped: bool, from: nat)
    returns (j: nat)
    requires Has(s, i, t) && Closed(t) && k <= |t| && Cross(t, k, inString, escaped, from) == Spoils
    ensures i + |t| <= |s| && k <= j < |t| && j < from && t[j] == SLASH
    ensures Pass(s, i + k, inString, escaped, true)[j - k] == SPACE
    decreases |t| - k
  {
    hide Has, Pass, FindFrom;
    HasFits(s, i, t);
    OpensInside(t, s, i, k);
    if !inString && Has(t, k, BLOCK_OPEN) {
      CommentHere(s, i + k, escaped);
      OpensHere(t, k, true);
      if k < from {
        j := k;
      } else {
        var p := FindFrom(t, k + 2, BLOCK_CLOSE).value;
        HasFits(t, p, BLOCK_CLOSE);
        FindInside(t, s, i, k + 2, BLOCK_CLOSE);
        j := SpoiledAt(t, s, i, p + 2, false, false, from);
      }
    } else {
      ByteKept(s, i + k, inString, escaped);
      j := SpoiledAt(t, s, i, k + 1, Toggles(t[k], inString, escaped), Escapes(t[k], escaped), from);
    }
  }

  /** A line, in which a comment may open that goes on behind it. */
  predicate IsLine(t: Bytes) {
    t != [] && t[|t| - 1] == NEWLINE
  }

  lemma LineIsClosed(t: Bytes)
    requires IsLine(t)
    ensures Closed(t)
  {
  }

  lemma {:induction false} FindBehind(t: Bytes, s: Bytes, i: nat, k: nat)
    requires Has(s, i, t) && IsLine(t) && k <= |t| && FindFrom(t, k, BLOCK_CLOSE) == None
    ensures i + |t| <= |s| && FindFrom(s, i + k, BLOCK_CLOSE) == FindFrom(s, i + |t|, BLOCK_CLOSE)
    decreases |t| - k
  {
    hide Has;
    HasFits(s, i, t);
    if k < |t| {
      NoneHere(t, s, i, k);
      FindBehind(t, s, i, k + 1);
    }
  }

  lemma NoneHere(t: Bytes, s: Bytes, i: nat, k: nat)
    requires Has(s, i, t) && IsLine(t) && k < |t| && !Has(t, k, BLOCK_CLOSE)
    ensures !Has(s, i + k, BLOCK_CLOSE)
  {
    assert s[i + k] == t[k];
    assert BLOCK_CLOSE == [STAR] + [SLASH];
    if k + 1 < |t| {
      HasInside(t, s, i, k, BLOCK_CLOSE);
    } else {
      HasCons(s, i + k, STAR, [SLASH]);
    }
  }

  /** If no comment ends behind it, the comment that goes on behind the line is no comment after all. */
  lemma {:induction false} RunsOnForNothing(t: Bytes, s: Bytes, i: nat, k: nat, inString: bool, escaped: bool,
                                            from: nat)
    requires Has(s, i, t) && IsLine(t) && k <= |t| && Cross(t, k, inString, escaped, from) == RunsOn
    requires i + |t| <= |s| && FindFrom(s, i + |t|, BLOCK_CLOSE) == None
    ensures Pass(s, i + k, inString, escaped, true) == Pass(t, k, inString, escaped, true) + s[i + |t|..]
    decreases |t| - k
  {
    hide Has, Pass, FindFrom, IsLine, Closed, Toggles, Escapes, Spaces;
    LineIsClosed(t);
    OpensInside(t, s, i, k);
    if !inString && Has(t, k, BLOCK_OPEN) {
      HasFits(t, k, BLOCK_OPEN);
      CommentHere(t, k, escaped);
      CommentHere(s, i + k, escaped);
      if FindFrom(t, k + 2, BLOCK_CLOSE).None? {
        FindBehind(t, s, i, k + 2);
        SliceInside(t, s, i, k + 2);
        ConcatAssoc(Spaces(2), t[k + 2..], s[i + |t|..]);
      } else {
        var p := FindFrom(t, k + 2, BLOCK_CLOSE).value;
        HasFits(t, p, BLOCK_CLOSE);
        FindInside(t, s, i, k + 2, BLOCK_CLOSE);
        RunsOnForNothing(t, s, i, p + 2, false, false, from);
        ConcatAssoc(Spaces(p + 2 - k), Pass(t, p + 2, false, false, true), s[i + |t|..]);
      }
    } else {
      ByteKept(t, k, inString, escaped);
      ByteKept(s, i + k, inString, escaped);
      var st, e := Toggles(t[k], inString, escaped), Escapes(t[k], escaped);
      RunsOnForNothing(t, s, i, k + 1, st, e, from);
      ConcatAssoc([t[k]], Pass(t, k + 1, st, e, true), s[i + |t|..]);
    }
  }

  lemma SliceInside(t: Bytes, s: Bytes, i: nat, k: nat)
    requires Has(s, i, t) && k <= |t|
    ensures i + |t| <= |s| && s[i + k..] == t[k..] + s[i + |t|..]
  {
    HasIsSlice(s, i, t);
    assert s[i + k..] == s[i..i + |t|][k..] + s[i + |t|..];
  }

  /** `r` is blank from `a` to `b` and goes on with `tail`. */
  predicate BlankTo(r: Bytes, a: nat, b: nat, tail: Bytes) {
    a <= b <= |r| && (forall j | a <= j < b :: r[j] == SPACE) && r[b..] == tail
  }

  lemma BlankBehind(h: Bytes, r: Bytes, a: nat, b: nat, tail: Bytes)
    requires BlankTo(r, a, b, tail)
    ensures BlankTo(h + r, |h| + a, |h| + b, tail)
  {
    forall j | |h| + a <= j < |h| + b ensures (h + r)[j] == SPACE {
      assert (h + r)[j] == r[j - |h|];
    }
    assert (h + r)[|h| + b..] == r[b..];
  }

  lemma BlankFromStart(n: nat, a: nat, tail: Bytes)
    requires a <= n
    ensures BlankTo(Spaces(n) + tail, a, n, tail)
  {
  }

  /** Otherwise the pass blanks the line end and everything up to the end of that comment. */
  lemma {:induction false} RunsOnTo(t: Bytes, s: Bytes, i: nat, k: nat, inString: bool, escaped: bool,
                                    from: nat, p: nat)
    requires Has(s, i, t) && IsLine(t) && k <= |t| && Cross(t, k, inString, escaped, from) == RunsOn
    requires i + |t| <= |s| && FindFrom(s, i + |t|, BLOCK_CLOSE) == Some(p)
    ensures k < |t| && p + 2 <= |s| && i + |t| <= p
    ensures BlankTo(Pass(s, i + k, inString, escaped, true), |t| - 1 - k, p + 2 - i - k,
                    Pass(s, p + 2, false, false, true))
    decreases |t| - k
  {
    hide Has, Pass, FindFrom, IsLine, Closed, Toggles, Escapes, Spaces, BlankTo;
    LineIsClosed(t);
    HasFits(s, p, BLOCK_CLOSE);
    OpensInside(t, s, i, k);
    var tail := Pass(s, p + 2, false, false, true);
    if !inString && Has(t, k, BLOCK_OPEN) {
      HasFits(t, k, BLOCK_OPEN);
      CommentHere(s, i + k, escaped);
      if FindFrom(t, k + 2, BLOCK_CLOSE).None? {
        FindBehind(t, s, i, k + 2);
        BlankFromStart(p + 2 - i - k, |t| - 1 - k, tail);
      } else {
        var q := FindFrom(t, k + 2, BLOCK_CLOSE).value;
        HasFits(t, q, BLOCK_CLOSE);
        FindInside(t, s, i, k + 2, BLOCK_CLOSE);
        RunsOnTo(t, s, i, q + 2, false, false, from, p);
        BlankBehind(Spaces(q + 2 - k), Pass(s, i + q + 2, false, false, true), |t| - 3 - q, p - i - q, tail);
      }
    } else {
      ByteKept(s, i + k, inString, escaped);
      var st, e := Toggles(t[k], inString, escaped), Escapes(t[k], escaped);
      RunsOnTo(t, s, i, k + 1, st, e, from, p);
      BlankBehind([t[k]], Pass(s, i + k + 1, st, e, true), |t| - 2 - k, p + 1 - i - k, tail);
    }
  }
}
