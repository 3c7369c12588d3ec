/**
 * The in-place comment blanker. Its effect is a function of the text; on JSON interleaved with
 * comments it blanks exactly the comments.
 */
module Comments {
  import opened Bytes
  import opened Strings
  import opened Literals

  const BLOCK_OPEN: Bytes := [SLASH, 42]
  const BLOCK_CLOSE: Bytes := [42, SLASH]
  const LINE_OPEN: Bytes := [SLASH, SLASH]
  const LINE_CLOSE: Bytes := [NEWLINE]

  /** `strstr`: the first place at or behind `i` where `t` stands. */
  function FindFrom(s: Bytes, i: nat, t: Bytes): (p: Option<nat>)
    requires i <= |s|
    ensures p.Some? ==> i <= p.value && Has(s, p.value, t)
    ensures forall k | i <= k && (p.Some? ==> k < p.value) :: !Has(s, k, t) || k > |s|
    decreases |s| - i
  {
    if Has(s, i, t) then Some(i) else if i == |s| then None else FindFrom(s, i + 1, t)
  }

  function Spaces(n: nat): (w: Bytes)
    ensures |w| == n && forall k | 0 <= k < n :: w[k] == SPACE
  {
    seq(n, _ => SPACE)
  }

  /** What `remove_comments` leaves of the text from `i` on. */
  function Blank(s: Bytes, i: nat, inString: bool, escaped: bool, open: Bytes, close: Bytes): (r: Bytes)
    requires i <= |s| && open != [] && close != []
    ensures |r| == |s| - i
    decreases |s| - i
  {
    if i == |s| then []
    else if s[i] == BACKSLASH && !escaped then [s[i]] + Blank(s, i + 1, inString, true, open, close)
    else if s[i] == QUOTE && !escaped then [s[i]] + Blank(s, i + 1, !inString, false, open, close)
    else if !inString && Has(s, i, open) then
      match FindFrom(s, i + |open|, close)
      case None => Spaces(|open|) + s[i + |open|..]
      case Some(p) =>
        Spaces(p + |close| - i) + Blank(s, p + |close|, inString, false, open, close)
    else [s[i]] + Blank(s, i + 1, inString, false, open, close)
  }

  /** Blanking keeps every byte or turns it into a space. */
  lemma {:induction false} OnlySpaces(s: Bytes, i: nat, inString: bool, escaped: bool, open: Bytes, close: Bytes)
    requires i <= |s| && open != [] && close != []
    ensures forall k | 0 <= k < |s| - i ::
              var b := Blank(s, i, inString, escaped, open, close)[k]; b == s[i + k] || b == SPACE
    decreases |s| - i
  {
    var r := Blank(s, i, inString, escaped, open, close);
    if i < |s| {
      var comment := !(s[i] == BACKSLASH && !escaped) && !(s[i] == QUOTE && !escaped) && !inString && Has(s, i, open);
      var p := if comment then FindFrom(s, i + |open|, close) else None;
      if !comment {
        var inString' := if s[i] == QUOTE && !escaped then !inString else inString;
        var escaped' := s[i] == BACKSLASH && !escaped;
        OnlySpaces(s, i + 1, inString', escaped', open, close);
        Shifted(s, i, 1, [s[i]], Blank(s, i + 1, inString', escaped', open, close));
      } else if p.Some? {
        var n := p.value + |close| - i;
        OnlySpaces(s, i + n, inString, false, open, close);
        Shifted(s, i, n, Spaces(n), Blank(s, i + n, inString, false, open, close));
      } else {
        Shifted(s, i, |open|, Spaces(|open|), s[i + |open|..]);
      }
    }
  }

  lemma Shifted(s: Bytes, i: nat, n: nat, head: Bytes, tail: Bytes)
    requires i + n <= |s| && |head| == n && |tail| == |s| - i - n
    requires forall k | 0 <= k < n :: head[k] == s[i + k] || head[k] == SPACE
    requires forall k | 0 <= k < |tail| :: tail[k] == s[i + n + k] || tail[k] == SPACE
    ensures forall k | 0 <= k < |s| - i :: (head + tail)[k] == s[i + k] || (head + tail)[k] == SPACE
  {
    forall k | 0 <= k < |s| - i ensures (head + tail)[k] == s[i + k] || (head + tail)[k] == SPACE {
      if k >= n {
        assert (head + tail)[k] == tail[k - n] && s[i + k] == s[i + n + (k - n)];
      }
    }
  }

  // ---------------------------------------------------------------- the code

  /** `strncmp(string, token, strlen(token)) == 0`, stopping at the first difference. */
  method Matches(a: array<byte>, pos: nat, t: Bytes, ghost n: nat) returns (same: bool)
    requires n < a.Length && a[n] == NUL && NulFree(a[..n]) && NulFree(t) && pos <= n
    ensures same <==> Has(a[..n], pos, t)
  {
    var k := 0;
    while k < |t| && a[pos + k] == t[k]
      invariant 0 <= k <= |t| && pos + k <= n
      invariant forall j | 0 <= j < k :: a[pos + j] == t[j]
    {
      k := k + 1;
    }
    same := k == |t|;
  }

  /** `strstr(string, token)`. */
  method Find(a: array<byte>, pos: nat, t: Bytes, ghost n: nat) returns (p: Option<nat>)
    requires n < a.Length && a[n] == NUL && NulFree(a[..n]) && NulFree(t) && t != [] && pos <= n
    ensures p == FindFrom(a[..n], pos, t)
  {
    hide Has;
    var k := pos;
    while a[k] != NUL
      invariant pos <= k <= n
      invariant FindFrom(a[..n], pos, t) == FindFrom(a[..n], k, t)
      decreases n - k
    {
      var same := Matches(a, k, t, n);
      if same {
        return Some(k);
      }
      k := k + 1;
    }
    assert k == n;
    NothingAtEnd(a[..n], t);
    return None;
  }

  lemma NothingAtEnd(s: Bytes, t: Bytes)
    requires t != []
    ensures !Has(s, |s|, t)
  {
  }

  /** Overwrites `count` bytes with spaces. */
  method Fill(a: array<byte>, pos: nat, count: nat)
    requires pos + count <= a.Length
    modifies a
    ensures a[..] == old(a[..pos]) + Spaces(count) + old(a[pos + count..])
  {
    var i := 0;
    while i < count
      invariant 0 <= i <= count
      invariant forall k | 0 <= k < a.Length ::
                  a[k] == if pos <= k < pos + i then SPACE else old(a[k])
    {
      a[pos + i] := SPACE;
      i := i + 1;
    }
  }

  /** The buffer `b` still holds the text `s` from `pos` on. */
  predicate Unread(b: Bytes, s: Bytes, pos: nat) {
    |b| == |s| && forall k | pos <= k < |s| :: b[k] == s[k]
  }

  /** What stands in front of `pos` and what the blanker will leave behind it make up the result `r`. */
  ghost predicate Halfway(b: Bytes, s: Bytes, pos: nat, inString: bool, escaped: bool, open: Bytes, close: Bytes,
                          r: Bytes)
    requires open != [] && close != []
  {
    pos <= |s| && Unread(b, s, pos) && r == b[..pos] + Blank(s, pos, inString, escaped, open, close)
  }

  lemma KeepByte(b: Bytes, s: Bytes, pos: nat, tail: Bytes, r: Bytes)
    requires pos < |s| && Unread(b, s, pos) && r == b[..pos] + ([s[pos]] + tail)
    ensures r == b[..pos + 1] + tail
  {
    assert b[..pos + 1] == b[..pos] + [s[pos]];
  }

  /** One byte that starts no comment. */
  lemma Step(b: Bytes, s: Bytes, pos: nat, inString: bool, escaped: bool, open: Bytes, close: Bytes, r: Bytes)
    requires open != [] && close != [] && Halfway(b, s, pos, inString, escaped, open, close, r) && pos < |s|
    requires inString || !Has(s, pos, open) || (!escaped && (s[pos] == BACKSLASH || s[pos] == QUOTE))
    ensures b[pos] == s[pos]
    ensures Halfway(b, s, pos + 1, if s[pos] == QUOTE && !escaped then !inString else inString,
                    s[pos] == BACKSLASH && !escaped, open, close, r)
  {
    hide Has, FindFrom;
    var tail := Blank(s, pos + 1, if s[pos] == QUOTE && !escaped then !inString else inString,
                      s[pos] == BACKSLASH && !escaped, open, close);
    KeepByte(b, s, pos, tail, r);
  }

  lemma {:induction false} FindUnread(b: Bytes, s: Bytes, pos: nat, k: nat, t: Bytes)
    requires Unread(b, s, pos) && pos <= k <= |s|
    ensures FindFrom(b, k, t) == FindFrom(s, k, t)
    decreases |s| - k
  {
    HasUnread(b, s, pos, k, t);
    hide Has;
    if k < |s| {
      FindUnread(b, s, pos, k + 1, t);
    }
  }

  lemma HasUnread(b: Bytes, s: Bytes, pos: nat, k: nat, t: Bytes)
    requires Unread(b, s, pos) && pos <= k
    ensures Has(b, k, t) <==> Has(s, k, t)
  {
  }

  /** The branch that has found a start token at `pos`. Ends on the last byte of the comment, or for good. */
  method BlankComment(a: array<byte>, pos: nat, open: Bytes, close: Bytes, ghost escaped: bool,
                      ghost s: Bytes, ghost r: Bytes, ghost n: nat)
      returns (finished: bool, last: nat)
    requires n < a.Length && a[n] == NUL && NulFree(a[..n]) && open != [] && close != [] && NulFree(close)
    requires |s| == n && pos < n && Has(s, pos, open) && Unread(a[..n], s, pos)
    requires escaped || (s[pos] != BACKSLASH && s[pos] != QUOTE)
    requires Halfway(a[..n], s, pos, false, escaped, open, close, r)
    modifies a
    ensures a[n] == NUL && a[n..] == old(a[n..]) && NulFree(a[..n])
    ensures finished ==> a[..n] == r
    ensures !finished ==> pos <= last < n && Halfway(a[..n], s, last + 1, false, false, open, close, r)
  {
    hide Blank, FindFrom, NulFree, Has, Unread, Halfway;
    ghost var head := HeadOfComment(a[..n], s, pos, escaped, open, close, r);
    FillText(a, pos, |open|, s, n);
    finished, last := BlankBody(a, pos + |open|, close, open, head, s, r, n);
  }

  /** The same branch behind the start token: looks for the end token and blanks up to its end. */
  method BlankBody(a: array<byte>, body: nat, close: Bytes, ghost open: Bytes, ghost head: Bytes,
                   ghost s: Bytes, ghost r: Bytes, ghost n: nat)
      returns (finished: bool, last: nat)
    requires n < a.Length && a[n] == NUL && NulFree(a[..n]) && open != [] && close != [] && NulFree(close)
    requires |s| == n && body == |head| + |open| <= n && Unread(a[..n], s, body)
    requires a[..n][..body] == head + Spaces(|open|)
    requires match FindFrom(s, body, close)
             case None => r == head + (Spaces(|open|) + s[body..])
             case Some(p) =>
               p + |close| <= n
               && r == head + (Spaces(p + |close| - |head|) + Blank(s, p + |close|, false, false, open, close))
    modifies a
    ensures a[n] == NUL && a[n..] == old(a[n..]) && NulFree(a[..n])
    ensures finished ==> a[..n] == r
    ensures !finished ==> |head| <= last < n && Halfway(a[..n], s, last + 1, false, false, open, close, r)
  {
    hide Blank, FindFrom, NulFree, Has, Unread;
    var p := Find(a, body, close, n);
    FindUnread(a[..n], s, body, body, close);
    if p.None? {
      Unterminated(a[..n], s, head, |open|, r);
      return true, body;
    }
    var next := p.value + |close|;
    FillText(a, body, next - body, s, n);
    Terminated(a[..n][..next], head, |open|, next - body, Blank(s, next, false, false, open, close), r);
    return false, next - 1;
  }

  lemma Unterminated(b: Bytes, s: Bytes, head: Bytes, m: nat, r: Bytes)
    requires |head| + m <= |s| && Unread(b, s, |head| + m) && b[..|head| + m] == head + Spaces(m)
    requires r == head + (Spaces(m) + s[|head| + m..])
    ensures b == r
  {
    RestKept(b, s, |head| + m);
    ConcatAssoc(head, Spaces(m), s[|head| + m..]);
  }

  lemma Terminated(b: Bytes, head: Bytes, m: nat, k: nat, rest: Bytes, r: Bytes)
    requires b == (head + Spaces(m)) + Spaces(k) && r == head + (Spaces(m + k) + rest)
    ensures r == b + rest
  {
    ConcatAssoc(head, Spaces(m), Spaces(k));
    MoreSpaces(m, k);
    ConcatAssoc(head, Spaces(m + k), rest);
  }

  lemma RestKept(b: Bytes, s: Bytes, pos: nat)
    requires Unread(b, s, pos) && pos <= |s|
    ensures b == b[..pos] + s[pos..]
  {
  }

  lemma MoreSpaces(m: nat, n: nat)
    ensures Spaces(m) + Spaces(n) == Spaces(m + n)
  {
  }

  lemma HeadOfComment(b: Bytes, s: Bytes, pos: nat, escaped: bool, open: Bytes, close: Bytes, r: Bytes)
    returns (head: Bytes)
    requires pos < |s| && open != [] && close != [] && Has(s, pos, open)
    requires escaped || (s[pos] != BACKSLASH && s[pos] != QUOTE)
    requires Halfway(b, s, pos, false, escaped, open, close, r)
    ensures |b| == |s| && head == b[..pos] && |head| == pos && pos + |open| <= |s|
    ensures match FindFrom(s, pos + |open|, close)
            case None => r == head + (Spaces(|open|) + s[pos + |open|..])
            case Some(p) =>
              p + |close| <= |s|
              && r == head + (Spaces(p + |close| - pos) + Blank(s, p + |close|, false, false, open, close))
  {
    CommentUnfolds(s, pos, escaped, open, close);
    hide Blank, FindFrom, Has;
    head := b[..pos];
  }

  lemma CommentUnfolds(s: Bytes, pos: nat, escaped: bool, open: Bytes, close: Bytes)
    requires pos < |s| && open != [] && close != [] && Has(s, pos, open)
    requires escaped || (s[pos] != BACKSLASH && s[pos] != QUOTE)
    ensures pos + |open| <= |s|
    ensures match FindFrom(s, pos + |open|, close)
            case None => Blank(s, pos, false, escaped, open, close) == Spaces(|open|) + s[pos + |open|..]
            case Some(p) =>
              p + |close| <= |s|
              && Blank(s, pos, false, escaped, open, close) ==
                 Spaces(p + |close| - pos) + Blank(s, p + |close|, false, false, open, close)
  {
  }

  /** A fill inside the unread text: still a C string, still unread behind the filled part. */
  method FillText(a: array<byte>, pos: nat, count: nat, ghost s: Bytes, ghost n: nat)
    requires n < a.Length && a[n] == NUL && NulFree(a[..n]) && |s| == n && pos + count <= n && Unread(a[..n], s, pos)
    modifies a
    ensures a[n] == NUL && NulFree(a[..n]) && a[n..] == old(a[n..]) && Unread(a[..n], s, pos + count)
    ensures a[..n][..pos + count] == old(a[..n])[..pos] + Spaces(count)
  {
    ghost var o := a[..];
    Fill(a, pos, count);
    forall k | 0 <= k < n ensures a[..n][k] != NUL {
      assert pos <= k < pos + count || a[k] == o[..n][k];
    }
    assert o[..n][..pos] == o[..pos] && a[..n][..pos + count] == a[..pos + count];
  }

  /** `remove_comments`: the `n` bytes in front of the NUL become what `Blank` says; nothing else changes. */
  method RemoveComments(a: array<byte>, open: Bytes, close: Bytes, ghost n: nat)
    requires n < a.Length && a[n] == NUL && NulFree(a[..n]) && NulFree(open) && NulFree(close)
    modifies a
    ensures open == [] || close == [] ==> a[..] == old(a[..])
    ensures open != [] && close != [] ==> a[..n] == Blank(old(a[..n]), 0, false, false, open, close)
    ensures a[n..] == old(a[n..]) && NulFree(a[..n])
  {
    if |open| == 0 || |close| == 0 {
      return;
    }
    ghost var s := a[..n];
    ghost var r := Blank(s, 0, false, false, open, close);
    assert Halfway(s, s, 0, false, false, open, close, r) by {
      assert s[..0] + r == r;
    }
    hide Blank, Has, NulFree;
    var pos := 0;
    var inString, escaped := false, false;
    while a[pos] != NUL
      invariant 0 <= pos <= n && a[n] == NUL && a[n..] == old(a[n..]) && NulFree(a[..n])
      invariant Halfway(a[..n], s, pos, inString, escaped, open, close, r)
      decreases n - pos
    {
      var current := a[pos];
      assert current == a[..n][pos] == s[pos];
      if current == BACKSLASH && !escaped {
        Step(a[..n], s, pos, inString, escaped, open, close, r);
        escaped := true;
        pos := pos + 1;
        continue;
      } else if current == QUOTE && !escaped {
        Step(a[..n], s, pos, inString, escaped, open, close, r);
        inString := !inString;
      } else {
        var starts := false;
        if !inString {
          starts := Matches(a, pos, open, n);
          HasUnread(a[..n], s, pos, pos, open);
        }
        if starts {
          var finished;
          finished, pos := BlankComment(a, pos, open, close, escaped, s, r, n);
          if finished {
            return;
          }
        } else {
          Step(a[..n], s, pos, inString, escaped, open, close, r);
        }
      }
      escaped := false;
      pos := pos + 1;
    }
    NoNulInside(a[..n], pos);
    AllRead(a[..n], s, pos, inString, escaped, open, close, r);
  }

  lemma NoNulInside(b: Bytes, k: nat)
    requires NulFree(b)
    ensures k < |b| ==> b[k] != NUL
  {
  }

  lemma AllRead(b: Bytes, s: Bytes, pos: nat, inString: bool, escaped: bool, open: Bytes, close: Bytes, r: Bytes)
    requires open != [] && close != [] && Halfway(b, s, pos, inString, escaped, open, close, r) && pos == |s|
    ensures b == r
  {
    assert b[..pos] + [] == b;
  }
}
