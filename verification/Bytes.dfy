/** Bytes, and the C-string conventions shared by the whole model. */
module Bytes {

  /** `unsigned char`; the bit operations of the C code are written as division and remainder. */
  type byte = b: int | 0 <= b < 256

  /** The bytes of a C string in front of its terminating NUL. */
  type Bytes = seq<byte>

  datatype Option<+T> = None | Some(value: T)

  const NUL: byte := 0
  const QUOTE: byte := 34
  const COMMA: byte := 44
  const MINUS: byte := 45
  const DOT: byte := 46
  const SLASH: byte := 47
  const COLON: byte := 58
  const OPEN_BRACKET: byte := 91
  const BACKSLASH: byte := 92
  const CLOSE_BRACKET: byte := 93
  const OPEN_BRACE: byte := 123
  const CLOSE_BRACE: byte := 125
  const SPACE: byte := 32
  const NEWLINE: byte := 10

  /** `s[i]` in C: behind the content stands the terminating NUL, and nothing may be read past it. */
  function At(s: Bytes, i: nat): byte
    requires i <= |s|
  {
    if i < |s| then s[i] else NUL
  }

  predicate NulFree(s: Bytes) {
    forall i | 0 <= i < |s| :: s[i] != NUL
  }

  /** What `strlen`, `strcmp` and every other reader see of a buffer: the bytes up to the first NUL. */
  function CView(s: Bytes): (v: Bytes)
    ensures NulFree(v) && v <= s
    ensures v == s || s[|v|] == NUL
  {
    if s == [] || s[0] == NUL then [] else [s[0]] + CView(s[1..])
  }

  lemma CViewOfNulFree(s: Bytes)
    requires NulFree(s)
    ensures CView(s) == s
  {
  }

  // ---------------------------------------------------------------- texts inside texts

  /** `t` stands in `s` at position `i`. */
  predicate Has(s: Bytes, i: nat, t: Bytes) {
    i + |t| <= |s| && forall k | 0 <= k < |t| :: s[i + k] == t[k]
  }

  lemma HasConcat(s: Bytes, i: nat, a: Bytes, b: Bytes)
    ensures Has(s, i, a + b) <==> Has(s, i, a) && Has(s, i + |a|, b)
  {
    if Has(s, i, a + b) {
      forall k | 0 <= k < |a| ensures s[i + k] == a[k] {
        assert (a + b)[k] == a[k];
      }
      forall k | 0 <= k < |b| ensures s[i + |a| + k] == b[k] {
        assert s[i + (|a| + k)] == (a + b)[|a| + k];
      }
    }
  }

  lemma HasOne(s: Bytes, i: nat, b: byte)
    ensures Has(s, i, [b]) <==> i < |s| && s[i] == b
  {
    if Has(s, i, [b]) {
      assert s[i + 0] == [b][0];
    }
  }

  lemma HasCons(s: Bytes, i: nat, b: byte, t: Bytes)
    ensures Has(s, i, [b] + t) <==> i < |s| && s[i] == b && Has(s, i + 1, t)
  {
    HasConcat(s, i, [b], t);
    HasOne(s, i, b);
  }

  lemma HasThree(s: Bytes, i: nat, a: Bytes, b: Bytes, c: Bytes)
    ensures Has(s, i, a + (b + c)) <==> Has(s, i, a) && Has(s, i + |a|, b) && Has(s, i + |a| + |b|, c)
    ensures |a + (b + c)| == |a| + |b| + |c|
  {
    hide Has;
    HasConcat(s, i, a, b + c);
    HasConcat(s, i + |a|, b, c);
  }

  lemma HasFour(s: Bytes, i: nat, a: Bytes, b: Bytes, c: Bytes, d: Bytes)
    ensures Has(s, i, a + (b + (c + d))) <==>
            Has(s, i, a) && Has(s, i + |a|, b) && Has(s, i + |a| + |b|, c) && Has(s, i + |a| + |b| + |c|, d)
    ensures |a + (b + (c + d))| == |a| + |b| + |c| + |d|
  {
    hide Has;
    HasConcat(s, i, a, b + (c + d));
    HasThree(s, i + |a|, b, c, d);
  }

  lemma HasSelf(s: Bytes, t: Bytes)
    ensures Has(s + t, 0, s) && Has(s + t, |s|, t)
  {
  }

  lemma HasFits(s: Bytes, i: nat, t: Bytes)
    requires Has(s, i, t)
    ensures i + |t| <= |s|
  {
  }

  lemma HasIsSlice(s: Bytes, i: nat, t: Bytes)
    requires Has(s, i, t)
    ensures s[i..i + |t|] == t
  {
  }

  lemma ConcatAssoc<T>(a: seq<T>, b: seq<T>, c: seq<T>)
    ensures (a + b) + c == a + (b + c)
  {
  }

  lemma NothingInFront(t: Bytes)
    ensures [] + t == t
  {
  }
}
