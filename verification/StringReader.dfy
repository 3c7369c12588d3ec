/** The C code that reads string literals: cursors, an output buffer, and its allocations. */
module StringReader {
  import opened Bytes
  import opened Strings
  import opened Memory

  /** `skip_quotes`: moves the cursor behind the closing quote. */
  method SkipQuotes(s: Bytes, pos: nat) returns (ok: bool, next: nat)
    requires NulFree(s) && pos <= |s|
    ensures pos <= next <= |s|
    ensures ok <==> At(s, pos) == QUOTE && ClosingQuote(s, pos + 1).Some?
    ensures ok ==> next == ClosingQuote(s, pos + 1).value + 1
  {
    next := pos;
    if At(s, next) != QUOTE {
      return false, next;
    }
    next := next + 1;
    while At(s, next) != QUOTE
      invariant pos < next <= |s|
      invariant ClosingQuote(s, next) == ClosingQuote(s, pos + 1)
      decreases |s| - next
    {
      if At(s, next) == NUL {
        return false, next;
      } else if At(s, next) == BACKSLASH {
        next := next + 1;
        if At(s, next) == NUL {
          return false, next;
        }
      }
      next := next + 1;
    }
    next := next + 1;
    return true, next;
  }

  /** Writes `bytes` at `out`, as the assignments to `processed_ptr` do. */
  method Write(output: array<byte>, out: nat, bytes: Bytes)
    requires out + |bytes| <= output.Length
    modifies output
    ensures output[..out + |bytes|] == old(output[..out]) + bytes
  {
    var k := 0;
    while k < |bytes|
      invariant 0 <= k <= |bytes|
      invariant output[..out + k] == old(output[..out]) + bytes[..k]
    {
      output[out + k] := bytes[k];
      assert output[..out + k + 1] == output[..out + k] + [bytes[k]];
      k := k + 1;
    }
  }

  /**
   * The switch of `process_string`: decodes the byte or escape at `inp` into the buffer at `out`.
   * Both cursors end behind what was read and written.
   */
  method DecodeInto(input: Bytes, inp: nat, output: array<byte>, out: nat) returns (ok: bool, inp': nat, out': nat)
    requires inp < |input|
    requires DecodeStep(input, inp).Some? ==> out + |DecodeStep(input, inp).value.out| <= output.Length
    modifies output
    ensures ok <==> DecodeStep(input, inp).Some?
    ensures ok ==> inp' == inp + DecodeStep(input, inp).value.len
    ensures ok ==> out' == out + |DecodeStep(input, inp).value.out|
    ensures ok ==> out' <= output.Length && output[..out'] == old(output[..out]) + DecodeStep(input, inp).value.out
  {
    hide Hex4, Utf16Bytes, PairCodePoint;
    inp', out' := inp, out;
    if At(input, inp') == BACKSLASH {
      inp' := inp' + 1;
      var e := ShortEscape(At(input, inp'));
      if e.Some? {
        Write(output, out, [e.value]);
      } else if At(input, inp') == LETTER_U {
        var u := ParseUtf16(input, inp');
        if u.None? {
          return false, inp', out';
        }
        Write(output, out, u.value.out);
        out' := out' + |u.value.out| - 1;
        inp' := inp' + u.value.len - 1;
      } else {
        return false, inp', out';
      }
    } else if At(input, inp') < 0x20 {
      return false, inp', out';
    } else {
      Write(output, out, [At(input, inp')]);
    }
    return true, inp' + 1, out' + 1;
  }

  /** A `char *` block; its bytes do not change once the block is handed out. */
  class CString {
    const bytes: Bytes

    constructor (bytes: Bytes)
      ensures this.bytes == bytes
    {
      this.bytes := bytes;
    }
  }

  /**
   * `process_string`: decodes the `len` bytes from `start` on, which `skip_quotes` has found to be
   * the body of a literal, into a buffer of `len + 1` bytes, and hands out a copy of the right size.
   * The buffer is freed in every case.
   */
  method ProcessString(mem: Mem, input: Bytes, start: nat, len: nat) returns (r: CString?)
    requires NulFree(input) && start <= |input| && ClosingQuote(input, start) == Some(start + len)
    modifies mem
    ensures mem.requests >= old(mem.requests)
    ensures r == null ==> mem.live == old(mem.live)
    ensures r == null ==> Decode(input, start).None? || mem.FailedSince(old(mem.requests))
    ensures r != null ==> fresh(r) && mem.live == old(mem.live) + {r} && Decode(input, start) == Some(r.bytes)
  {
    hide DecodeStep;
    r := null;
    var output := new byte[len + 1];
    var granted := mem.Malloc(output);
    if !granted {
      return;
    }
    var inp, out := start, 0;
    while At(input, inp) != NUL && inp - start < len
      invariant start <= inp <= start + len && 0 <= out <= inp - start
      invariant ClosingQuote(input, inp) == Some(start + len)
      invariant Decode(input, start).Some? <==> Decode(input, inp).Some?
      invariant Decode(input, start).Some? ==>
                  Decode(input, start).value == output[..out] + Decode(input, inp).value
      invariant mem.requests == old(mem.requests) + 1 && mem.live == old(mem.live) + {output}
      decreases |input| - inp
    {
      if DecodeStep(input, inp).Some? {
        StepInside(input, inp);
      }
      ghost var before := output[..out];
      var ok, inp', out' := DecodeInto(input, inp, output, out);
      if !ok {
        mem.Free(output);
        return;
      }
      Prepend(before, DecodeStep(input, inp).value.out, Decode(input, inp'));
      inp, out := inp', out';
    }
    assert Decode(input, start) == Some(output[..out] + []);
    ghost var decoded := output[..out];
    output[out] := NUL;
    assert output[..out] == decoded == decoded + [];
    var text := new CString(output[..out]);
    granted := mem.Malloc(text);
    if granted {
      r := text;
    }
    mem.Free(output);
  }

  lemma Prepend(a: Bytes, b: Bytes, tail: Option<Bytes>)
    ensures tail.Some? ==> a + (b + tail.value) == (a + b) + tail.value
  {
  }

  /** `get_quoted_string`: cursor and result exactly as `GetQuoted`, unless an allocation fails. */
  method GetQuotedString(mem: Mem, s: Bytes, pos: nat) returns (r: CString?, next: nat)
    requires NulFree(s) && pos <= |s|
    modifies mem
    ensures mem.requests >= old(mem.requests)
    ensures pos <= next <= |s|
    ensures r == null ==> mem.live == old(mem.live)
    ensures r == null ==> GetQuoted(s, pos).None? || mem.FailedSince(old(mem.requests))
    ensures r != null ==> fresh(r) && mem.live == old(mem.live) + {r}
    ensures r != null ==> GetQuoted(s, pos) == Some(Quoted(CView(r.bytes), next))
  {
    r := null;
    var ok;
    ok, next := SkipQuotes(s, pos);
    if ok {
      r := ProcessString(mem, s, pos + 1, next - pos - 2);
    }
  }
}
