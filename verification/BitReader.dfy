/** The decompressor's bit buffer and input cursor (TINFL_GET_BYTE, TINFL_NEED_BITS, TINFL_GET_BITS,
    TINFL_SKIP_BITS). */
module BitReader {
  import opened Arith
  import opened Bits
  import opened Format

  /** The value of the input's bits from position a up to b. */
  ghost function Span(input: Bytes, a: nat, b: nat): nat
    requires a <= b <= 8 * |input|
  {
    Val(BytesBits(input)[a..b])
  }

  /** The next byte goes above the bits waiting. */
  lemma SpanByte(input: Bytes, a: nat, k: nat)
    requires k < |input| && a <= 8 * k
    ensures Span(input, a, 8 * k + 8) == Span(input, a, 8 * k) + input[k] as nat * Pow2(8 * k - a)
  {
    hide BytesBits, Val, ToBits;
    var s := BytesBits(input);
    BytesBitsAt(input, k);
    Pow2Table();
    ValToBits(input[k], 8);
    ValConcat(s[a..8 * k], s[8 * k..8 * k + 8]);
    assert s[a..8 * k + 8] == s[a..8 * k] + s[8 * k..8 * k + 8];
  }

  /** The low n bits are the next n bits of the stream; the rest are what follows. */
  lemma SpanSplit(input: Bytes, a: nat, m: nat, b: nat)
    requires a <= m <= b <= 8 * |input|
    ensures Span(input, a, b) / Pow2(m - a) >= 0
    ensures Span(input, a, m) == Span(input, a, b) % Pow2(m - a)
    ensures Span(input, m, b) == Span(input, a, b) / Pow2(m - a)
  {
    hide BytesBits, Val;
    var s := BytesBits(input);
    ValSplit(s[a..b], m - a);
    assert s[a..b][..m - a] == s[a..m] && s[a..b][m - a..] == s[m..b];
  }

  lemma SpanBound(input: Bytes, a: nat, b: nat)
    requires a <= b <= 8 * |input|
    ensures Span(input, a, b) < Pow2(b - a)
  {
    ValBound(BytesBits(input)[a..b]);
  }

  class Reader {
    const input: Bytes
    /** The next byte to load, and the bits loaded but not consumed. */
    var pos: nat
    var bitBuf: nat
    var numBits: nat

    /** The 64-bit buffer holds the bits between the position reached and the next byte. */
    ghost predicate Valid()
      reads this
    {
      && pos <= |input| && numBits <= 8 * pos && numBits <= 64
      && bitBuf == Span(input, 8 * pos - numBits, 8 * pos)
    }

    /** How many bits of the stream have been consumed. */
    ghost function Here(): nat
      reads this
      requires numBits <= 8 * pos
    {
      8 * pos - numBits
    }

    constructor (input: Bytes)
      ensures Valid() && this.input == input && pos == 0 && numBits == 0
    {
      this.input, pos, bitBuf, numBits := input, 0, 0, 0;
    }

    /** Loads one byte above the bits waiting. */
    method PullByte() returns (ok: bool)
      requires Valid() && numBits <= 56
      modifies this
      ensures Valid() && Here() == old(Here()) && (ok <==> old(pos) < |input|)
      ensures ok ==> numBits == old(numBits) + 8
      ensures !ok ==> numBits == old(numBits) && pos == old(pos)
    {
      hide Span;
      ok := pos < |input|;
      if ok {
        SpanByte(input, 8 * pos - numBits, pos);
        var c: nat := input[pos];
        MulNonNeg(c, Pow2(numBits));
        bitBuf := bitBuf + c * Pow2(numBits);
        pos, numBits := pos + 1, numBits + 8;
      }
    }

    /** Loads k bytes that are known to be there. */
    method Pull(k: nat)
      requires Valid() && pos + k <= |input| && numBits + 8 * k <= 64
      modifies this
      ensures Valid() && Here() == old(Here()) && numBits == old(numBits) + 8 * k && pos == old(pos) + k
    {
      hide Span;
      for i := 0 to k
        invariant Valid() && Here() == old(Here()) && numBits == old(numBits) + 8 * i && pos == old(pos) + i
      {
        var ok := PullByte();
      }
    }

    /** Loads bytes until n bits are waiting. */
    method NeedBits(n: nat) returns (ok: bool)
      requires Valid() && numBits < n <= 16
      modifies this
      ensures Valid() && Here() == old(Here())
      ensures ok ==> n <= numBits < n + 8
      ensures (ok <==> old(Here()) + n <= 8 * |input|) && (!ok ==> pos == |input|)
    {
      hide Span;
      ok := PullByte();
      while ok && numBits < n
        invariant Valid() && Here() == old(Here()) && (ok ==> numBits < n + 8) &&
            (!ok ==> pos == |input| && numBits < n)
        decreases |input| - pos, ok
      {
        ok := PullByte();
      }
    }

    /** Consumes n of the bits waiting. */
    method Drop(n: nat)
      requires Valid() && n <= numBits
      modifies this`bitBuf, this`numBits
      ensures Valid() && Here() == old(Here()) + n && numBits == old(numBits) - n
    {
      hide Span;
      SpanSplit(input, 8 * pos - numBits, 8 * pos - numBits + n, 8 * pos);
      bitBuf := bitBuf / Pow2(n);
      numBits := numBits - n;
    }

    /** The next n bits. */
    method GetBits(n: nat) returns (ok: bool, b: nat)
      requires Valid() && n <= 16
      modifies this
      ensures Valid() && (ok <==> old(Here()) + n <= 8 * |input|)
      ensures !ok ==> Here() == old(Here()) && pos == |input|
      ensures ok ==>
          ReadBits(BytesBits(input), old(Here()), n) == Got(b, Here()) && b < Pow2(n) && Here() == old(Here()) + n
    {
      hide Span, Val, BytesBits;
      ok, b := true, 0;
      if numBits < n {
        ok := NeedBits(n);
      }
      if ok {
        SpanSplit(input, 8 * pos - numBits, 8 * pos - numBits + n, 8 * pos);
        SpanRead(input, 8 * pos - numBits, n);
        SpanBound(input, 8 * pos - numBits, 8 * pos - numBits + n);
        b := bitBuf % Pow2(n);
        Drop(n);
      }
    }

    /** The next byte, straight from the input when no bits are waiting. */
    method GetByte() returns (ok: bool, c: nat)
      requires Valid() && numBits == 0
      modifies this
      ensures Valid() && numBits == 0 && (ok <==> old(Here()) + 8 <= 8 * |input|)
      ensures !ok ==> Here() == old(Here()) && pos == |input|
      ensures ok ==> ReadBits(BytesBits(input), old(Here()), 8) == Got(c, Here()) && c < 256
    {
      hide Val, BytesBits;
      ok, c := pos < |input|, 0;
      if ok {
        c := input[pos];
        SpanByte(input, 8 * pos, pos);
        SpanNone(input, 8 * pos);
        SpanNone(input, 8 * pos + 8);
        SpanRead(input, 8 * pos, 8);
        pos := pos + 1;
      }
    }

    /** Gives whole bytes back to the input. */
    method PutBack()
      requires Valid()
      modifies this
      ensures Valid() && Here() == old(Here()) && numBits < 8
    {
      hide Span;
      ghost var here := Here();
      while pos > 0 && numBits >= 8
        invariant pos <= |input| && numBits <= 8 * pos && numBits <= 64 && 8 * pos - numBits == here
        invariant 8 * pos <= old(8 * pos) && bitBuf == old(bitBuf)
        decreases pos
      {
        pos, numBits := pos - 1, numBits - 8;
      }
      SpanSplit(input, here, 8 * pos, old(8 * pos));
      bitBuf := bitBuf % Pow2(numBits);
    }
  }

  lemma SpanRead(input: Bytes, a: nat, n: nat)
    requires a + n <= 8 * |input|
    ensures ReadBits(BytesBits(input), a, n) == Got(Span(input, a, a + n), a + n)
  {
  }

  lemma SpanNone(input: Bytes, a: nat)
    requires a <= 8 * |input|
    ensures Span(input, a, a) == 0
  {
  }
}
