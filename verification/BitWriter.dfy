/** The compressor's bit buffer and output cursor (the TDEFL_PUT_BITS macro and its fields). */
module BitWriter {
  import opened Arith
  import opened Bits

  /** The first k bytes hold the first 8k bits, and the bit buffer holds the rest. */
  ghost predicate Holds(bytes: Bytes, room: nat, flushed: nat, bitBuffer: nat, bitsIn: nat, emitted: Bits) {
    && |emitted| == 8 * flushed + bitsIn
    && |bytes| == Min(flushed, room)
    && BytesBits(bytes) == emitted[..8 * |bytes|]
    && bitBuffer < Pow2(bitsIn)
    && ToBits(bitBuffer, bitsIn) == emitted[8 * flushed..]
  }

  lemma JoinBound(a: nat, b: nat, n: nat, l: nat)
    requires a < Pow2(n) && b < Pow2(l)
    ensures 0 <= a + b * Pow2(n) < Pow2(n + l)
  {
    hide Pow2;
    MulNonNeg(b, Pow2(n));
    Pow2Add(n, l);
    MulMono(b + 1, Pow2(l), Pow2(n));
  }

  /** OR-ing in l bits above those waiting. */
  lemma HoldsPut(bytes: Bytes, room: nat, flushed: nat, bb: nat, n: nat, emitted: Bits, b: nat, l: nat)
    requires Holds(bytes, room, flushed, bb, n, emitted) && b < Pow2(l)
    ensures bb + b * Pow2(n) >= 0
    ensures Holds(bytes, room, flushed, bb + b * Pow2(n), n + l, emitted + ToBits(b, l))
  {
    hide BytesBits, ToBits, Pow2;
    var e := emitted + ToBits(b, l);
    JoinBound(bb, b, n, l);
    ToBitsJoin(bb, b, n, l);
    assert e[8 * flushed..] == emitted[8 * flushed..] + ToBits(b, l);
    assert e[..8 * |bytes|] == emitted[..8 * |bytes|];
  }

  lemma LowByte(bb: nat, n: nat)
    requires n >= 8 && bb < Pow2(n)
    ensures 0 <= bb / 256 < Pow2(n - 8)
    ensures ToBits(bb, n) == ToBits(bb % 256, 8) + ToBits(bb / 256, n - 8)
  {
    hide ToBits;
    Pow2Table();
    ToBitsSplit(bb, 8, n - 8);
    ToBitsMod(bb, 8);
    Pow2Add(8, n - 8);
    DivLt(bb, 256, Pow2(n - 8));
    DivNonNeg(bb, 256);
  }

  /** Moving the low byte out: into the output if there is room, dropped otherwise. */
  lemma HoldsFlush(bytes: Bytes, room: nat, flushed: nat, bb: nat, n: nat, emitted: Bits)
    requires Holds(bytes, room, flushed, bb, n, emitted) && n >= 8
    ensures bb / 256 >= 0
    ensures Holds(if |bytes| < room then bytes + [bb % 256] else bytes, room, flushed + 1, bb / 256, n - 8, emitted)
  {
    hide BytesBits, ToBits, Pow2;
    LowByte(bb, n);
    BytesBitsAppend(bytes, bb % 256);
    var k := 8 * flushed;
    var low := emitted[k..k + 8];
    assert emitted[k..] == low + emitted[k + 8..];
    ConcatInjective(low, emitted[k + 8..], ToBits(bb % 256, 8), ToBits(bb / 256, n - 8));
    if |bytes| < room {
      assert emitted[..k] + low == emitted[..k + 8];
    }
  }

  lemma ConcatInjective(a: Bits, b: Bits, c: Bits, d: Bits)
    requires a + b == c + d && |a| == |c|
    ensures a == c && b == d
  {
    assert a == (a + b)[..|a|] && b == (a + b)[|a|..];
    assert c == (c + d)[..|c|] && d == (c + d)[|c|..];
  }

  class Writer {
    /** The region [start, end) of buf takes output; cur is the next byte. */
    var buf: array<byte>
    var start: nat
    var cur: nat
    var end: nat
    var bitBuffer: nat
    var bitsIn: nat
    /** Bits put since start, beginning with any carried over in the bit buffer. */
    ghost var emitted: Bits
    ghost var flushed: nat

    ghost predicate State()
      reads this, buf
    {
      && start <= cur <= end <= buf.Length
      && Holds(buf[start..cur], end - start, flushed, bitBuffer, bitsIn, emitted)
    }

    ghost predicate Valid()
      reads this, buf
    {
      State() && bitsIn < 8
    }

    /** The region is the same and only bytes between the cursors and the end of the region have changed. */
    twostate predicate Advanced()
      reads this, buf
    {
      && buf == old(buf) && start == old(start) && end == old(end) && old(cur) <= cur
      && forall i :: 0 <= i < buf.Length && (i < old(cur) || i >= end) ==> buf[i] == old(buf[i])
    }

    constructor (b: array<byte>)
      ensures Valid() && buf == b && bitsIn == 0 && emitted == [] && start == 0 && end == 0
    {
      buf, start, cur, end, bitBuffer, bitsIn := b, 0, 0, 0, 0, 0;
      emitted, flushed := [], 0;
    }

    /** Directs output to a fresh region; bits waiting in the buffer carry over. */
    method Begin(b: array<byte>, from: nat, limit: nat)
      requires Valid() && from <= limit <= b.Length
      modifies this
      ensures Valid() && buf == b && start == cur == from && end == limit
      ensures bitBuffer == old(bitBuffer) && bitsIn == old(bitsIn)
      ensures emitted == ToBits(bitBuffer, bitsIn)
    {
      buf, start, cur, end := b, from, from, limit;
      flushed := 0;
      emitted := ToBits(bitBuffer, bitsIn);
    }

    /** TDEFL_PUT_BITS: appends the l low bits of b; bytes that do not fit are dropped. */
    method PutBits(b: nat, l: nat)
      requires Valid() && l <= 16 && b < Pow2(l)
      modifies this, buf
      ensures Valid() && Advanced()
      ensures emitted == old(emitted) + ToBits(b, l)
    {
      hide Holds, ToBits;
      HoldsPut(buf[start..cur], end - start, flushed, bitBuffer, bitsIn, emitted, b, l);
      bitBuffer := bitBuffer + b * Pow2(bitsIn);
      bitsIn := bitsIn + l;
      emitted := emitted + ToBits(b, l);
      while bitsIn >= 8
        invariant State() && Advanced()
        invariant emitted == old(emitted) + ToBits(b, l)
        decreases bitsIn
      {
        HoldsFlush(buf[start..cur], end - start, flushed, bitBuffer, bitsIn, emitted);
        ghost var bytes := buf[start..cur];
        if cur < end {
          buf[cur] := bitBuffer % 256;
          cur := cur + 1;
          assert buf[start..cur] == bytes + [bitBuffer % 256];
        }
        bitBuffer := bitBuffer / 256;
        bitsIn := bitsIn - 8;
        flushed := flushed + 1;
      }
    }

    /** Takes back everything put since the saved point. */
    method Restore(savedCur: nat, savedBits: nat, savedIn: nat, ghost savedFlushed: nat, ghost savedEmitted: Bits)
      requires start <= savedCur <= end <= buf.Length && savedIn < 8
      requires Holds(buf[start..savedCur], end - start, savedFlushed, savedBits, savedIn, savedEmitted)
      modifies this
      ensures Valid() && buf == old(buf) && start == old(start) && end == old(end)
      ensures cur == savedCur && bitBuffer == savedBits && bitsIn == savedIn && emitted == savedEmitted
    {
      cur, bitBuffer, bitsIn := savedCur, savedBits, savedIn;
      flushed, emitted := savedFlushed, savedEmitted;
    }

    /** As long as the region is not full nothing was dropped; it is not full while the bits put fit. */
    lemma NothingDropped()
      requires Valid()
      ensures cur < end ==> emitted == BytesBits(buf[start..cur]) + ToBits(bitBuffer, bitsIn)
      ensures |emitted| < 8 * (end - start) ==> cur < end && cur - start == |emitted| / 8
      ensures |emitted| % 8 == bitsIn
      ensures start <= cur <= end <= buf.Length && cur - start <= |emitted| / 8
    {
      assert emitted == emitted[..8 * flushed] + emitted[8 * flushed..];
    }
  }
}
