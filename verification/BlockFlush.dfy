/** Choosing how a block is written: coded, raw, or static again if it did not fit (inside tdefl_flush_block). */
module BlockFlush {
  import opened Arith
  import opened Bits
  import opened Format
  import opened Encoding
  import opened HuffTable
  import opened TokenCounts
  import opened BitWriter
  import opened TokenBuffer
  import opened BlockEmitter
  import opened StoredBlock
  import opened Wrapper
  import opened Window

  const OUT_BUF_SIZE := 85196
  /** Room for one block: the last 16 bytes of the output buffer stay clear. */
  const BLOCK_ROOM := OUT_BUF_SIZE - 16

  /** The recorded tokens take the coded part of the stream to its next bytes, reaching back no further than lo. */
  ghost predicate Covers(stream: Bytes, lo: nat, coded: nat, ts: seq<Token>) {
    && lo <= coded && coded + TokensLength(ts) <= |stream|
    && AllFit(coded - lo, ts)
    && Replay(stream[lo..coded], ts) == stream[lo..coded + TokensLength(ts)]
  }

  lemma {:induction false} CopyAfter(a: Bytes, x: Bytes, dist: nat, len: nat)
    requires 1 <= dist <= |x|
    ensures CopyBack(a + x, dist, len) == a + CopyBack(x, dist, len)
    decreases len
  {
    if len > 0 {
      var c := x[|x| - dist];
      assert (a + x)[|a + x| - dist] == c && a + x + [c] == a + (x + [c]);
      CopyAfter(a, x + [c], dist, len - 1);
    }
  }

  /** What stands before the reach of the tokens stays as it is. */
  lemma {:induction false} ReplayAfter(a: Bytes, x: Bytes, ts: seq<Token>)
    requires AllFit(|x|, ts)
    ensures AllFit(|a + x|, ts) && Replay(a + x, ts) == a + Replay(x, ts)
  {
    hide CopyBack, TokenLength;
    if ts != [] {
      var ts', t := ts[..|ts| - 1], ts[|ts| - 1];
      ReplayAfter(a, x, ts');
      if t.Match? {
        CopyAfter(a, Replay(x, ts'), t.dist, t.len);
      } else {
        assert a + Replay(x, ts') + [t.b] == a + (Replay(x, ts') + [t.b]);
      }
    }
  }

  /** So they cover from any point before. */
  lemma CoversEarlier(stream: Bytes, lo: nat, coded: nat, ts: seq<Token>, k: nat)
    requires Covers(stream, lo, coded, ts) && k <= lo
    ensures Covers(stream, k, coded, ts)
  {
    hide AllFit, Replay, TokensLength;
    ReplayAfter(stream[k..lo], stream[lo..coded], ts);
    assert stream[k..lo] + stream[lo..coded] == stream[k..coded];
    var q := coded + TokensLength(ts);
    assert stream[k..lo] + stream[lo..q] == stream[k..q];
  }

  /** A block body takes the stream from coded to next, for a reader that knows it from lo or from any point before. */
  ghost predicate Yields(b: Bits, r: nat, stream: Bytes, lo: nat, coded: nat, next: nat) {
    && lo <= coded <= next <= |stream|
    && forall k :: 0 <= k <= lo ==> BlockYields(b, r, stream[k..coded], stream[k..next])
  }

  lemma CodedYields(b: Bits, r: nat, stream: Bytes, lo: nat, coded: nat, ts: seq<Token>)
    requires BlockMeans(b, ts) && Covers(stream, lo, coded, ts)
    ensures Yields(b, r, stream, lo, coded, coded + TokensLength(ts))
  {
    hide BlockYields, BlockMeans;
    CoversLength(stream, lo, coded, ts);
    hide Covers;
    forall k | 0 <= k <= lo
      ensures BlockYields(b, r, stream[k..coded], stream[k..coded + TokensLength(ts)])
    {
      CoversEarlier(stream, lo, coded, ts, k);
      CodedYieldsFrom(b, r, stream, k, coded, ts);
    }
  }

  lemma CodedYieldsFrom(b: Bits, r: nat, stream: Bytes, k: nat, coded: nat, ts: seq<Token>)
    requires BlockMeans(b, ts) && Covers(stream, k, coded, ts)
    ensures BlockYields(b, r, stream[k..coded], stream[k..coded + TokensLength(ts)])
  {
    hide At, ReadBlock, AllFit, Replay;
    var out := stream[k..coded];
    forall s: Bits, p: nat | At(s, p, b) && p % 8 == r % 8
      ensures ReadBlock(s, p, out) == Got(stream[k..coded + TokensLength(ts)], p + |b|)
    {
      assert |out| == coded - k;
    }
  }

  lemma {:induction false} TokensLengthBound(ts: seq<Token>)
    requires forall i :: 0 <= i < |ts| ==> Legal(ts[i])
    ensures TokensLength(ts) <= 258 * |ts|
  {
    if ts != [] {
      TokensLengthBound(ts[..|ts| - 1]);
    }
  }

  /** The 32-bit distance from the coded position to the lookahead is the true one. */
  lemma SpanExact(pos: nat, coded: nat)
    requires coded <= pos < coded + U32
    ensures (pos % U32 - coded % U32) % U32 == pos - coded
  {
    DivModOf(pos, U32);
    DivModOf(coded, U32);
    var q := coded / U32 - pos / U32;
    assert pos % U32 - coded % U32 == (pos - coded) + q * U32;
    ModAddMul(pos - coded, q, U32);
    DivModUnique(pos - coded, U32, 0, pos - coded);
  }

  /** The writer is far enough from the end of its region for any trailer. */
  ghost predicate Roomy(w: Writer)
    reads w
  {
    w.start <= w.end && |w.emitted| + 64 < 8 * (w.end - w.start)
  }

  lemma StoredFrom(r: nat, stream: Bytes, lo: nat, coded: nat, next: nat)
    requires lo <= coded <= next <= |stream| && next - coded < 65536
    ensures Yields(EncStored(r, stream[coded..next]), r, stream, lo, coded, next)
  {
    hide BlockYields, EncStored;
    forall k | 0 <= k <= lo
      ensures BlockYields(EncStored(r, stream[coded..next]), r, stream[k..coded], stream[k..next])
    {
      StoredYields(r, stream[k..coded], stream[coded..next]);
      assert stream[k..coded] + stream[coded..next] == stream[k..next];
    }
  }

  /** The raw fallback: the block's bytes, still in the ring, as a stored block. */
  method RawBlock(w: Writer, win: Dictionary, dictPos: nat, total: nat, ghost lo: nat, ghost coded: nat)
    returns (ghost b: Bits)
    requires w.Valid() && win.Valid() && w.buf != win.dict
    requires dictPos == coded % U32 && coded + total <= win.Pos() && win.Pos() - coded <= win.dictSize && lo <= coded
    modifies w, w.buf
    ensures w.Valid() && w.Advanced() && win.Valid()
    ensures w.emitted == old(w.emitted) + b && |b| <= 8 * DICT_SIZE + 41
    ensures Yields(b, |old(w.emitted)|, win.stream, lo, coded, coded + total)
    ensures b == EncStored(|old(w.emitted)|, win.stream[coded..coded + total])
  {
    hide Holds, HoldsWindow, Linked, BlockYields, ToBits, EncStored;
    ghost var r, data := |w.emitted|, win.stream[coded..coded + total];
    WrapMod(coded, DICT_SIZE, 131072);
    PutStored(w, win, dictPos, total, coded);
    b := EncStored(r, data);
    StoredFrom(r, win.stream, lo, coded, coded + total);
    StoredSize(r, data);
  }

  /** A coded block body, and what it yields. It never overruns the region. */
  method CodedBlock(w: Writer, tb: Tokens, cl: Table, staticBlock: bool, ghost stream: Bytes, ghost lo: nat,
      ghost coded: nat)
    returns (ok: bool, ghost b: Bits)
    requires w.Valid() && tb.Packed() && cl.Valid() && cl.counts.Length == 19 && Apart(w, tb, cl)
    requires !staticBlock ==> Tallied(tb.tokens, tb.lit.counts[..], tb.dist.counts[..]) && |tb.tokens| < 65535
    requires Covers(stream, lo, coded, tb.tokens) && w.end - w.start == BLOCK_ROOM && |w.emitted| <= 24
    modifies w, w.buf, tb.lit.counts, tb.lit.sizes, tb.lit.codes, tb.dist.sizes, tb.dist.codes
    modifies cl.counts, cl.sizes, cl.codes
    ensures w.Valid() && w.Advanced() && tb.Packed()
    ensures w.emitted == old(w.emitted) + b
    ensures coded + tb.totalBytes <= |stream|
    ensures Yields(b, |old(w.emitted)|, stream, lo, coded, coded + tb.totalBytes)
    ensures KindOf(b, tb.tokens, staticBlock)
    ensures ok && Roomy(w) && w.cur - w.start == |w.emitted| / 8
  {
    hide KindOf, Holds, Stored, AllFlagged, Tallied, BlockMeans, Yields, Covers, ToBits, BytesBits, TokensLength;
    ghost var r := |w.emitted|;
    CoversLength(stream, lo, coded, tb.tokens);
    ok, b := CompressBlock(w, tb, cl, staticBlock);
    CodedYields(b, r, stream, lo, coded, tb.tokens);
    w.NothingDropped();
  }

  /** The raw form is taken when it is asked for, or when the coded form c, r bits into the region, is no shorter in
      whole bytes; but only while the ring still holds the block's bytes. */
  ghost predicate RawTaken(r: nat, c: Bits, total: nat, forceRaw: bool, inWindow: bool) {
    inWindow && (forceRaw || (total > 0 && (r + |c|) / 8 - r / 8 + 1 >= total))
  }

  /** What is written for the block: its coded form c, or its bytes. */
  ghost predicate Chosen(b: Bits, c: Bits, r: nat, data: Bytes, forceRaw: bool, inWindow: bool) {
    if RawTaken(r, c, |data|, forceRaw, inWindow) then |data| < 65536 && b == EncStored(r, data) else b == c
  }

  /** Unless raw blocks are asked for, the block is never longer than its coded form by more than the alignment and the
      header of a stored block. */
  lemma ChosenSize(b: Bits, c: Bits, r: nat, data: Bytes, inWindow: bool)
    requires Chosen(b, c, r, data, false, inWindow)
    ensures |b| <= |c| + 56
  {
    hide ToBits, BytesBits;
    if |data| < 65536 {
      StoredLength(r, data);
    }
  }

  lemma StoredLength(r: nat, data: Bytes)
    requires |data| < 65536
    ensures |EncStored(r, data)| <= 8 * |data| + 41
  {
  }

  /** The coded form, unless raw bytes are to be sent anyway, and whether they are to be sent after all. */
  method Attempt(w: Writer, tb: Tokens, cl: Table, staticBlock: bool, forceRaw: bool, inWindow: bool,
                 ghost stream: Bytes, ghost lo: nat, ghost coded: nat)
    returns (ok: bool, raw: bool, ghost c: Bits)
    requires w.Valid() && tb.Packed() && cl.Valid() && cl.counts.Length == 19 && Apart(w, tb, cl)
    requires !staticBlock ==> Tallied(tb.tokens, tb.lit.counts[..], tb.dist.counts[..]) && |tb.tokens| < 65535
    requires Covers(stream, lo, coded, tb.tokens) && w.end - w.start == BLOCK_ROOM && |w.emitted| <= 24
    modifies w, w.buf, tb.lit.counts, tb.lit.sizes, tb.lit.codes, tb.dist.sizes, tb.dist.codes
    modifies cl.counts, cl.sizes, cl.codes
    ensures w.Valid() && w.Advanced() && tb.Packed() && cl.Valid()
    ensures raw <==> RawTaken(|old(w.emitted)|, c, tb.totalBytes, forceRaw, inWindow)
    ensures raw || ok
    ensures !(forceRaw && inWindow) ==> KindOf(c, tb.tokens, staticBlock)
    ensures !raw ==> w.emitted == old(w.emitted) + c && Roomy(w)
    ensures !raw ==> Yields(c, |old(w.emitted)|, stream, lo, coded, coded + tb.totalBytes)
  {
    hide Holds, Stored, AllFlagged, Tallied, BlockMeans, Yields, Covers, ToBits, Roomy;
    hide TokensLength, EndPos, BytesBits, Fields, AllFit, Replay, KindOf, Table.Valid;
    var total := tb.totalBytes;
    var useRaw := forceRaw && inWindow;
    var savedCur := w.cur;
    ok, c := false, [];
    w.NothingDropped();
    if !useRaw {
      ok, c := CodedBlock(w, tb, cl, staticBlock, stream, lo, coded);
    }
    raw := (useRaw || (total > 0 && w.cur - savedCur + 1 >= total)) && inWindow;
  }

  /** Writes the block body, or replaces it by a stored block if that is no longer, or by a static one if it overran. */
  method EncodeBlock(w: Writer, tb: Tokens, cl: Table, win: Dictionary, dictPos: nat, forceRaw: bool, forceStatic: bool,
                     ghost coded: nat)
    returns (ghost b: Bits, ghost c: Bits)
    requires w.Valid() && tb.Packed() && cl.Valid() && cl.counts.Length == 19 && win.Valid() && Apart(w, tb, cl)
    requires w.buf != win.dict && w.end - w.start == BLOCK_ROOM && |w.emitted| <= 24
    requires Tallied(tb.tokens, tb.lit.counts[..], tb.dist.counts[..])
    requires dictPos == coded % U32 && Covers(win.stream, win.mark, coded, tb.tokens)
    requires coded + tb.totalBytes <= win.Pos() <= coded + tb.totalBytes + 1
    modifies w, w.buf, tb.lit.counts, tb.lit.sizes, tb.lit.codes, tb.dist.sizes, tb.dist.codes
    modifies cl.counts, cl.sizes, cl.codes
    ensures w.Valid() && w.Advanced() && tb.Packed() && win.Valid()
    ensures w.emitted == old(w.emitted) + b
    ensures Yields(b, |old(w.emitted)|, win.stream, win.mark, coded, coded + tb.totalBytes)
    ensures !(forceRaw && win.Pos() - coded <= win.dictSize) ==>
        KindOf(c, tb.tokens, forceStatic || tb.totalBytes < 48)
    ensures coded + tb.totalBytes <= |win.stream|
    ensures Chosen(b, c, |old(w.emitted)|, win.stream[coded..coded + tb.totalBytes], forceRaw,
                   win.Pos() - coded <= win.dictSize)
    ensures Roomy(w)
  {
    hide Holds, Stored, AllFlagged, Tallied, BlockMeans, HoldsWindow, Linked, Yields, Covers, ToBits, EncStored;
    hide TokensLength, EndPos, BytesBits, Fields, AllFit, Replay, KindOf, Table.Valid, Roomy;
    TokenCount(tb.buf[..], tb.tokens);
    CoversLength(win.stream, win.mark, coded, tb.tokens);
    SpanExact(win.Pos(), coded);
    var total := tb.totalBytes;
    var inWindow := (win.lookaheadPos - dictPos) % U32 <= win.dictSize;
    var savedCur, savedBits, savedIn := w.cur, w.bitBuffer, w.bitsIn;
    ghost var savedFlushed, e := w.flushed, w.emitted;
    ghost var bytes := w.buf[w.start..w.cur];
    w.NothingDropped();
    var ok, raw;
    ok, raw, c := Attempt(w, tb, cl, forceStatic || total < 48, forceRaw, inWindow, win.stream, win.mark, coded);
    b := c;
    if raw || !ok {
      assert w.buf[w.start..savedCur] == bytes;
      w.Restore(savedCur, savedBits, savedIn, savedFlushed, e);
      b := Fallback(w, tb, cl, win, dictPos, raw, coded);
    }
  }

  /** The body again from the saved place: the raw bytes, or static codes; either fits. */
  method Fallback(w: Writer, tb: Tokens, cl: Table, win: Dictionary, dictPos: nat, raw: bool, ghost coded: nat)
    returns (ghost b: Bits)
    requires w.Valid() && tb.Packed() && cl.Valid() && cl.counts.Length == 19 && win.Valid() && Apart(w, tb, cl)
    requires w.buf != win.dict && w.end - w.start == BLOCK_ROOM && |w.emitted| <= 24
    requires dictPos == coded % U32 && Covers(win.stream, win.mark, coded, tb.tokens) 
    requires coded + tb.totalBytes <= win.Pos()
    requires raw ==> win.Pos() - coded <= win.dictSize
    modifies w, w.buf, tb.lit.counts, tb.lit.sizes, tb.lit.codes, tb.dist.sizes, tb.dist.codes
    modifies cl.counts, cl.sizes, cl.codes
    ensures w.Valid() && w.Advanced() && tb.Packed() && win.Valid() && Roomy(w)
    ensures w.emitted == old(w.emitted) + b && coded + tb.totalBytes <= |win.stream|
    ensures Yields(b, |old(w.emitted)|, win.stream, win.mark, coded, coded + tb.totalBytes)
    ensures raw ==> tb.totalBytes < 65536
    ensures raw ==> b == EncStored(|old(w.emitted)|, win.stream[coded..coded + tb.totalBytes])
  {
    hide Holds, Stored, AllFlagged, Tallied, BlockMeans, HoldsWindow, Linked, Yields, Covers, ToBits, EncStored;
    hide TokensLength, EndPos, BytesBits, Fields, AllFit, Replay, KindOf, Dictionary.Chained, Table.Valid;
    CoversLength(win.stream, win.mark, coded, tb.tokens);
    if raw {
      b := RawBlock(w, win, dictPos, tb.totalBytes, win.mark, coded);
    } else {
      var ok;
      ok, b := CodedBlock(w, tb, cl, true, win.stream, win.mark, coded);
    }
  }

  /** The buffer bounds the number of tokens, so symbol counts and positions stay small. */
  lemma TokenCount(buf: seq<byte>, ts: seq<Token>)
    requires Stored(buf, ts) && EndPos(ts) <= CODE_BUF_SIZE
    ensures |ts| < 65535 && TokensLength(ts) < 0x200_0000
  {
    StoredLegal(buf, ts);
    PosAtLeast(ts, |ts|);
    TokensLengthBound(ts);
  }

  lemma CoversLength(stream: Bytes, lo: nat, coded: nat, ts: seq<Token>)
    requires Covers(stream, lo, coded, ts)
    ensures lo <= coded && coded + TokensLength(ts) <= |stream|
  {
  }

  lemma StoredSize(r: nat, data: Bytes)
    requires |data| <= DICT_SIZE
    ensures |EncStored(r, data)| <= 8 * DICT_SIZE + 41
  {
  }
}
