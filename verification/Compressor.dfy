/** The compressor object: block flushing, output delivery and the tdefl_compress call. */
module Compressor {
  import opened Arith
  import opened Bits
  import opened Format
  import opened Encoding
  import opened HuffTable
  import opened TokenCounts
  import opened BitWriter
  import opened TokenBuffer
  import opened BlockEmitter
  import opened StoredBlock
  import opened Wrapper
  import opened Window
  import opened BlockFlush
  import opened Parser
  import opened Adler

  datatype Flush = NoFlush | SyncFlush | FullFlush | Finish

  datatype Status = BadParam | PutBufFailed | Okay | Done

  /** s_tdefl_num_probes. */
  const NUM_PROBES: seq<nat> := [0, 1, 6, 32, 16, 32, 128, 256, 512, 768, 1500]

  /** The stream so far: nothing before the first block, afterwards blocks that produce out. */
  ghost predicate Growing(bits: Bits, first: bool, zlib: bool, out: Bytes) {
    if first then bits == [] && out == [] else Produces(bits, zlib, out)
  }

  /** The stream is finished: its final block, then padding and checksum. */
  ghost predicate Complete(bits: Bits, zlib: bool, out: Bytes) {
    exists t: Bits :: Ends(t, zlib, out, |t|) && bits == t + Tail(|t|, zlib, out)
  }

  /** From bit seg on, whole bytes into the stream, the bits alone produce out; a negative seg stands for none. */
  ghost predicate Since(bits: Bits, seg: int, out: Bytes) {
    seg >= 0 ==> seg <= |bits| && seg % 8 == 0 && Produces(bits[seg..], false, out)
  }

  /** And once the final block is there, they alone inflate to out. */
  ghost predicate SinceEnds(bits: Bits, seg: int, out: Bytes) {
    seg >= 0 ==> seg <= |bits| && seg % 8 == 0 && exists t: Bits :: t <= bits[seg..] && Ends(t, false, out, |t|)
  }

  /** The bits before the final block: the whole stream, and the part of it since lo, which begins at bit seg. */
  ghost predicate Sent(bits: Bits, first: bool, zlib: bool, seg: int, stream: Bytes, lo: nat, coded: nat) {
    && lo <= coded <= |stream| && Growing(bits, first, zlib, stream[..coded])
    && (first ==> seg < 0) && Since(bits, seg, stream[lo..coded])
  }

  /** The bits with a block, the final one or not, that takes the stream to coded. */
  ghost predicate Meant(final: bool, bits: Bits, zlib: bool, seg: int, stream: Bytes, lo: nat, coded: nat) {
    if final then
      && lo <= coded <= |stream| && Complete(bits, zlib, stream[..coded]) && SinceEnds(bits, seg, stream[lo..coded])
    else Sent(bits, false, zlib, seg, stream, lo, coded)
  }

  /** The compression level recorded in the zlib header. */
  method HeaderLevel(probes: nat) returns (flevel: nat)
    ensures flevel <= 3
  {
    var i := 0;
    while i < |NUM_PROBES| && NUM_PROBES[i] != probes
      decreases |NUM_PROBES| - i
    {
      i := i + 1;
    }
    flevel := if i < 2 then 0 else if i < 6 then 1 else if i == 6 then 2 else 3;
  }

  /** The check bits make the two header bytes a multiple of 31. */
  lemma HeaderCheck(flevel: nat)
    requires flevel <= 3
    ensures var header := 0x78 * 256 + flevel * 64;
            HeaderOk(0x78, (header + (31 - header % 31)) % 256)
  {
  }

  /** The two zlib header bytes. */
  method PutZlibHeader(w: Writer, probes: nat)
    requires w.Valid() && w.emitted == []
    modifies w, w.buf
    ensures w.Valid() && w.Advanced() && |w.emitted| == 16 && Produces(w.emitted, true, [])
  {
    hide Holds, ToBits, Produces, HeaderOk;
    var cmf := 0x78;
    var flevel := HeaderLevel(probes);
    var header := cmf * 256 + flevel * 64;
    header := header + (31 - header % 31);
    var flg := header % 256;
    HeaderCheck(flevel);
    HeaderProduces(cmf, flg);
    Pow2Table();
    w.PutBits(cmf, 8);
    w.PutBits(flg, 8);
    assert [] + ToBits(cmf, 8) == ToBits(cmf, 8);
  }

  /** The Adler-32 bytes, most significant first. */
  method PutChecksum(w: Writer, adler: nat)
    requires w.Valid()
    modifies w, w.buf
    ensures w.Valid() && w.Advanced() && w.emitted == old(w.emitted) + EncBig(adler)
  {
    hide Holds, ToBits;
    Pow2Table();
    ghost var e := w.emitted;
    w.PutBits(adler / 0x100_0000 % 256, 8);
    w.PutBits(adler / 0x1_0000 % 256, 8);
    w.PutBits(adler / 0x100 % 256, 8);
    w.PutBits(adler % 256, 8);
    ConcatFour(e, ToBits(adler / 0x100_0000 % 256, 8), ToBits(adler / 0x1_0000 % 256, 8),
        ToBits(adler / 0x100 % 256, 8),
               ToBits(adler % 256, 8));
  }

  lemma ConcatFour(e: Bits, a: Bits, b: Bits, c: Bits, d: Bits)
    ensures e + a + b + c + d == e + (a + (b + (c + d)))
  {
  }

  /** The empty stored block that byte-aligns the stream. */
  method PutSyncMark(w: Writer)
    requires w.Valid()
    modifies w, w.buf
    ensures w.Valid() && w.Advanced() && w.bitsIn == 0
    ensures w.emitted == old(w.emitted) + ToBits(0, 1) + EncStored(|old(w.emitted)| + 1, [])
    ensures |w.emitted| <= |old(w.emitted)| + 42
  {
    hide Holds, ToBits, BytesBits, EncStored, Writer.State;
    Pow2Table();
    ghost var e := w.emitted;
    w.PutBits(0, 3);
    PutPad(w);
    w.NothingDropped();
    w.PutBits(0, 16);
    w.PutBits(65535, 16);
    SyncMarkBits(e);
    w.NothingDropped();
  }

  /** What follows a block: nothing, the empty stored block of a sync flush, or the end of the stream. */
  method PutTrailer(w: Writer, flush: Flush, zlib: bool, adler: nat)
    requires w.Valid()
    modifies w, w.buf
    ensures w.Valid() && w.Advanced()
    ensures w.emitted == Trailer(old(w.emitted), flush, zlib, adler)
    ensures flush != NoFlush ==> w.bitsIn == 0
    ensures |w.emitted| <= |old(w.emitted)| + 42
  {
    hide Holds, ToBits, EncBig, BytesBits;
    Pow2Table();
    ghost var e := w.emitted;
    if flush == Finish {
      PutPad(w);
      if zlib {
        PutChecksum(w, adler);
        ConcatThree(e, Pad(|e|), EncBig(adler), [], []);
        w.NothingDropped();
      } else {
        assert e + (Pad(|e|) + []) == e + Pad(|e|);
      }
      EncBigSize(adler);
    } else if flush != NoFlush {
      PutSyncMark(w);
    }
  }

  lemma ConcatThree(e: Bits, a: Bits, b: Bits, c: Bits, d: Bits)
    ensures e + a + b == e + (a + b)
  {
  }

  lemma EncBigSize(a: nat)
    ensures |EncBig(a)| == 32
  {
  }

  lemma SyncMarkBits(e: Bits)
    ensures e + ToBits(0, 3) + Pad(|e + ToBits(0, 3)|) + ToBits(0, 16) + ToBits(65535, 16) ==
            e + ToBits(0, 1) + EncStored(|e| + 1, [])
  {
    hide ToBits;
    Pow2Table();
    ToBitsSplit(0, 1, 2);
    assert ToBits(0, 3) == ToBits(0, 1) + ToBits(0, 2);
    assert |e + ToBits(0, 3)| == |e| + 1 + 2;
    assert BytesBits([]) == [];
    SyncConcat(e, ToBits(0, 1), ToBits(0, 2), Pad(|e| + 3), ToBits(0, 16), ToBits(65535, 16));
  }

  lemma SyncConcat(e: Bits, a: Bits, b: Bits, c: Bits, d: Bits, f: Bits)
    ensures e + (a + b) + c + d + f == e + a + (b + (c + (d + (f + []))))
  {
  }

  // ---- The block's bits in the whole stream: base is what earlier blocks sent, in whole bytes.

  lemma YieldsAligned(b: Bits, r: nat, r': nat, out: Bytes, out': Bytes)
    requires BlockYields(b, r, out, out') && r % 8 == r' % 8
    ensures BlockYields(b, r', out, out')
  {
    hide At, ReadBlock;
  }

  lemma ConcatBlock(base: Bits, e: Bits, f: Bits, b: Bits)
    ensures base + (e + f + b) == base + e + f + b
  {
  }

  lemma GrowBlock(base: Bits, e: Bits, b: Bits, zlib: bool, out: Bytes, out': Bytes)
    requires |base| % 8 == 0 && Produces(base + e, zlib, out)
    requires BlockYields(b, |e + ToBits(0, 1)|, out, out')
    ensures Produces(base + (e + ToBits(0, 1) + b), zlib, out')
  {
    hide Produces, BlockYields, ToBits;
    YieldsAligned(b, |e + ToBits(0, 1)|, |base + e| + 1, out, out');
    AddBlock(base + e, zlib, out, b, out');
    ConcatBlock(base, e, ToBits(0, 1), b);
  }

  lemma GrowSync(base: Bits, e: Bits, zlib: bool, out: Bytes)
    requires |base| % 8 == 0 && Produces(base + e, zlib, out)
    ensures Produces(base + (e + ToBits(0, 1) + EncStored(|e| + 1, [])), zlib, out)
  {
    hide Produces, ToBits;
    AddSyncMark(base + e, zlib, out);
    PadAligned(|base + e| + 3, |e| + 3);
    ConcatBlock(base, e, ToBits(0, 1), EncStored(|e| + 1, []));
  }

  lemma PadAligned(r: nat, r': nat)
    requires r % 8 == r' % 8
    ensures Pad(r) == Pad(r')
  {
  }

  lemma GrowEnd(base: Bits, e: Bits, b: Bits, zlib: bool, out: Bytes, out': Bytes, adler: nat)
    requires |base| % 8 == 0 && Produces(base + e, zlib, out)
    requires BlockYields(b, |e + ToBits(1, 1)|, out, out')
    requires zlib ==> adler == Checksum(out')
    ensures var f := e + ToBits(1, 1) + b;
            Complete(base + (f + (Pad(|f|) + (if zlib then EncBig(adler) else []))), zlib, out')
  {
    hide Produces, BlockYields, ToBits, Ends, Checksum, EncBig;
    YieldsAligned(b, |e + ToBits(1, 1)|, |base + e| + 1, out, out');
    EndBlock(base + e, zlib, out, b, out');
    var f := e + ToBits(1, 1) + b;
    ConcatBlock(base, e, ToBits(1, 1), b);
    var t := base + f;
    assert t == base + e + ToBits(1, 1) + b;
    PadAligned(|t|, |f|);
    var tail := Pad(|f|) + (if zlib then EncBig(adler) else []);
    assert base + (f + tail) == t + tail;
  }

  /** The 32-bit coded position after another block. */
  lemma WrapCoded(coded: nat, total: nat)
    ensures (coded % U32 + total) % U32 == (coded + total) % U32
  {
    WrapAdd(coded, total);
  }

  /** The zlib header, if this is the first block of a wrapped stream. */
  method EmitHeader(w: Writer, first: bool, zlib: bool, probes: nat, ghost base: Bits, ghost out: Bytes)
    requires w.Valid() && |w.emitted| < 8 && Growing(base + w.emitted, first, zlib, out)
    modifies w, w.buf
    ensures w.Valid() && w.Advanced() && |w.emitted| <= 16
    ensures Produces(base + w.emitted, zlib, out) && (!first ==> w.emitted == old(w.emitted))
  {
    hide Holds, Produces, ToBits;
    if zlib && first {
      assert base == [] && w.emitted == [] by { EmptyConcat(base, w.emitted); }
      PutZlibHeader(w, probes);
      assert base + w.emitted == w.emitted;
    } else if first {
      NothingProduces();
    }
  }

  lemma EmptyConcat(a: Bits, b: Bits)
    requires a + b == []
    ensures a == [] && b == []
  {
    assert |a + b| == 0;
  }

  /** A fresh token buffer covers nothing beyond the coded position. */
  lemma CoversNone(stream: Bytes, lo: nat, coded: nat, ts: seq<Token>)
    requires ts == [] && lo <= coded <= |stream|
    ensures Covers(stream, lo, coded, ts) && TokensLength(ts) == 0
  {
  }

  /** After a block the buffer starts empty at the new coded position. */
  method NextBlock(lz: LzParser)
    requires lz.win.Valid() && lz.tb.Packed() && LzParser.Apart(lz.win, lz.tb) && lz.DeferOk()
    requires lz.coded + lz.tb.totalBytes + (if lz.savedLen > 0 then 1 else 0) == lz.win.Pos() && lz.win.mark <= lz.coded
    modifies lz`coded, lz.tb, lz.tb.lit.counts, lz.tb.dist.counts
    ensures lz.Valid() && lz.tb.tokens == [] && lz.coded == old(lz.coded + lz.tb.totalBytes)
  {
    hide Stored, AllFlagged, Tallied, HoldsWindow, Linked, Covers, Repeats, Pos, FlagPos, TokensLength;
    lz.coded := lz.coded + lz.tb.totalBytes;
    lz.tb.Reset();
    CoversNone(lz.win.stream, lz.win.mark, lz.coded, lz.tb.tokens);
  }

  /** A block's bits: e before it, its final bit, its body b, then the trailer. */
  function BlockBits(e: Bits, final: bool, b: Bits): Bits {
    e + ToBits(if final then 1 else 0, 1) + b
  }

  function Trailer(f: Bits, flush: Flush, zlib: bool, adler: nat): Bits {
    match flush
    case NoFlush => f
    case Finish => f + (Pad(|f|) + (if zlib then EncBig(adler) else []))
    case _ => f + ToBits(0, 1) + EncStored(|f| + 1, [])
  }

  /** What the stream produces after the block and its trailer. */
  lemma EmittedMeans(base: Bits, e: Bits, b: Bits, flush: Flush, zlib: bool, adler: nat, out: Bytes, out': Bytes)
    requires |base| % 8 == 0 && Produces(base + e, zlib, out)
    requires BlockYields(b, |e| + 1, out, out')
    requires flush == Finish && zlib ==> adler == Checksum(out')
    ensures var all := base + Trailer(BlockBits(e, flush == Finish, b), flush, zlib, adler);
            if flush == Finish then Complete(all, zlib, out') else Produces(all, zlib, out')
  {
    hide BlockYields, ToBits, Produces, Complete, Pad, EncBig, EncStored, Checksum;
    if flush == Finish {
      GrowEnd(base, e, b, zlib, out, out', adler);
    } else {
      GrowBlock(base, e, b, zlib, out, out');
      if flush != NoFlush {
        GrowSync(base, BlockBits(e, false, b), zlib, out');
      }
    }
  }

  /** The same for what stands since bit seg: the checksum that may follow is nothing to it. */
  lemma EmittedSince(base: Bits, e: Bits, b: Bits, flush: Flush, zlib: bool, adler: nat, seg: int, out: Bytes,
      out': Bytes)
    requires |base| % 8 == 0 && Since(base + e, seg, out) && seg <= |base|
    requires BlockYields(b, |e| + 1, out, out')
    ensures var all := base + Trailer(BlockBits(e, flush == Finish, b), flush, zlib, adler);
            if flush == Finish then SinceEnds(all, seg, out') else Since(all, seg, out')
  {
    hide BlockYields, ToBits, Produces, Ends, Pad, EncBig, EncStored, Checksum;
    if seg >= 0 {
      var part, f := base[seg..], BlockBits(e, flush == Finish, b);
      var all := base + Trailer(f, flush, zlib, adler);
      assert (base + e)[seg..] == part + e;
      assert all[seg..] == part + Trailer(f, flush, zlib, adler);
      if flush == Finish {
        YieldsAligned(b, |e| + 1, |part + e| + 1, out, out');
        EndBlock(part + e, false, out, b, out');
        ConcatBlock(part, e, ToBits(1, 1), b);
        var t := part + f;
        assert t == part + e + ToBits(1, 1) + b && t <= all[seg..];
      } else {
        EmittedMeans(part, e, b, flush, false, adler, out, out');
      }
    }
  }

  /** What a block and its trailer make of the bits sent. */
  lemma EmittedMeant(base: Bits, e: Bits, b: Bits, flush: Flush, zlib: bool, adler: nat, seg: int,
                     stream: Bytes, lo: nat, coded: nat, next: nat)
    requires |base| % 8 == 0 && Sent(base + e, false, zlib, seg, stream, lo, coded) && seg <= |base|
    requires Yields(b, |e| + 1, stream, lo, coded, next)
    requires flush == Finish && zlib ==> adler == Checksum(stream[..next])
    ensures Meant(flush == Finish, base + Trailer(BlockBits(e, flush == Finish, b), flush, zlib, adler), zlib, seg,
                  stream, lo, next)
  {
    hide BlockYields, Produces, Complete, Since, SinceEnds, Checksum, Trailer, BlockBits;
    assert BlockYields(b, |e| + 1, stream[0..coded], stream[0..next]);
    assert stream[0..coded] == stream[..coded] && stream[0..next] == stream[..next];
    EmittedMeans(base, e, b, flush, zlib, adler, stream[..coded], stream[..next]);
    EmittedSince(base, e, b, flush, zlib, adler, seg, stream[lo..coded], stream[lo..next]);
  }

  /** The final bit and the block body. */
  method EmitBody(w: Writer, lz: LzParser, cl: Table, dictPos: nat, final: bool) returns (ghost b: Bits)
    requires w.Valid() && lz.win.Valid() && lz.tb.Packed() && cl.Valid() && cl.counts.Length == 19
    requires BlockEmitter.Apart(w, lz.tb, cl) && w.buf != lz.win.dict && LzParser.Apart(lz.win, lz.tb)
    requires w.end - w.start == BLOCK_ROOM && |w.emitted| <= 16
    requires Tallied(lz.tb.tokens, lz.tb.lit.counts[..], lz.tb.dist.counts[..])
    requires dictPos == lz.coded % U32 && Covers(lz.win.stream, lz.win.mark, lz.coded, lz.tb.tokens)
    requires lz.coded + lz.tb.totalBytes <= lz.win.Pos() <= lz.coded + lz.tb.totalBytes + 1
    modifies w, w.buf, lz.tb.lit.counts, lz.tb.lit.sizes, lz.tb.lit.codes, lz.tb.dist.sizes, lz.tb.dist.codes
    modifies cl.counts, cl.sizes, cl.codes
    ensures w.Valid() && w.Advanced() && lz.tb.Packed() && lz.win.Valid()
    ensures w.emitted == BlockBits(old(w.emitted), final, b)
    ensures Yields(b, |old(w.emitted)| + 1, lz.win.stream, lz.win.mark, lz.coded, lz.coded + lz.tb.totalBytes)
    ensures Roomy(w)
  {
    hide Holds, Stored, AllFlagged, Tallied, HoldsWindow, Linked, Yields, Covers, ToBits, Pos, FlagPos, EndPos,
         TokensLength;
    hide BytesBits, Fields, Repeats;
    Pow2Table();
    w.PutBits(if final then 1 else 0, 1);
    ghost var c;
    b, c := EncodeBlock(w, lz.tb, cl, lz.win, dictPos, lz.flags.forceRaw, lz.flags.forceStatic, lz.coded);
  }

  lemma SentParts(bits: Bits, first: bool, zlib: bool, seg: int, stream: Bytes, lo: nat, coded: nat)
    requires Sent(bits, first, zlib, seg, stream, lo, coded)
    ensures lo <= coded <= |stream| && Growing(bits, first, zlib, stream[..coded])
    ensures (first ==> seg < 0) && Since(bits, seg, stream[lo..coded])
  {
    hide Growing, Since;
  }

  /** With the header, if there is one, the stream has begun. */
  lemma SentNext(base: Bits, e: Bits, first: bool, zlib: bool, seg: int, stream: Bytes, lo: nat, coded: nat)
    requires lo <= coded <= |stream| && Produces(base + e, zlib, stream[..coded]) && (first ==> seg < 0)
    requires !first ==> Since(base + e, seg, stream[lo..coded])
    ensures Sent(base + e, false, zlib, seg, stream, lo, coded)
  {
    hide Produces;
  }

  /** Block and trailer, in the writer. */
  method EmitRest(w: Writer, lz: LzParser, cl: Table, dictPos: nat, flush: Flush, adler: nat,
                  ghost base: Bits, ghost seg: int)
    requires w.Valid() && lz.win.Valid() && lz.tb.Packed() && cl.Valid() && cl.counts.Length == 19
    requires BlockEmitter.Apart(w, lz.tb, cl) && w.buf != lz.win.dict && LzParser.Apart(lz.win, lz.tb)
    requires w.end - w.start == BLOCK_ROOM && |w.emitted| <= 16 && |base| % 8 == 0
    requires Tallied(lz.tb.tokens, lz.tb.lit.counts[..], lz.tb.dist.counts[..])
    requires dictPos == lz.coded % U32 && Covers(lz.win.stream, lz.win.mark, lz.coded, lz.tb.tokens)
    requires lz.coded + lz.tb.totalBytes <= lz.win.Pos() <= lz.coded + lz.tb.totalBytes + 1
    requires Sent(base + w.emitted, false, lz.flags.zlib, seg, lz.win.stream, lz.win.mark, lz.coded) && seg <= |base|
    requires flush == Finish && lz.flags.zlib ==> adler == Checksum(lz.win.stream[..lz.coded + lz.tb.totalBytes])
    modifies w, w.buf, lz.tb.lit.counts, lz.tb.lit.sizes, lz.tb.lit.codes, lz.tb.dist.sizes, lz.tb.dist.codes
    modifies cl.counts, cl.sizes, cl.codes
    ensures w.Valid() && w.Advanced() && lz.tb.Packed() && lz.win.Valid()
    ensures Meant(flush == Finish, base + w.emitted, lz.flags.zlib, seg, lz.win.stream, lz.win.mark,
                  lz.coded + lz.tb.totalBytes)
    ensures flush != NoFlush ==> w.bitsIn == 0
    ensures w.cur < w.end
  {
    hide Holds, Stored, AllFlagged, Tallied, HoldsWindow, Linked, Yields, Covers, ToBits, Sent, Meant, Since, Growing;
    hide Pos, FlagPos, EndPos, TokensLength, BytesBits, Fields, Repeats, Checksum, BlockBits, EncBig, EncStored, Pad;
    hide Produces, Trailer;
    var zlib := lz.flags.zlib;
    ghost var e := w.emitted;
    ghost var b := EmitBody(w, lz, cl, dictPos, flush == Finish);
    PutTrailer(w, flush, zlib, adler);
    EmittedMeant(base, e, b, flush, zlib, adler, seg, lz.win.stream, lz.win.mark, lz.coded, lz.coded +
        lz.tb.totalBytes);
    w.NothingDropped();
  }

  /** Header, block and trailer, in the writer. */
  method EmitBits(w: Writer, lz: LzParser, cl: Table, dictPos: nat, first: bool, flush: Flush, adler: nat,
                  ghost base: Bits, ghost seg: int)
    requires w.Valid() && lz.win.Valid() && lz.tb.Packed() && cl.Valid() && cl.counts.Length == 19
    requires BlockEmitter.Apart(w, lz.tb, cl) && w.buf != lz.win.dict && LzParser.Apart(lz.win, lz.tb)
    requires w.end - w.start == BLOCK_ROOM && |w.emitted| <= 7 && |base| % 8 == 0
    requires Tallied(lz.tb.tokens, lz.tb.lit.counts[..], lz.tb.dist.counts[..])
    requires dictPos == lz.coded % U32 && Covers(lz.win.stream, lz.win.mark, lz.coded, lz.tb.tokens)
    requires lz.coded + lz.tb.totalBytes <= lz.win.Pos() <= lz.coded + lz.tb.totalBytes + 1
    requires Sent(base + w.emitted, first, lz.flags.zlib, seg, lz.win.stream, lz.win.mark, lz.coded) && seg <= |base|
    requires flush == Finish && lz.flags.zlib ==> adler == Checksum(lz.win.stream[..lz.coded + lz.tb.totalBytes])
    modifies w, w.buf, lz.tb.lit.counts, lz.tb.lit.sizes, lz.tb.lit.codes, lz.tb.dist.sizes, lz.tb.dist.codes
    modifies cl.counts, cl.sizes, cl.codes
    ensures w.Valid() && w.Advanced() && lz.tb.Packed() && lz.win.Valid()
    ensures Meant(flush == Finish, base + w.emitted, lz.flags.zlib, seg, lz.win.stream, lz.win.mark,
                  lz.coded + lz.tb.totalBytes)
    ensures flush != NoFlush ==> w.bitsIn == 0
    ensures w.cur < w.end
  {
    hide Holds, Stored, AllFlagged, Tallied, HoldsWindow, Linked, Yields, Covers, ToBits, Sent, Meant, Since, Growing;
    hide Pos, FlagPos, EndPos, TokensLength, BytesBits, Fields, Repeats, Checksum, BlockBits, EncBig, EncStored, Pad;
    hide Produces, Trailer;
    var zlib := lz.flags.zlib;
    SentParts(base + w.emitted, first, zlib, seg, lz.win.stream, lz.win.mark, lz.coded);
    EmitHeader(w, first, zlib, lz.flags.probes, base, lz.win.stream[..lz.coded]);
    SentNext(base, w.emitted, first, zlib, seg, lz.win.stream, lz.win.mark, lz.coded);
    EmitRest(w, lz, cl, dictPos, flush, adler, base, seg);
  }

  /** The partial flag byte is fixed up; the tokens still account for the stream, all of it at the end. */
  method FinishTokens(lz: LzParser)
    requires lz.Valid()
    modifies lz.tb, lz.tb.buf
    ensures lz.win.Valid() && lz.tb.Packed() && LzParser.Apart(lz.win, lz.tb) && lz.DeferOk()
    ensures lz.tb.tokens == old(lz.tb.tokens) && lz.tb.totalBytes == old(lz.tb.totalBytes)
    ensures Tallied(lz.tb.tokens, lz.tb.lit.counts[..], lz.tb.dist.counts[..])
    ensures Covers(lz.win.stream, lz.win.mark, lz.coded, lz.tb.tokens) && lz.win.mark <= lz.coded
    ensures lz.coded + lz.tb.totalBytes + (if lz.savedLen > 0 then 1 else 0) == lz.win.Pos() <= |lz.win.stream|
    ensures lz.win.lookaheadSize == 0 ==> lz.win.stream[..lz.coded + lz.tb.totalBytes] == lz.win.stream
  {
    hide Stored, AllFlagged, Tallied, HoldsWindow, Linked, Covers, Repeats, Pos, FlagPos, EndPos, TokensLength;
    CoversLength(lz.win.stream, lz.win.mark, lz.coded, lz.tb.tokens);
    lz.tb.Finish();
    if lz.win.lookaheadSize == 0 {
      lz.NothingDeferred();
    }
  }

  /** One block, complete. */
  method EmitBlock(w: Writer, lz: LzParser, cl: Table, dictPos: nat, first: bool, flush: Flush, adler: nat,
                   ghost base: Bits, ghost seg: int)
    requires w.Valid() && lz.Valid() && cl.Valid() && cl.counts.Length == 19
    requires BlockEmitter.Apart(w, lz.tb, cl) && w.buf != lz.win.dict
    requires w.end - w.start == BLOCK_ROOM && |w.emitted| < 8 && |base| % 8 == 0
    requires dictPos == lz.coded % U32
    requires Sent(base + w.emitted, first, lz.flags.zlib, seg, lz.win.stream, lz.win.mark, lz.coded) && seg <= |base|
    requires flush == Finish ==> lz.win.lookaheadSize == 0 && (lz.flags.zlib ==> adler == Checksum(lz.win.stream))
    modifies w, w.buf, lz`coded, lz.tb, lz.tb.buf
    modifies lz.tb.lit.counts, lz.tb.lit.sizes, lz.tb.lit.codes, lz.tb.dist.counts, lz.tb.dist.sizes, lz.tb.dist.codes
    modifies cl.counts, cl.sizes, cl.codes
    ensures w.Valid() && w.Advanced() && lz.Valid()
    ensures lz.coded == old(lz.coded + lz.tb.totalBytes) && lz.tb.tokens == []
    ensures Meant(flush == Finish, base + w.emitted, lz.flags.zlib, seg, lz.win.stream, lz.win.mark, lz.coded)
    ensures flush == Finish ==> lz.coded == |lz.win.stream|
    ensures flush != NoFlush ==> w.bitsIn == 0
    ensures w.cur < w.end
  {
    hide Holds, Stored, AllFlagged, Tallied, HoldsWindow, Linked, Covers, ToBits, Sent, Meant;
    hide Repeats, Pos, FlagPos, EndPos, TokensLength, BytesBits, Fields, Checksum;
    hide LzParser.Valid, LzParser.DeferOk, Dictionary.Valid, Tokens.Packed;
    FinishTokens(lz);
    EmitBits(w, lz, cl, dictPos, first, flush, adler, base, seg);
    assert w.cur < w.end;
    NextBlock(lz);
  }

  /** One block written from a given place on; its whole bytes and, apart, the bits left over. */
  method EmitInto(w: Writer, lz: LzParser, cl: Table, target: array<byte>, from: nat, outBuf: array<byte>,
                  dictPos: nat, first: bool, flush: Flush, adler: nat, ghost base: Bits, ghost seg: int)
    returns (n: nat, ghost bytes: Bytes, ghost sent: Bits)
    requires w.Valid() && lz.Valid() && cl.Valid() && cl.counts.Length == 19 && cl.Parts() !! lz.tb.Parts()
    requires target != lz.tb.buf && target != lz.win.dict && from + BLOCK_ROOM <= target.Length
    requires |base| % 8 == 0 && dictPos == lz.coded % U32
    requires Sent(base + ToBits(w.bitBuffer, w.bitsIn), first, lz.flags.zlib, seg, lz.win.stream, lz.win.mark, lz.coded)
    requires seg <= |base|
    requires flush == Finish ==> lz.win.lookaheadSize == 0 && (lz.flags.zlib ==> adler == Checksum(lz.win.stream))
    modifies w, target, lz`coded, lz.tb, lz.tb.buf, lz.tb.lit.Parts(), lz.tb.dist.Parts(), cl.Parts()
    ensures w.Valid() && w.buf == outBuf && lz.Valid() && lz.tb.tokens == [] && lz.tb.codePos <= CODE_BUF_SIZE - 8
    ensures lz.coded == old(lz.coded + lz.tb.totalBytes) && lz.coded <= |lz.win.stream|
    ensures n <= BLOCK_ROOM && bytes == target[from..from + n] && target[..from] == old(target[..from])
    ensures sent == BytesBits(bytes) + ToBits(w.bitBuffer, w.bitsIn)
    ensures Meant(flush == Finish, base + sent, lz.flags.zlib, seg, lz.win.stream, lz.win.mark, lz.coded)
    ensures flush == Finish ==> lz.coded == |lz.win.stream|
    ensures flush != NoFlush ==> w.bitsIn == 0
  {
    hide LzParser.Valid, Writer.State, ToBits, Sent, Meant, BytesBits, Checksum, Table.Parts,
         Tokens.Parts;
    CountsInParts(cl);
    CountsInParts(lz.tb.lit);
    CountsInParts(lz.tb.dist);
    w.Begin(target, from, from + BLOCK_ROOM);
    EmitBlock(w, lz, cl, dictPos, first, flush, adler, base, seg);
    w.NothingDropped();
    n := w.cur - w.start;
    bytes := target[from..from + n];
    sent := w.emitted;
    w.Begin(outBuf, 0, 0);
    lz.Placed();
  }

  method CopyBytes(src: array<byte>, from: nat, n: nat, dst: array<byte>, ofs: nat)
    requires from + n <= src.Length && ofs + n <= dst.Length && src != dst
    modifies dst
    ensures dst[..ofs] == old(dst[..ofs]) && dst[ofs..ofs + n] == src[from..from + n]
  {
    for i := 0 to n
      invariant dst[..ofs] == old(dst[..ofs]) && dst[ofs..ofs + i] == src[from..from + i]
    {
      dst[ofs + i] := src[from + i];
    }
  }

  lemma NoBits(b: nat)
    ensures ToBits(b, 0) == [] && BytesBits([]) == []
  {
  }

  lemma BitsAfter(sent: Bytes, bytes: Bytes, rest: Bits)
    ensures BytesBits(sent) + (BytesBits(bytes) + rest) == BytesBits(sent + bytes) + rest
  {
    BytesBitsConcat(sent, bytes);
    ConcatAssoc(BytesBits(sent), BytesBits(bytes), rest);
  }

  method NewParser(f: Flags) returns (lz: LzParser)
    ensures lz.Valid() && lz.flags == f && lz.win.stream == [] && lz.coded == 0 && lz.tb.tokens == []
    ensures fresh(lz) && fresh(lz.win.Parts()) && fresh(lz.tb.Parts())
  {
    hide HoldsWindow, Linked, Stored, AllFlagged, Tallied, Covers, Repeats, TokensLength;
    var win := new Dictionary(!f.nondeterministic);
    var tb := new Tokens();
    lz := new LzParser(f, win, tb);
  }

  lemma EmptyTokens(ts: seq<Token>)
    requires ts == []
    ensures TokenBuffer.Pos(ts, |ts|) == 1
  {
  }

  lemma CountsInParts(t: Table)
    ensures t.counts in t.Parts() && t.sizes in t.Parts() && t.codes in t.Parts()
  {
  }

  lemma JoinTail(before: Bytes, dst: array<byte>, ofs: nat, n: nat)
    requires ofs + n <= dst.Length
    ensures before + dst[..ofs] + dst[ofs..ofs + n] == before + dst[..ofs + n]
  {
  }

  lemma SplitTail(sent: Bytes, waiting: Bytes, n: nat)
    requires n <= |waiting|
    ensures sent + waiting[..n] + waiting[n..] == sent + waiting
  {
  }

  /** At a byte boundary a new part of the stream can begin. */
  lemma SinceNow(bits: Bits, stream: Bytes)
    requires |bits| % 8 == 0
    ensures Since(bits, |bits|, stream[|stream|..|stream|])
  {
    assert bits[|bits|..] == [] && stream[|stream|..|stream|] == [];
    NothingProduces();
  }

  /** The bytes since a full flush decode alone. */
  lemma SinceDecodes(sent: Bytes, seg: int, out: Bytes)
    requires SinceEnds(BytesBits(sent), seg, out)
    ensures seg >= 0 ==> seg / 8 <= |sent| && Decodes(sent[seg / 8..], false, out)
  {
    hide BytesBits, Inflate;
    if seg >= 0 {
      var k := seg / 8;
      var part := sent[k..];
      BytesBitsConcat(sent[..k], part);
      assert sent[..k] + part == sent;
      assert BytesBits(sent)[seg..] == BytesBits(part);
      var t: Bits :| t <= BytesBits(sent)[seg..] && Ends(t, false, out, |t|);
    }
  }

  class Deflater {
    const flags: Flags
    /** Whether output goes to a callback; its buffer may be bounded (sinkLimit) or expandable (negative). */
    const callback: bool
    const sinkLimit: int
    const win: Dictionary
    const tb: Tokens
    const lz: LzParser
    const cl: Table
    const w: Writer
    const outBuf: array<byte>
    var dictPos: nat
    var flushOfs: nat
    var flushRemaining: nat
    var finished: bool
    var blockIndex: nat
    var wantsToFinish: bool
    var prevStatus: Status
    var adler: nat
    /** What the callback has accepted. */
    var sink: Bytes
    // The current call's source and destination.
    var src: Bytes
    var srcPos: nat
    var dst: array?<byte>
    var dstOfs: nat
    /** Every byte handed to the caller so far. */
    ghost var delivered: Bytes
    /** Every bit of the stream so far, those in the bit buffer included. */
    ghost var bits: Bits
    /** Delivered before the current call. */
    ghost var before: Bytes
    /** Where in the bits the last full flush ended, negative before any. */
    ghost var seg: int

    ghost predicate Shape() {
      && lz.win == win && lz.tb == tb && lz.flags == flags
      && tb.Shape() && LzParser.Apart(win, tb)
      && cl.Valid() && cl.counts.Length == 19
      && cl.Parts() !! tb.Parts()
      && outBuf != tb.buf && outBuf != win.dict && outBuf.Length == OUT_BUF_SIZE
    }

    /** Every object the compressor owns. */
    ghost function Parts(): set<object> {
      {this, lz, w, outBuf} + win.Parts() + tb.Parts() + cl.Parts()
    }

    /** Bytes produced but not yet handed over. */
    ghost function Pending(): Bytes
      reads `flushOfs, `flushRemaining, outBuf
      requires flushOfs + flushRemaining <= outBuf.Length
    {
      outBuf[flushOfs..flushOfs + flushRemaining]
    }

    /** The parser's side: how far the stream is parsed and coded. */
    ghost predicate Coding()
      reads `dictPos, lz, win, win.dict, win.next, win.hash, tb, tb.buf, tb.lit.counts, tb.dist.counts
    {
      && Shape() && lz.Valid()
      && dictPos == lz.coded % U32
    }

    /** The output side: the bits sent so far are those of the bytes handed over, those pending, and the bit buffer. */
    ghost predicate Sending()
      reads `flushOfs, `flushRemaining, `bits, `delivered, `sink, `finished, w, outBuf
    {
      && Shape() && w.buf == outBuf && w.Valid()
      && flushOfs + flushRemaining <= outBuf.Length
      && bits == BytesBits(delivered + Pending()) + ToBits(w.bitBuffer, w.bitsIn)
      && (callback ==> flushRemaining == 0 && delivered == sink)
      && (finished ==> w.bitsIn == 0)
    }

    /** What the bits mean: the coded part of the stream, or all of it once finished. */
    ghost predicate Meaning()
      reads `bits, `blockIndex, `finished, `seg, lz, win
    {
      && Shape() && lz.coded <= |win.stream|
      && (!finished ==> Sent(bits, blockIndex == 0, flags.zlib, seg, win.stream, win.mark, lz.coded))
      && (finished ==> Meant(true, bits, flags.zlib, seg, win.stream, win.mark, |win.stream|) && win.lookaheadSize == 0)
    }

    /** Parser, output and meaning are in step. */
    ghost predicate Steady()
      reads `dictPos, `flushOfs, `flushRemaining, `bits, `delivered, `sink, `finished, `blockIndex, `seg
      reads lz, win, win.dict, win.next, win.hash, tb, tb.buf, tb.lit.counts, tb.dist.counts, w, outBuf
    {
      Coding() && Sending() && Meaning()
    }

    /** Between steps of the parser the token buffer also has room for the next step. */
    ghost predicate Valid()
      reads `dictPos, `flushOfs, `flushRemaining, `bits, `delivered, `sink, `finished, `blockIndex, `seg
      reads lz, win, win.dict, win.next, win.hash, tb, tb.buf, tb.lit.counts, tb.dist.counts, w, outBuf
    {
      Steady() && tb.codePos <= CODE_BUF_SIZE - 8
    }

    /** A compressor assembled from fresh parts. */
    constructor (f: Flags, callback: bool, sinkLimit: int, lz: LzParser, cl: Table, w: Writer, outBuf: array<byte>)
      requires lz.flags == f && lz.Valid() && lz.win.stream == [] && lz.coded == 0 && lz.tb.tokens == []
      requires cl.Valid() && cl.counts.Length == 19 && outBuf.Length == OUT_BUF_SIZE
      requires cl.Parts() !! lz.tb.Parts() && outBuf !in lz.tb.Parts() && outBuf !in lz.win.Parts()
      requires w.Valid() && w.buf == outBuf && w.bitsIn == 0
      ensures Valid() && Live()
      ensures flags == f && this.callback == callback && this.sinkLimit == sinkLimit
      ensures win == lz.win && tb == lz.tb && this.lz == lz && this.cl == cl && this.w == w && this.outBuf == outBuf
      ensures delivered == [] && sink == [] && !finished && !wantsToFinish && prevStatus == Okay
      ensures flushRemaining == 0 && adler == 1
    {
      hide HoldsWindow, Linked, Stored, AllFlagged, Tallied, Covers, Holds, ToBits, Produces, Repeats, TokensLength;
      flags, this.callback, this.sinkLimit := f, callback, sinkLimit;
      win, tb, this.lz, this.cl, this.w, this.outBuf := lz.win, lz.tb, lz, cl, w, outBuf;
      dictPos, flushOfs, flushRemaining, blockIndex, adler := 0, 0, 0, 0, 1;
      finished, wantsToFinish, prevStatus := false, false, Okay;
      sink, src, srcPos, dst, dstOfs := [], [], 0, null, 0;
      delivered, bits, before, seg := [], [], [], -1;
      new;
      NoBits(w.bitBuffer);
      EmptyTokens(tb.tokens);
    }

    /** tdefl_init. */
    static method Init(f: Flags, callback: bool, sinkLimit: int) returns (d: Deflater)
      ensures d.Live() && fresh(d.Parts()) && d.flags == f && d.callback == callback && d.sinkLimit == sinkLimit
      ensures d.win.stream == [] && d.delivered == [] && d.sink == [] && !d.finished && !d.wantsToFinish
      ensures d.prevStatus == Okay && d.flushRemaining == 0 && d.adler == 1
    {
      hide HoldsWindow, Linked, Stored, AllFlagged, Tallied, Covers, Holds, ToBits, Produces, Repeats, TokensLength,
           Growing, Complete;
      hide LzParser.Valid, Writer.Valid, Tokens.Parts, Dictionary.Parts, Deflater.Live, Deflater.Valid,
           Deflater.Coding, Deflater.Sending, Deflater.Meaning;
      var cl := new Table(19);
      var outBuf := new byte[OUT_BUF_SIZE];
      var w := new Writer(outBuf);
      var lz := NewParser(f);
      d := new Deflater(f, callback, sinkLimit, lz, cl, w, outBuf);
    }

    /** Only a bounded callback can refuse output. */
    ghost predicate Failed()
      reads `prevStatus
    {
      prevStatus == PutBufFailed && callback && sinkLimit >= 0
    }

    /** During a call the caller's buffer holds what this call has delivered, and is none of the compressor's own. */
    ghost predicate InCall()
      reads `src, `srcPos, `dst, `dstOfs, `delivered, `before, dst
    {
      && srcPos <= |src|
      && (dst == null <==> callback)
      && (dst == null ==> dstOfs == 0)
      && (dst != null ==> dst != outBuf && dst != win.dict && dst != tb.buf
                          && dstOfs <= dst.Length && delivered == before + dst[..dstOfs])
    }

    /** Output is held back only when the caller's buffer is full. */
    ghost predicate HeldOnlyIfFull()
      reads `flushRemaining, `dst, `dstOfs
    {
      flushRemaining > 0 ==> dst != null && dstOfs == dst.Length
    }

    /** Copies what fits into the caller's buffer and keeps the rest pending. */
    method DeliverPart(n: nat)
      requires InCall() && dst != null && n <= outBuf.Length
      modifies this`flushOfs, this`flushRemaining, this`dstOfs, this`delivered, dst
      ensures InCall() && flushOfs + flushRemaining <= n && HeldOnlyIfFull() && old(delivered) <= delivered
      ensures delivered + Pending() == old(delivered) + old(outBuf[..n])
    {
      flushOfs, flushRemaining := 0, n;
      ghost var waiting := Pending();
      var k: nat := Min(n, dst.Length - dstOfs);
      CopyBytes(outBuf, 0, k, dst, dstOfs);
      HandMore(k, waiting);
    }

    /** Hands the n bytes just written over: to the callback, into the caller's buffer, or partly kept pending. */
    method HandOver(direct: bool, n: nat, ghost bytes: Bytes) returns (ok: bool)
      requires InCall() && (dst == null <==> callback) && n <= BLOCK_ROOM <= outBuf.Length
      requires direct ==> dst != null && dstOfs + n <= dst.Length && bytes == dst[dstOfs..dstOfs + n]
      requires !direct ==> bytes == outBuf[..n]
      requires callback ==> !direct && delivered == sink
      modifies this`flushOfs, this`flushRemaining, this`dstOfs, this`delivered, this`sink, dst
      ensures InCall() && HeldOnlyIfFull() && (!ok ==> callback && sinkLimit >= 0) && old(delivered) <= delivered
      ensures ok ==> flushOfs + flushRemaining <= outBuf.Length && delivered + Pending() == old(delivered) + bytes
      ensures ok && callback ==> flushRemaining == 0 && delivered == sink
    {
      hide Deflater.InCall;
      ok := true;
      flushOfs, flushRemaining := 0, 0;
      if n == 0 {
        NonePending(bytes);
      } else if callback {
        if sinkLimit >= 0 && |sink| + n > sinkLimit {
          ok := false;
          return;
        }
        CallBack(n);
      } else if !direct {
        DeliverPart(n);
      } else {
        DeliverDirect(n);
      }
    }

    lemma NonePending(bytes: Bytes)
      requires flushOfs == flushRemaining == 0 && bytes == []
      ensures Pending() == [] && delivered + Pending() == delivered + bytes
    {
    }

    /** The callback takes the n bytes of the internal buffer. */
    method CallBack(n: nat)
      requires InCall() && callback && n <= outBuf.Length && flushOfs == flushRemaining == 0 && delivered == sink
      modifies this`sink, this`delivered
      ensures InCall() && delivered == sink && Pending() == [] && delivered + Pending() == old(delivered) + outBuf[..n]
      ensures old(delivered) <= delivered
    {
      sink := sink + outBuf[..n];
      delivered := delivered + outBuf[..n];
    }

    /** The block was written straight into the caller's buffer: only the cursor moves. */
    method DeliverDirect(n: nat)
      requires InCall() && dst != null && dstOfs + n <= dst.Length && flushOfs == flushRemaining == 0
      modifies this`delivered, this`dstOfs
      ensures InCall() && Pending() == [] && delivered + Pending() == old(delivered) + dst[old(dstOfs)..old(dstOfs) + n]
      ensures old(delivered) <= delivered
    {
      ghost var part := dst[dstOfs..dstOfs + n];
      JoinTail(before, dst, dstOfs, n);
      delivered := delivered + part;
      dstOfs := dstOfs + n;
    }

    /** Handing over completes the sending side and leaves the parser's side alone. */
    method Deliver(direct: bool, n: nat, ghost bytes: Bytes) returns (ok: bool)
      requires InCall() && n <= BLOCK_ROOM && Shape() && w.buf == outBuf && w.Valid() && (finished ==> w.bitsIn == 0)
      requires direct ==> dst != null && dstOfs + n <= dst.Length && bytes == dst[dstOfs..dstOfs + n]
      requires !direct ==> bytes == outBuf[..n]
      requires callback ==> !direct && delivered == sink
      requires bits == BytesBits(delivered + bytes) + ToBits(w.bitBuffer, w.bitsIn)
      modifies this`flushOfs, this`flushRemaining, this`dstOfs, this`delivered, this`sink, dst
      ensures InCall() && HeldOnlyIfFull() && (ok ==> Sending()) && (old(Coding()) ==> Coding()) &&
          (old(Meaning()) ==> Meaning())
      ensures !ok ==> callback && sinkLimit >= 0
      ensures old(delivered) <= delivered
    {
      hide ToBits, BytesBits, Writer.Valid, Deflater.Coding, Deflater.Meaning, Deflater.Pending;
      ok := HandOver(direct, n, bytes);
    }

    /** Writes one block, into the caller's buffer when it surely fits there, else into the internal one. */
    method FillRegion(flush: Flush, ghost base: Bits)
      returns (direct: bool, n: nat, ghost bytes: Bytes, ghost sent: Bits)
      requires Coding() && InCall() && w.Valid() && |base| % 8 == 0
      requires Sent(base + ToBits(w.bitBuffer, w.bitsIn), blockIndex == 0, flags.zlib, seg, win.stream, win.mark,
          lz.coded)
      requires seg <= |base|
      requires flush == Finish ==> win.lookaheadSize == 0 && (flags.zlib ==> adler == Checksum(win.stream))
      modifies w, outBuf, dst, lz`coded, tb, tb.buf, tb.lit.Parts(), tb.dist.Parts(), cl.Parts()
      ensures InCall() && w.Valid() && w.buf == outBuf && lz.Valid() && tb.tokens == [] &&
          tb.codePos <= CODE_BUF_SIZE - 8
      ensures lz.coded == old(lz.coded + tb.totalBytes) && lz.coded <= |win.stream|
      ensures n <= BLOCK_ROOM &&
          (direct ==> dst != null && dstOfs + n <= dst.Length && bytes == dst[dstOfs..dstOfs + n])
      ensures (!direct ==> bytes == outBuf[..n]) && (callback ==> !direct)
      ensures sent == BytesBits(bytes) + ToBits(w.bitBuffer, w.bitsIn)
      ensures Meant(flush == Finish, base + sent, flags.zlib, seg, win.stream, win.mark, lz.coded)
      ensures flush == Finish ==> lz.coded == |win.stream|
      ensures flush != NoFlush ==> w.bitsIn == 0
    {
      hide ToBits, Sent, Meant, Checksum, BytesBits, Writer.Valid, LzParser.Valid, Dictionary.Valid,
           Tokens.Valid;
      direct := !callback && dst.Length - dstOfs >= OUT_BUF_SIZE;
      if direct {
        n, bytes, sent := EmitInto(w, lz, cl, dst, dstOfs, outBuf, dictPos, blockIndex == 0, flush, adler, base, seg);
      } else {
        n, bytes, sent := EmitInto(w, lz, cl, outBuf, 0, outBuf, dictPos, blockIndex == 0, flush, adler, base, seg);
      }
    }

    /** What a block continues from. */
    lemma BlockBegins()
      requires Steady() && flushRemaining == 0 && !finished
      ensures Shape() && Coding() && w.Valid() && w.buf == outBuf && dictPos == lz.coded % U32
      ensures bits == BytesBits(delivered) + ToBits(w.bitBuffer, w.bitsIn)
      ensures Sent(bits, blockIndex == 0, flags.zlib, seg, win.stream, win.mark, lz.coded)
      ensures seg <= |BytesBits(delivered)|
      ensures callback ==> delivered == sink
    {
      hide ToBits, BytesBits, Growing, Writer.Valid, LzParser.Valid;
      assert delivered + Pending() == delivered;
      w.NothingDropped();
      FewBits();
    }

    /** What is left in the bit buffer is less than a byte, so the last full flush ended in the bytes before it. */
    lemma FewBits()
      requires w.bitsIn < 8 && (seg >= 0 ==> seg % 8 == 0 && seg <= |bits|)
      requires bits == BytesBits(delivered) + ToBits(w.bitBuffer, w.bitsIn)
      ensures seg <= |BytesBits(delivered)|
    {
      hide ToBits, BytesBits, Produces;
    }

    lemma CodingAgain()
      requires Shape() && lz.Valid() && dictPos == lz.coded % U32
      ensures Coding()
    {
      hide LzParser.Valid, Deflater.Shape;
    }

    lemma MeaningAgain()
      requires Shape() && lz.coded <= |win.stream|
      requires Meant(finished, bits, flags.zlib, seg, win.stream, win.mark, lz.coded) && blockIndex > 0
      requires finished ==> lz.coded == |win.stream| && win.lookaheadSize == 0
      ensures Meaning()
    {
      hide Produces, Complete, Deflater.Shape;
    }

    /** Counts a block as sent. */
    method Account(total: nat, flush: Flush, ghost all: Bits)
      requires Shape() && lz.Valid() && (dictPos + total) % U32 == lz.coded % U32 && lz.coded <= |win.stream|
      requires Meant(flush == Finish, all, flags.zlib, seg, win.stream, win.mark, lz.coded)
      requires flush == Finish ==> lz.coded == |win.stream| && win.lookaheadSize == 0
      modifies this`dictPos, this`blockIndex, this`bits, this`finished
      ensures Coding() && Meaning() && finished == (flush == Finish) && bits == all && blockIndex > 0
      ensures old(InCall()) ==> InCall()
    {
      hide Produces, Complete, LzParser.Valid, Deflater.InCall, Deflater.Coding, Deflater.Meaning, Deflater.Shape;
      dictPos, blockIndex, finished, bits := (dictPos + total) % U32, blockIndex + 1, flush == Finish, all;
      CodingAgain();
      MeaningAgain();
    }

    /** Writes one block: afterwards parsing and meaning are in step, and its n whole bytes wait to be handed over. */
    method WriteBlock(flush: Flush) returns (direct: bool, n: nat, ghost bytes: Bytes)
      requires Steady() && InCall() && flushRemaining == 0 && !finished
      requires flush == Finish ==> win.lookaheadSize == 0 && (flags.zlib ==> adler == Checksum(win.stream))
      modifies this`dictPos, this`blockIndex, this`bits, this`finished
      modifies w, outBuf, dst, lz`coded, tb, tb.buf, tb.lit.Parts(), tb.dist.Parts(), cl.Parts()
      ensures InCall() && w.Valid() && w.buf == outBuf && (flush != NoFlush ==> w.bitsIn == 0)
      ensures Coding() && Meaning() && finished == (flush == Finish) && tb.codePos <= CODE_BUF_SIZE - 8
      ensures blockIndex > 0
      ensures lz.coded == old(lz.coded + tb.totalBytes) && tb.tokens == []
      ensures n <= BLOCK_ROOM &&
          (direct ==> dst != null && dstOfs + n <= dst.Length && bytes == dst[dstOfs..dstOfs + n])
      ensures (!direct ==> bytes == outBuf[..n]) && (callback ==> !direct)
      ensures bits == BytesBits(delivered + bytes) + ToBits(w.bitBuffer, w.bitsIn)
    {
      hide ToBits, Growing, Produces, Complete, Checksum, BytesBits, Writer.Valid, LzParser.Valid, Deflater.Pending;
      hide Dictionary.Valid, Tokens.Valid, Tokens.Shape, Dictionary.Pos;
      hide Deflater.InCall, Deflater.Coding, Deflater.Sending, Deflater.Meaning, Deflater.Shape, Deflater.Steady,
           Table.Parts;
      BlockBegins();
      ghost var base := BytesBits(delivered);
      var total := tb.totalBytes;
      WrapCoded(lz.coded, total);
      ghost var sent;
      direct, n, bytes, sent := FillRegion(flush, base);
      BitsAfter(delivered, bytes, ToBits(w.bitBuffer, w.bitsIn));
      Account(total, flush, base + sent);
    }

    /** tdefl_flush_block: writes a block and hands its bytes over; finishing also marks the stream finished. */
    method FlushBlock(flush: Flush) returns (ok: bool)
      requires Steady() && InCall() && flushRemaining == 0 && !finished
      requires flush == Finish ==> win.lookaheadSize == 0 && (flags.zlib ==> adler == Checksum(win.stream))
      modifies this`dictPos, this`blockIndex, this`bits, w, outBuf, dst, lz`coded, tb, tb.buf
      modifies tb.lit.Parts(), tb.dist.Parts(), cl.Parts()
      modifies this`flushOfs, this`flushRemaining, this`dstOfs, this`delivered, this`sink, this`prevStatus,
          this`finished
      ensures InCall() && (ok ==> Valid() && finished == (flush == Finish) && HeldOnlyIfFull())
      ensures ok ==> prevStatus == old(prevStatus) && lz.coded == old(lz.coded + tb.totalBytes) && tb.tokens == []
      ensures ok ==> blockIndex > 0 && (flush != NoFlush ==> w.bitsIn == 0)
      ensures !ok ==> Failed()
      ensures old(delivered) <= delivered
    {
      hide ToBits, Checksum, BytesBits, Writer.Valid, Table.Parts, Deflater.Coding, Deflater.Meaning, Deflater.InCall;
      hide Deflater.Sending, Deflater.Shape;
      BlockBegins();
      var direct, n;
      ghost var bytes;
      direct, n, bytes := WriteBlock(flush);
      ok := Deliver(direct, n, bytes);
      if !ok {
        prevStatus := PutBufFailed;
      }
    }

    /** A longer stream, and whatever the parser did with it, leaves what is sent and what it means alone. */
    twostate lemma StreamGrows(more: Bytes)
      requires old(Steady() && !finished) && !finished && Shape() && lz.Valid() && win.stream == old(win.stream) + more
      requires lz.coded == old(lz.coded) && bits == old(bits) && blockIndex == old(blockIndex)
      requires seg == old(seg) && win.mark == old(win.mark)
      ensures Meaning()
    {
      hide Growing, Since, LzParser.Valid, Dictionary.Valid, Tokens.Valid, Writer.Valid, Deflater.Sending,
           Deflater.Shape;
      assert win.stream[..lz.coded] == old(win.stream)[..lz.coded];
      assert win.mark <= lz.coded ==> win.stream[win.mark..lz.coded] == old(win.stream)[win.mark..lz.coded];
    }

    lemma Opened()
      requires Steady()
      ensures Shape() && lz.Valid() && lz.coded <= |win.stream| && dictPos == lz.coded % U32
      ensures lz.coded <= win.Pos() && win.lookaheadSize <= MAX_MATCH
    {
      hide Growing, Complete, HoldsWindow, Linked, Stored, Covers, Repeats, AllFlagged, Tallied;
    }

    /** The filling half of a parsing step. */
    method TopUp()
      requires Valid() && InCall() && !finished
      modifies this`srcPos, win`lookaheadSize, win`dictSize, win`stream, win.dict, win.next, win.hash
      ensures Valid() && InCall() && old(srcPos) <= srcPos
      ensures win.stream == old(win.stream) + src[old(srcPos)..srcPos]
      ensures srcPos == old(srcPos) + Min(|src| - old(srcPos), MAX_MATCH - old(win.lookaheadSize))
      ensures win.lookaheadSize == old(win.lookaheadSize) + (srcPos - old(srcPos))
    {
      hide Growing, Complete, LzParser.Valid, Tokens.Valid, Writer.Valid, Deflater.Meaning, Deflater.Sending, ToBits,
           BytesBits;
      Opened();
      srcPos := lz.Refill(src, srcPos);
      StreamGrows(src[old(srcPos)..srcPos]);
      CodingAgain();
    }

    /** The parsing half of a step; the token buffer may then be too full for another. */
    method Parse()
      requires Valid() && !finished && win.lookaheadSize > 0
      modifies lz`savedDist, lz`savedLen, lz`savedLit, tb, tb.buf, tb.lit.counts, tb.dist.counts
      modifies win`lookaheadPos, win`lookaheadSize, win`dictSize
      ensures Steady() && win.lookaheadSize < old(win.lookaheadSize)
    {
      hide Growing, Complete, LzParser.Valid, Tokens.Valid, Writer.Valid, Deflater.Meaning, Deflater.Sending, ToBits,
           BytesBits;
      Opened();
      ghost var dist, len;
      dist, len := lz.Step();
      assert win.stream == win.stream + [];
      StreamGrows([]);
      CodingAgain();
    }

    /** tdefl_flush_output_buffer: hands over what is pending, as far as the caller's buffer reaches. */
    method FlushOutput() returns (st: Status)
      requires Valid() && InCall()
      modifies this`flushOfs, this`flushRemaining, this`dstOfs, this`delivered, dst
      ensures Valid() && InCall() && st == if finished && flushRemaining == 0 then Done else Okay
      ensures dst != null && dstOfs < dst.Length ==> flushRemaining == 0
      ensures dst != null ==> flushRemaining == old(flushRemaining) - Min(dst.Length - old(dstOfs), old(flushRemaining))
      ensures old(dstOfs) <= dstOfs && delivered + Pending() == old(delivered + Pending())
      ensures old(delivered) <= delivered
      ensures old(flushRemaining) == 0 ==> flushRemaining == 0 && delivered == old(delivered)
      ensures flushOfs + flushRemaining <= outBuf.Length &&
          (old(flushOfs + flushRemaining <= outBuf.Length && Synced()) ==> Synced())
    {
      hide Growing, Complete, Writer.Valid, Deflater.Coding, Deflater.Meaning, Deflater.Shape, ToBits, BytesBits,
           Produces;
      if dst != null {
        var n: nat := Min(dst.Length - dstOfs, flushRemaining);
        ghost var waiting := Pending();
        CopyBytes(outBuf, flushOfs, n, dst, dstOfs);
        HandMore(n, waiting);
      }
      st := if finished && flushRemaining == 0 then Done else Okay;
    }

    /** Counts n pending bytes as handed over. */
    method HandMore(n: nat, ghost waiting: Bytes)
      requires dst != null && dstOfs + n <= dst.Length && delivered == before + dst[..dstOfs]
      requires flushOfs + flushRemaining <= outBuf.Length && n <= flushRemaining && waiting == Pending()
      requires dst[dstOfs..dstOfs + n] == waiting[..n]
      modifies this`flushOfs, this`flushRemaining, this`dstOfs, this`delivered
      ensures flushOfs == old(flushOfs) + n && flushRemaining == old(flushRemaining) - n && dstOfs == old(dstOfs) + n
      ensures delivered == before + dst[..dstOfs] && delivered + Pending() == old(delivered) + waiting
      ensures old(delivered) <= delivered
    {
      JoinTail(before, dst, dstOfs, n);
      SplitTail(delivered, waiting, n);
      delivered := delivered + waiting[..n];
      flushOfs, flushRemaining, dstOfs := flushOfs + n, flushRemaining - n, dstOfs + n;
      assert Pending() == waiting[n..];
    }

    /** Whether enough is recorded for a block: the token buffer is nearly full, or the tokens barely compress. */
    predicate BlockDue()
      reads tb
    {
      || tb.codePos > CODE_BUF_SIZE - 8
      || (tb.totalBytes > 31 * 1024 && (tb.codePos * 115 / 128 >= tb.totalBytes || flags.forceRaw))
    }

    /** One turn of the parsing loop; stop means the lookahead is too short to go on without a flush. */
    method Turn(flush: Flush) returns (ok: bool, stop: bool)
      requires Valid() && InCall() && !finished && flushRemaining == 0
      requires srcPos < |src| || win.lookaheadSize > 0
      modifies this`srcPos, this`dictPos, this`blockIndex, this`bits, w, outBuf, dst
      modifies lz`savedDist, lz`savedLen, lz`savedLit, lz`coded, win, win.dict, win.next, win.hash
      modifies tb, tb.buf, tb.lit.Parts(), tb.dist.Parts(), cl.Parts()
      modifies this`flushOfs, this`flushRemaining, this`dstOfs, this`delivered, this`sink, this`prevStatus,
          this`finished
      ensures InCall() && old(srcPos) <= srcPos && win.stream == old(win.stream) + src[old(srcPos)..srcPos]
      ensures ok ==> Valid() && !finished && prevStatus == old(prevStatus) && HeldOnlyIfFull()
      ensures ok && !stop ==> |src| - srcPos + win.lookaheadSize < |src| - old(srcPos) + old(win.lookaheadSize)
      ensures stop ==> ok && flush == NoFlush && srcPos == |src| && flushRemaining == 0
      ensures stop ==> win.lookaheadSize - old(win.lookaheadSize) <= srcPos - old(srcPos)
      ensures win.mark == old(win.mark) && old(delivered) <= delivered
      ensures !ok ==> Failed()
    {
      hide Growing, Complete, LzParser.Valid, Tokens.Valid, Writer.Valid, ToBits, BytesBits, Table.Parts,
           Deflater.Shape;
      hide Deflater.Coding, Deflater.Meaning, Deflater.Sending, Dictionary.Valid;
      ok, stop := true, false;
      TopUp();
      if flush == NoFlush && win.lookaheadSize < MAX_MATCH {
        stop := true;
        return;
      }
      ok := ParseOn();
    }

    /** The parsing half of a turn, and a block if one is due. */
    method ParseOn() returns (ok: bool)
      requires Valid() && InCall() && !finished && flushRemaining == 0 && win.lookaheadSize > 0
      modifies this`dictPos, this`blockIndex, this`bits, w, outBuf, dst
      modifies lz`savedDist, lz`savedLen, lz`savedLit, lz`coded
      modifies win`lookaheadPos, win`lookaheadSize, win`dictSize
      modifies tb, tb.buf, tb.lit.Parts(), tb.dist.Parts(), cl.Parts()
      modifies this`flushOfs, this`flushRemaining, this`dstOfs, this`delivered, this`sink, this`prevStatus,
          this`finished
      ensures InCall() && win.lookaheadSize < old(win.lookaheadSize) && old(delivered) <= delivered
      ensures ok ==> Valid() && !finished && prevStatus == old(prevStatus) && HeldOnlyIfFull()
      ensures !ok ==> Failed()
    {
      hide Growing, Complete, LzParser.Valid, Tokens.Valid, Writer.Valid, ToBits, BytesBits, Table.Parts,
           Deflater.Shape;
      hide Deflater.Coding, Deflater.Meaning, Deflater.Sending, Dictionary.Valid;
      CountsInParts(tb.lit);
      CountsInParts(tb.dist);
      ok := true;
      Parse();
      if BlockDue() {
        ok := FlushBlock(NoFlush);
      }
    }

    /** tdefl_compress_normal: parses what the flush mode allows, sending blocks as they fall due. */
    method CompressNormal(flush: Flush) returns (ok: bool)
      requires Valid() && InCall() && !finished && flushRemaining == 0
      modifies this`srcPos, this`dictPos, this`blockIndex, this`bits, w, outBuf, dst
      modifies lz`savedDist, lz`savedLen, lz`savedLit, lz`coded, win, win.dict, win.next, win.hash
      modifies tb, tb.buf, tb.lit.Parts(), tb.dist.Parts(), cl.Parts()
      modifies this`flushOfs, this`flushRemaining, this`dstOfs, this`delivered, this`sink, this`prevStatus,
          this`finished
      ensures InCall() && old(srcPos) <= srcPos && win.stream == old(win.stream) + src[old(srcPos)..srcPos]
      ensures ok ==> Valid() && !finished && prevStatus == old(prevStatus) && HeldOnlyIfFull()
      ensures ok && flushRemaining == 0 ==> srcPos == |src| && (flush != NoFlush ==> win.lookaheadSize == 0)
      ensures ok ==> win.lookaheadSize - old(win.lookaheadSize) <= srcPos - old(srcPos)
      ensures ok && flushRemaining > 0 ==> win.lookaheadSize - old(win.lookaheadSize) < srcPos - old(srcPos)
      ensures win.mark == old(win.mark) && old(delivered) <= delivered
      ensures !ok ==> Failed()
    {
      hide Growing, Complete, LzParser.Valid, Tokens.Valid, Writer.Valid, ToBits, BytesBits, Table.Parts,
           Dictionary.Valid;
      hide Deflater.Valid, Deflater.InCall;
      ok := true;
      SourceLeft();
      assert win.stream == win.stream + src[srcPos..srcPos];
      while srcPos < |src| || (flush != NoFlush && win.lookaheadSize > 0)
        invariant ok && Valid() && InCall() && !finished && flushRemaining == 0 && prevStatus == old(prevStatus)
        invariant old(srcPos) <= srcPos <= |src| && win.stream == old(win.stream) + src[old(srcPos)..srcPos]
        invariant win.lookaheadSize - old(win.lookaheadSize) <= srcPos - old(srcPos)
        invariant win.mark == old(win.mark) && old(delivered) <= delivered
        decreases |src| - srcPos + win.lookaheadSize
      {
        ghost var prior := srcPos;
        var stop;
        ok, stop := Turn(flush);
        SourceLeft();
        assert src[old(srcPos)..prior] + src[prior..srcPos] == src[old(srcPos)..srcPos];
        if !ok || stop || flushRemaining > 0 {
          return;
        }
      }
    }

    lemma SourceLeft()
      requires InCall()
      ensures srcPos <= |src|
    {
    }

    /** Nothing before the end of the stream can be reached back to, and the bits since stand alone. */
    ghost predicate Forgot()
      reads `seg, `flushOfs, `flushRemaining, `delivered, outBuf, win
      requires flushOfs + flushRemaining <= outBuf.Length
    {
      win.dictSize == 0 && win.mark == |win.stream| && seg == 8 * |delivered + Pending()|
    }

    /** The same with nothing pending. */
    ghost predicate Restarts()
      reads `seg, `delivered, win
    {
      win.dictSize == 0 && win.mark == |win.stream| && seg == 8 * |delivered|
    }

    /** A full flush: with everything coded, the history can go. */
    method ForgetHistory()
      requires Valid() && InCall() && !finished && blockIndex > 0 && w.bitsIn == 0
      requires tb.tokens == [] && win.lookaheadSize == 0
      modifies this`seg, win`dictSize, win`mark, win`clear, win.next, win.hash
      ensures Valid() && InCall() && win.stream == old(win.stream)
      ensures flushOfs + flushRemaining <= outBuf.Length && Forgot()
    {
      hide Growing, Complete, Since, LzParser.Valid, Writer.Valid, ToBits, BytesBits, Tokens.Valid, Deflater.InCall;
      Opened();
      NoBits(w.bitBuffer);
      assert bits == BytesBits(delivered + Pending());
      lz.ForgetHistory();
      seg := |bits|;
      SinceNow(bits, win.stream);
      CodingAgain();
    }

    /** A finished stream, all handed over, decodes to everything the compressor has consumed, and what was handed over
        since the last full flush decodes alone to what was consumed since. */
    lemma DoneMeans()
      requires Valid() && finished && flushRemaining == 0
      ensures Decodes(delivered, flags.zlib, win.stream)
      ensures DecodesSince()
    {
      hide Growing, Ends, ToBits, BytesBits, Unwrap, Tail, LzParser.Valid, Writer.Valid, Since;
      assert delivered + Pending() == delivered;
      NoBits(w.bitBuffer);
      assert bits == BytesBits(delivered);
      assert win.stream[..|win.stream|] == win.stream;
      var t: Bits :| Ends(t, flags.zlib, win.stream, |t|) && bits == t + Tail(|t|, flags.zlib, win.stream);
      Finished(t, flags.zlib, win.stream, bits);
      SinceDecodes(delivered, seg, win.stream[win.mark..]);
    }

    /** After a sync or full flush, what is handed over and pending makes a decoder produce everything consumed. */
    ghost predicate Synced()
      reads `flushOfs, `flushRemaining, `delivered, outBuf, win`stream
      requires flushOfs + flushRemaining <= outBuf.Length
    {
      Produces(BytesBits(delivered + Pending()), flags.zlib, win.stream)
    }

    lemma SyncMeans()
      requires Valid() && !finished && tb.tokens == [] && win.lookaheadSize == 0 && w.bitsIn == 0 && blockIndex > 0
      ensures flushOfs + flushRemaining <= outBuf.Length && Synced()
    {
      hide Produces, ToBits, BytesBits, HoldsWindow, Linked, Stored, Covers, Repeats, AllFlagged, Tallied, Writer.Valid;
      NoBits(w.bitBuffer);
      lz.NothingDeferred();
      assert win.stream[..lz.coded] == win.stream;
      assert bits == BytesBits(delivered + Pending());
    }

    /** The last part of a call: with all input parsed, the requested flush. */
    method Close(flush: Flush) returns (ok: bool)
      requires Valid() && InCall() && !finished && flushRemaining == 0 && flush != NoFlush && win.lookaheadSize == 0
      requires flags.zlib ==> adler == Checksum(win.stream)
      modifies this`dictPos, this`blockIndex, this`bits, w, outBuf, dst, lz`coded, tb, tb.buf
      modifies tb.lit.Parts(), tb.dist.Parts(), cl.Parts(), win`dictSize, win`mark, win`clear, win.next, win.hash
      modifies this`seg, this`flushOfs, this`flushRemaining, this`dstOfs, this`delivered, this`sink, this`prevStatus,
          this`finished
      ensures InCall() &&
          (ok ==> Valid() && finished == (flush == Finish) && prevStatus == old(prevStatus) && HeldOnlyIfFull())
      ensures ok && flush != Finish ==> flushOfs + flushRemaining <= outBuf.Length && Synced()
      ensures ok && flush == FullFlush ==> Forgot()
      ensures flush != FullFlush ==> seg == old(seg) && win.mark == old(win.mark)
      ensures !ok ==> Failed()
      ensures old(delivered) <= delivered
    {
      hide Growing, Complete, Checksum, Table.Parts, LzParser.Valid, Tokens.Valid, Writer.Valid, ToBits, BytesBits;
      hide Deflater.InCall, Deflater.Steady, Deflater.Shape, Deflater.Synced, Dictionary.Valid;
      ok := FlushBlock(flush);
      if ok && flush != Finish {
        SyncMeans();
      }
      if ok && flush == FullFlush {
        ForgetHistory();
      }
    }

    /** Parsing, the running checksum, and the requested flush once all input is parsed. */
    method CompressInput(flush: Flush) returns (ok: bool)
      requires Valid() && InCall() && !finished && flushRemaining == 0 && srcPos == 0
      requires flags.zlib || flags.adler ==> adler == Checksum(win.stream)
      modifies this`srcPos, this`dictPos, this`blockIndex, this`bits, this`adler, w, outBuf, dst
      modifies lz`savedDist, lz`savedLen, lz`savedLit, lz`coded, win, win.dict, win.next, win.hash
      modifies tb, tb.buf, tb.lit.Parts(), tb.dist.Parts(), cl.Parts()
      modifies this`seg, this`flushOfs, this`flushRemaining, this`dstOfs, this`delivered, this`sink, this`prevStatus,
          this`finished
      ensures InCall() && srcPos <= |src| && win.stream == old(win.stream) + src[..srcPos]
      ensures ok ==> Valid() && HeldOnlyIfFull() && prevStatus == old(prevStatus)
      ensures ok && (flags.zlib || flags.adler) ==> adler == Checksum(win.stream)
      ensures ok && (finished || flushRemaining == 0) ==> srcPos == |src| && finished == (flush == Finish)
      ensures ok ==> win.lookaheadSize <= old(win.lookaheadSize) + srcPos
      ensures ok && !finished && (flush == Finish || srcPos < |src|) ==>
          win.lookaheadSize < old(win.lookaheadSize) + srcPos
      ensures ok && flushRemaining == 0 && (flush == SyncFlush || flush == FullFlush) ==>
        flushOfs <= outBuf.Length && Synced()
      ensures ok && flush == FullFlush && flushRemaining == 0 ==> flushOfs <= outBuf.Length && Forgot()
      ensures flush != FullFlush ==> seg == old(seg) && win.mark == old(win.mark)
      ensures !ok ==> Failed()
      ensures old(delivered) <= delivered
    {
      hide Growing, Complete, Checksum, Table.Parts, LzParser.Valid, Tokens.Valid, Writer.Valid, ToBits, BytesBits;
      hide Deflater.InCall, Deflater.Valid, Deflater.Shape, Deflater.Synced, Dictionary.Valid;
      SourceLeft();
      ghost var prior := win.stream;
      ok := CompressNormal(flush);
      SourceLeft();
      if !ok {
        return;
      }
      if flags.zlib || flags.adler {
        ContinueChecksum(prior, src[..srcPos]);
        adler := Adler32(adler, src[..srcPos]);
      }
      if flush != NoFlush && win.lookaheadSize == 0 && srcPos == |src| && flushRemaining == 0 {
        ok := Close(flush);
      }
    }

    /** What holds between calls, as long as none has failed. */
    ghost predicate Live()
      reads `prevStatus, `adler, `dictPos, `flushOfs, `flushRemaining, `bits, `delivered, `sink, `finished,
          `blockIndex, `seg
      reads lz, win, win.dict, win.next, win.hash, tb, tb.buf, tb.lit.counts, tb.dist.counts, w, outBuf
    {
      prevStatus == Okay || prevStatus == Done ==>
        && Valid()
        && (flags.zlib || flags.adler ==> adler == Checksum(win.stream))
        && (finished && prevStatus == Okay ==> flushRemaining > 0)
    }

    /** What a call moves: while output is owed it only hands that over; otherwise it reads its input, or at least
        parses
        some, and finishes if asked to unless more output than the buffer holds comes first. */
    twostate predicate Progress(flush: Flush)
      reads this, win
    {
      && win.lookaheadSize <= old(win.lookaheadSize) + srcPos
      && (if old(flushRemaining) > 0 || old(finished) then
            && srcPos == 0 && finished == old(finished) && win.lookaheadSize == old(win.lookaheadSize)
            && (dst != null ==> flushRemaining == old(flushRemaining) - Min(dst.Length, old(flushRemaining)))
          else finished || (srcPos == |src| && flush != Finish) || win.lookaheadSize < old(win.lookaheadSize) + srcPos)
      && (dst != null && dstOfs < dst.Length ==> flushRemaining == 0)
    }

    /** The end of every call that has not failed: pending output goes out as far as the caller's buffer reaches. */
    method EndCall()
      requires Valid() && InCall()
      modifies this`flushOfs, this`flushRemaining, this`dstOfs, this`delivered, this`prevStatus, dst
      ensures Valid() && InCall() && CallResult() && prevStatus == if finished &&
          flushRemaining == 0 then Done else Okay
      ensures dst != null && dstOfs < dst.Length ==> flushRemaining == 0
      ensures dst != null ==> flushRemaining == old(flushRemaining) - Min(dst.Length - old(dstOfs), old(flushRemaining))
      ensures old(flushRemaining) == 0 ==> flushRemaining == 0
      ensures old(flushOfs + flushRemaining <= outBuf.Length && Synced()) && !finished && flushRemaining == 0 ==>
        Produces(BytesBits(delivered), flags.zlib, win.stream)
      ensures old(flushOfs + flushRemaining <= outBuf.Length && Forgot()) ==>
        flushOfs + flushRemaining <= outBuf.Length && Forgot()
      ensures old(delivered) <= delivered
    {
      hide Growing, Complete, Writer.Valid, LzParser.Valid, ToBits, BytesBits, Produces, Decodes, Deflater.CallResult,
           Deflater.Synced;
      hide Deflater.Steady, Deflater.Shape, Deflater.InCall, Deflater.Valid;
      prevStatus := FlushOutput();
      CallEnds();
    }

    /** A call while output is owed: nothing is read. */
    method ServeOwed(flush: Flush)
      requires Live() && InCall() && prevStatus == Okay && srcPos == 0 && dstOfs == 0 &&
          (flushRemaining > 0 || finished)
      modifies this`flushOfs, this`flushRemaining, this`dstOfs, this`delivered, this`prevStatus, dst
      ensures Live() && srcPos <= |src| && win.stream == old(win.stream) + src[..srcPos]
      ensures (prevStatus == Okay || prevStatus == Done) && CallResult() && Progress(flush) &&
          (prevStatus == Done ==> finished)
      ensures old(delivered) <= delivered
    {
      hide Checksum, Deflater.InCall, Produces, Decodes, Deflater.CallResult, Deflater.Synced, Deflater.Valid,
           Deflater.Live, BytesBits;
      NothingRead();
      LiveMeans();
      EndCall();
      SourceLeft();
      LiveAgain();
    }

    /** A call with nothing owed: parsing, then the requested flush. */
    method ServeInput(flush: Flush)
      requires Live() && InCall() && prevStatus == Okay && srcPos == 0 && dstOfs == 0 && flushRemaining == 0 &&
          !finished
      modifies this`srcPos, this`dictPos, this`blockIndex, this`bits, this`adler, w, outBuf, dst
      modifies lz`savedDist, lz`savedLen, lz`savedLit, lz`coded, win, win.dict, win.next, win.hash
      modifies tb, tb.buf, tb.lit.Parts(), tb.dist.Parts(), cl.Parts()
      modifies this`seg, this`flushOfs, this`flushRemaining, this`dstOfs, this`delivered, this`sink, this`prevStatus,
          this`finished
      ensures Live() && srcPos <= |src| && win.stream == old(win.stream) + src[..srcPos]
      ensures prevStatus == Okay || prevStatus == Done || Failed()
      ensures prevStatus == Okay || prevStatus == Done ==> CallResult() && Progress(flush)
      ensures prevStatus == Done ==> finished
      ensures (prevStatus == Okay || prevStatus == Done) && finished ==> srcPos == |src| && flush == Finish
      ensures prevStatus == Okay && (dst == null || dstOfs < dst.Length) ==>
        && srcPos == |src| && flush != Finish
        && (flush != NoFlush ==> Produces(BytesBits(delivered), flags.zlib, win.stream))
        && (flush == FullFlush ==> Restarts())
      ensures flush != FullFlush ==> seg == old(seg) && win.mark == old(win.mark)
      ensures old(delivered) <= delivered
    {
      hide Growing, Complete, Checksum, Table.Parts, LzParser.Valid, Tokens.Valid, Writer.Valid, ToBits, BytesBits;
      hide Deflater.Steady, Deflater.Shape, Deflater.InCall, Dictionary.Valid, Produces, Decodes, Deflater.CallResult,
           Deflater.Synced;
      hide Deflater.Valid, Deflater.Live;
      LiveMeans();
      var ok := CompressInput(flush);
      SourceLeft();
      if ok {
        HeldNone();
        EndCall();
      }
      LiveAgain();
    }

    lemma HeldNone()
      requires Valid() && InCall() && HeldOnlyIfFull()
      ensures callback ==> flushRemaining == 0 && dst == null
      ensures flushOfs + flushRemaining <= outBuf.Length
    {
      hide Growing, Complete, Writer.Valid, LzParser.Valid, ToBits, BytesBits;
    }

    /** The body of a call whose parameters are in order: all but the checks of tdefl_compress. */
    method Serve(flush: Flush)
      requires Live() && InCall() && prevStatus == Okay && srcPos == 0 && dstOfs == 0
      modifies Parts(), dst
      ensures src == old(src) && dst == old(dst) && before == old(before) && wantsToFinish == old(wantsToFinish)
      ensures Live() && srcPos <= |src| && win.stream == old(win.stream) + src[..srcPos]
      ensures prevStatus == Okay || prevStatus == Done || Failed()
      ensures prevStatus == Okay || prevStatus == Done ==> CallResult() && Progress(flush)
      ensures prevStatus == Okay || prevStatus == Done ==>
        (prevStatus == Done ==> finished) && (finished ==> old(finished) || (srcPos == |src| && flush == Finish))
      ensures old(flushRemaining) == 0 && prevStatus == Done ==> srcPos == |src| && flush == Finish
      ensures old(flushRemaining) == 0 && prevStatus == Okay && (dst == null || dstOfs < dst.Length) ==>
        && srcPos == |src| && flush != Finish
        && (flush != NoFlush ==> Produces(BytesBits(delivered), flags.zlib, win.stream))
        && (flush == FullFlush ==> Restarts())
      ensures flush != FullFlush ==> seg == old(seg) && win.mark == old(win.mark)
      ensures old(delivered) <= delivered
    {
      hide Table.Parts, Deflater.InCall, Produces, Decodes, Deflater.CallResult, Deflater.Live, BytesBits, Checksum,
           Deflater.Valid;
      LiveMeans();
      if flushRemaining > 0 || finished {
        ServeOwed(flush);
      } else {
        ServeInput(flush);
      }
    }

    lemma LiveMeans()
      requires Live() && prevStatus == Okay
      ensures Valid() && (flags.zlib || flags.adler ==> adler == Checksum(win.stream)) &&
          (finished ==> flushRemaining > 0)
    {
      hide Deflater.Valid, Checksum;
    }

    lemma LiveAgain()
      requires prevStatus == Okay || prevStatus == Done ==>
        && Valid() && (flags.zlib || flags.adler ==> adler == Checksum(win.stream))
        && (prevStatus == Okay ==> !finished || flushRemaining > 0)
      ensures Live()
    {
      hide Deflater.Valid, Checksum;
    }

    lemma NothingRead()
      requires InCall() && srcPos == 0
      ensures win.stream == win.stream + src[..srcPos]
    {
    }

    /** What a call that did not fail leaves. */
    ghost predicate CallResult()
      reads this, win, outBuf, dst
    {
      && (dst == null ==> dstOfs == 0 && delivered == sink && flushRemaining == 0)
      && (dst != null ==> dstOfs <= dst.Length && delivered == before + dst[..dstOfs])
      && (prevStatus == Done ==> Decodes(delivered, flags.zlib, win.stream) && DecodesSince())
    }

    /** What was handed over since the last full flush decodes alone to what was consumed since. */
    ghost predicate DecodesSince()
      reads `seg, `delivered, win
    {
      seg >= 0 ==>
        && seg / 8 <= |delivered| && win.mark <= |win.stream|
        && Decodes(delivered[seg / 8..], false, win.stream[win.mark..])
    }

    lemma CallEnds()
      requires Valid() && InCall() && prevStatus == if finished && flushRemaining == 0 then Done else Okay
      ensures CallResult()
      ensures !finished && flushRemaining == 0 && flushOfs <= outBuf.Length && Synced() ==>
        Produces(BytesBits(delivered), flags.zlib, win.stream)
    {
      hide Growing, Complete, ToBits, BytesBits, LzParser.Valid, Writer.Valid, Decodes, Produces;
      if prevStatus == Done {
        DoneMeans();
      }
      assert flushRemaining == 0 && flushOfs <= outBuf.Length ==> delivered + Pending() == delivered;
    }

    /** Notes the caller's buffers. */
    method NoteBuffers(input: Bytes, out: array?<byte>)
      requires out != null ==> out != outBuf && out != win.dict && out != tb.buf
      modifies this`src, this`srcPos, this`dst, this`dstOfs, this`before
      ensures src == input && srcPos == 0 && dst == out && dstOfs == 0 && before == delivered
      ensures (old(Live()) ==> Live()) && (callback == (out == null) ==> InCall())
    {
      hide Deflater.Live;
      assert out == null || delivered == delivered + out[..0];
      src, srcPos, dst, dstOfs, before := input, 0, out, 0, delivered;
    }

    lemma DeadLive()
      requires prevStatus == BadParam
      ensures Live()
    {
    }

    /** Notes the caller's buffers and checks that the call is in order. */
    method BeginCall(input: Bytes, out: array?<byte>, flush: Flush) returns (ok: bool)
      requires Live() && (out != null ==> out != outBuf && out != win.dict && out != tb.buf)
      modifies this`src, this`srcPos, this`dst, this`dstOfs, this`before, this`wantsToFinish, this`prevStatus
      ensures src == input && srcPos == 0 && dst == out && dstOfs == 0 && before == delivered && Live()
      ensures !ok <==> old(callback == (out != null) || prevStatus != Okay || (wantsToFinish && flush != Finish))
      ensures prevStatus == if ok then Okay else BadParam
      ensures ok ==> InCall() && wantsToFinish == (old(wantsToFinish) || flush == Finish)
      ensures win.stream == win.stream + input[..0]
    {
      hide Deflater.Live, Deflater.InCall;
      NoteBuffers(input, out);
      ok := !(callback == (out != null) || prevStatus != Okay || (wantsToFinish && flush != Finish));
      if ok {
        wantsToFinish := wantsToFinish || flush == Finish;
      } else {
        prevStatus := BadParam;
        DeadLive();
      }
    }

    /** tdefl_compress. */
    method Compress(input: Bytes, out: array?<byte>, flush: Flush) returns (st: Status, consumed: nat, produced: nat)
      requires Live() && (out != null ==> out != outBuf && out != win.dict && out != tb.buf)
      modifies Parts(), out
      ensures Live() && st == prevStatus
      ensures st == BadParam <==>
        old(callback == (out != null) || prevStatus != Okay || (wantsToFinish && flush != Finish))
      ensures st != BadParam ==> wantsToFinish == (old(wantsToFinish) || flush == Finish)
      ensures st == BadParam ==> consumed == produced == 0 && delivered == old(delivered)
      ensures consumed <= |input| && win.stream == old(win.stream) + input[..consumed]
      ensures st == Okay || st == Done ==>
        if out == null then produced == 0 && delivered == sink && flushRemaining == 0
        else produced <= out.Length && delivered == old(delivered) + out[..produced]
      ensures st == Done ==> finished && Decodes(delivered, flags.zlib, win.stream) && DecodesSince()
      ensures (st == Okay || st == Done) && finished && !old(finished) ==> consumed == |input| && flush == Finish
      ensures old(flushRemaining) == 0 && st == Done ==> consumed == |input| && flush == Finish
      ensures old(flushRemaining) == 0 && st == Okay && (out == null || produced < out.Length) ==>
        && consumed == |input| && flush != Finish
        && (flush != NoFlush ==> Produces(BytesBits(delivered), flags.zlib, win.stream))
        && (flush == FullFlush ==> Restarts())
      ensures flush != FullFlush ==> seg == old(seg) && win.mark == old(win.mark)
      ensures old(delivered) <= delivered
      ensures st == Okay && finished ==> flushRemaining > 0
      ensures st == Okay || st == Done ==>
          src == input && srcPos == consumed && dst == out && dstOfs == produced && Progress(flush)
      ensures st == PutBufFailed ==> Failed()
    {
      hide Growing, Complete, Checksum, Table.Parts, LzParser.Valid, Tokens.Valid, Writer.Valid, ToBits, BytesBits;
      hide Deflater.Steady, Deflater.Shape, Deflater.Valid, Deflater.InCall, Dictionary.Valid, Produces, Decodes;
      hide Deflater.Live, Deflater.DecodesSince, Deflater.Restarts;
      var ok := BeginCall(input, out, flush);
      if ok {
        Serve(flush);
      }
      st, consumed, produced := prevStatus, srcPos, dstOfs;
      if st == Okay {
        LiveMeans();
      }
    }
  }
}
