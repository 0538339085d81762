/** Inflate undoes deflate: the compressor's output, however it was fed and drained, decompresses to its input. */
module RoundTrip {
  import opened Arith
  import opened Bits
  import opened Format
  import opened Wrapper
  import opened LaxWrapper
  import opened Parser
  import opened Compressor
  import opened StoredReader
  import opened Decompressor

  function Concat(chunks: seq<Bytes>): Bytes {
    if chunks == [] then [] else Concat(chunks[..|chunks| - 1]) + chunks[|chunks| - 1]
  }

  /** One finished stream, decompressed in one call with room for all of it. */
  method Expand(compressed: Bytes, zlib: bool, ghost original: Bytes, out: array<byte>) returns (st: Outcome, n: nat)
    requires Decodes(compressed, zlib, original) && |original| <= out.Length
    modifies out
    ensures st == Outcome.Done && n == |original| && out[..n] == original
  {
    hide Unwrap, LaxUnwrap, Ended, Answers, BytesBits;
    var consumed;
    st, consumed, n := Decompress(compressed, out, zlib, false);
    DecodesAnswers(compressed, zlib, original, out.Length, st, out[..n], consumed);
  }

  lemma DecodesAnswers(compressed: Bytes, zlib: bool, original: Bytes, room: nat, st: Outcome, out: Bytes,
      consumed: nat)
    requires Decodes(compressed, zlib, original) && |original| <= room
    requires Answers(Unwrap(BytesBits(compressed), zlib), 8 * |compressed|, room, st, out, consumed)
    ensures st == Outcome.Done && out == original
  {
    hide Inflate, HeaderAt, Val, BytesBits;
    AllBits(compressed);
  }

  /** The front of a finished stream, cut before its end, is never taken for all of it. */
  method ExpandCut(compressed: Bytes, cut: nat, zlib: bool, ghost original: Bytes, out: array<byte>)
    returns (st: Outcome, n: nat)
    requires Decodes(compressed, zlib, original) && |original| <= out.Length && cut <= |compressed|
    requires Unwrap(BytesBits(compressed), zlib).next > 8 * cut
    modifies out
    ensures st == Outcome.Starved && n <= |original| && out[..n] == original[..n]
  {
    hide Unwrap, LaxUnwrap, Ended, BytesBits;
    var consumed;
    st, consumed, n := Decompress(compressed[..cut], out, zlib, false);
    assert compressed[..cut] <= compressed;
  }

  /** Compression through a callback, the input in any chunks with any flushes between them. */
  method CompressChunks(f: Flags, chunks: seq<Bytes>, flushes: seq<Flush>) returns (compressed: Bytes)
    requires |flushes| == |chunks| && Flush.Finish !in flushes
    ensures Decodes(compressed, f.zlib, Concat(chunks))
  {
    hide Deflater.Live, Deflater.Parts, Decodes, Produces;
    var d := Deflater.Init(f, true, -1);
    for i := 0 to |chunks|
      invariant d.Live() && fresh(d.Parts()) && d.flags == f && d.callback && d.sinkLimit < 0
      invariant d.prevStatus == Okay && !d.wantsToFinish && d.flushRemaining == 0
      invariant d.win.stream == Concat(chunks[..i])
    {
      assert chunks[..i + 1][..i] == chunks[..i];
      var st, consumed, produced := d.Compress(chunks[i], null, flushes[i]);
    }
    assert chunks[..|chunks|] == chunks;
    var st, consumed, produced := d.Compress([], null, Flush.Finish);
    assert d.win.stream == Concat(chunks);
    compressed := d.sink;
  }

  /** How much input a call offers, how much room it gives for output, and the flush it asks for. */
  datatype Call = Call(offer: nat, room: nat, flush: Flush)

  /** A call that can get something done, and leaves finishing to the end of the input. */
  predicate Active(c: Call) {
    c.offer > 0 && c.room > 0 && c.flush != Flush.Finish
  }

  /** Compression into the caller's buffers: any calls, one after another, that offer some input and give some room. The
      call whose offer reaches the end of the input asks for the finish,
          and so do those after it until all output is out. */
  method CompressCalls(f: Flags, input: Bytes, calls: nat -> Call) returns (compressed: Bytes)
    requires forall i :: Active(calls(i))
    ensures Decodes(compressed, f.zlib, input)
  {
    hide Deflater.Live, Deflater.Parts, Decodes, Produces;
    var d := Deflater.Init(f, false, -1);
    var pos: nat, i: nat := 0, 0;
    compressed := [];
    while true
      invariant d.Live() && fresh(d.Parts()) && d.flags == f && !d.callback && d.prevStatus == Okay
      invariant pos <= |input| && d.win.stream == input[..pos] && compressed == d.delivered
      invariant d.finished ==> pos == |input| && d.flushRemaining > 0
      decreases !d.finished, |input| - pos + d.win.lookaheadSize, |input| - pos, d.flushRemaining
    {
      var n: nat := if d.wantsToFinish then |input| - pos else Min(calls(i).offer, |input| - pos);
      var flush := if pos + n == |input| then Flush.Finish else calls(i).flush;
      var buf := new byte[calls(i).room];
      var st, consumed, produced := d.Compress(input[pos..pos + n], buf, flush);
      compressed := compressed + buf[..produced];
      assert input[..pos] + input[pos..pos + n][..consumed] == input[..pos + consumed];
      pos, i := pos + consumed, i + 1;
      if st == Status.Done {
        assert input[..pos] == input;
        return;
      }
    }
  }

  /** Inflate undoes deflate through a callback. */
  method RoundTripChunks(f: Flags, chunks: seq<Bytes>, flushes: seq<Flush>, out: array<byte>) returns (n: nat)
    requires |flushes| == |chunks| && Flush.Finish !in flushes && |Concat(chunks)| <= out.Length
    modifies out
    ensures n == |Concat(chunks)| && out[..n] == Concat(chunks)
  {
    hide Decodes;
    var compressed := CompressChunks(f, chunks, flushes);
    var st;
    st, n := Expand(compressed, f.zlib, Concat(chunks), out);
  }

  /** Inflate undoes deflate through buffers. */
  method RoundTripCalls(f: Flags, input: Bytes, calls: nat -> Call, out: array<byte>) returns (n: nat)
    requires |input| <= out.Length && forall i :: Active(calls(i))
    modifies out
    ensures n == |input| && out[..n] == input
  {
    hide Decodes;
    var compressed := CompressCalls(f, input, calls);
    var st;
    st, n := Expand(compressed, f.zlib, input, out);
  }

  /** A full flush in the middle: what comes after it can be decoded without what came before. */
  method CompressRestart(f: Flags, before: Bytes, after: Bytes) returns (front: Bytes, back: Bytes)
    ensures Decodes(front + back, f.zlib, before + after) && Decodes(back, false, after)
  {
    hide Deflater.Live, Deflater.Parts, Decodes, Produces;
    var d := Deflater.Init(f, true, -1);
    var st, consumed, produced := d.Compress(before, null, FullFlush);
    assert before[..consumed] == before && d.win.stream == before;
    front := d.sink;
    st, consumed, produced := d.Compress(after, null, Flush.Finish);
    assert after[..consumed] == after && d.win.stream == before + after;
    assert d.win.stream[d.win.mark..] == after;
    back := d.sink[|front|..];
    assert front + back == d.sink;
  }

  /** So an inflater that starts at the flush gives back what came after it. */
  method RoundTripRestart(f: Flags, before: Bytes, after: Bytes, out: array<byte>) returns (n: nat)
    requires |after| <= out.Length
    modifies out
    ensures n == |after| && out[..n] == after
  {
    hide Decodes;
    var front, back := CompressRestart(f, before, after);
    var st;
    st, n := Expand(back, false, after, out);
  }
}
