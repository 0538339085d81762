/** tinfl_decompress in one call over a flat output buffer. */
module Decompressor {
  import opened Arith
  import opened Bits
  import opened Format
  import opened LaxFormat
  import opened Completeness
  import opened LaxWrapper
  import opened Wrapper
  import opened Adler
  import opened LookupTable
  import opened BitReader
  import opened StoredReader
  import opened TableReader
  import opened BodyReader

  /** A block's three header bits: its final bit and its kind. */
  lemma ReadThree(s: Bits, p: nat)
    requires p + 3 <= |s|
    ensures var b := ReadBits(s, p, 3);
            b.Got? && b.val >= 0 && ReadBits(s, p, 1) == Got(b.val % 2, p + 1) &&
                ReadBits(s, p + 1, 2) == Got(b.val / 2, p + 3)
  {
    hide Val;
    Pow2Table();
    var b := s[p..p + 3];
    ValSplit(b, 1);
    assert b[..1] == s[p..p + 1] && b[1..] == s[p + 1..p + 3];
  }

  /** What one block adds, with its final bit. */
  ghost predicate BlockTold(s: Bits, p: nat, was: Bytes, room: nat, st: Outcome, final: bool, out: Bytes, r: Reader)
    requires |was| <= room && r.numBits <= 8 * r.pos
    reads r
  {
    var f := LaxBits(s, p, 1);
    if f.Short? then Told(Short(was), st, out, r)
    else Told(LaxBlock(s, f.next, was, room), st, out, r) && (st == Running ==> final == (f.val == 1))
  }

  /** One block. */
  method Block(r: Reader, t: Tables, out: array<byte>, o: nat) returns (st: Outcome, final: bool, o': nat)
    requires r.Valid() && t.Shape() && o <= out.Length
    modifies r, out, t, t.clSizes, t.lenCodes, t.litSizes, t.distSizes, t.cl, t.cl.look, t.cl.tree
    modifies t.lit, t.lit.look, t.lit.tree, t.dist, t.dist.look, t.dist.tree
    ensures r.Valid() && o <= o' <= out.Length
    ensures st == Running ==> old(r.Here()) < r.Here()
    ensures BlockTold(BytesBits(r.input), old(r.Here()), old(out[..o]), out.Length, st, final, out[..o'], r)
  {
    hide BytesBits, Span, Val, LaxKind, Lookup.Ready, Lookup.Shape;
    AllBits(r.input);
    o', final := o, false;
    var ok, b := r.GetBits(3);
    if !ok {
      return Starved, false, o;
    }
    ReadThree(BytesBits(r.input), old(r.Here()));
    final := b % 2 == 1;
    Pow2Table();
    st, o' := BlockOf(r, t, out, o, b / 2);
  }

  /** The block after its header bits. */
  method BlockOf(r: Reader, t: Tables, out: array<byte>, o: nat, kind: nat) returns (st: Outcome, o': nat)
    requires r.Valid() && t.Shape() && o <= out.Length && kind <= 3
    modifies r, out, t, t.clSizes, t.lenCodes, t.litSizes, t.distSizes, t.cl, t.cl.look, t.cl.tree
    modifies t.lit, t.lit.look, t.lit.tree, t.dist, t.dist.look, t.dist.tree
    ensures r.Valid() && o <= o' <= out.Length && old(r.Here()) <= r.Here()
    ensures Told(LaxKind(BytesBits(r.input), old(r.Here()), kind, old(out[..o]), out.Length), st, out[..o'], r)
  {
    hide BytesBits, Span, Val, LaxStored, LaxBody, LaxTables, FixedLit, FixedDist, Lookup.Ready, Lookup.Shape;
    o' := o;
    if kind == 0 {
      st, o' := ReadStoredBlock(r, out, o);
    } else if kind == 3 {
      return Failed, o;
    } else {
      st := t.Prepare(r, kind);
      if st != Running {
        return;
      }
      st, o' := Body(r, t, out, o);
    }
  }

  /** Blocks up to the final one. */
  method Blocks(r: Reader, t: Tables, out: array<byte>) returns (st: Outcome, o: nat)
    requires r.Valid() && t.Shape()
    modifies r, out, t, t.clSizes, t.lenCodes, t.litSizes, t.distSizes, t.cl, t.cl.look, t.cl.tree
    modifies t.lit, t.lit.look, t.lit.tree, t.dist, t.dist.look, t.dist.tree
    ensures r.Valid() && o <= out.Length
    ensures Told(LaxInflate(BytesBits(r.input), old(r.Here()), [], out.Length), st, out[..o], r)
  {
    hide BytesBits, Span, Val, LaxBlock, LaxInflate, Lookup.Ready, Lookup.Shape, BlockTold;
    ghost var q := LaxInflate(BytesBits(r.input), r.Here(), [], out.Length);
    o, st := 0, Running;
    assert out[..0] == [];
    var final := false;
    while !final
      invariant r.Valid() && t.Shape() && o <= out.Length && st == Running
      invariant InflateLeads(q, r.input, r.Here(), out[..o], out.Length, final)
      decreases 8 * |r.input| - r.Here(), !final
    {
      ghost var p, was := r.Here(), out[..o];
      st, final, o := Block(r, t, out, o);
      InflateStep(q, out.Length, r, p, was, st, final, out[..o]);
      if st != Running {
        return;
      }
    }
  }

  /** The blocks still to come lead to q; after the final one q has been reached. */
  ghost predicate InflateLeads(q: Answer<Bytes>, input: Bytes, p: nat, out: Bytes, room: nat, final: bool)
    requires |out| <= room
  {
    if final then q == Read(out, p) else LaxInflate(BytesBits(input), p, out, room) == q
  }

  lemma InflateStep(q: Answer<Bytes>, room: nat, r: Reader, p: nat, was: Bytes, st: Outcome, final: bool, out: Bytes)
    requires |was| <= room && |out| <= room && r.Valid() && InflateLeads(q, r.input, p, was, room, false)
    requires BlockTold(BytesBits(r.input), p, was, room, st, final, out, r)
    ensures if st == Running then InflateLeads(q, r.input, r.Here(), out, room, final) else Told(q, st, out, r)
  {
    hide BytesBits, Val, LaxBlock, Span;
  }

  /** The header bytes of the wrapper; ok tells whether they are there and in order. */
  method ReadHeader(r: Reader) returns (st: Outcome)
    requires r.Valid() && r.pos == 0 && r.numBits == 0
    modifies r
    ensures r.Valid() && (st == Running || st == Starved || st == Failed)
    ensures st == Running <==> HeaderAt(BytesBits(r.input))
    ensures st == Running ==> r.Here() == 16
    ensures st == Starved <==> |r.input| < 2
    ensures st == Starved ==> r.pos == |r.input|
  {
    hide BytesBits, Span, Val;
    st := Starved;
    var ok, z0 := r.GetByte();
    if !ok {
      return;
    }
    var z1;
    ok, z1 := r.GetByte();
    if !ok {
      return;
    }
    st := if (z0 * 256 + z1) % 31 != 0 || z1 / 32 % 2 == 1 || z0 % 16 != 8 then Failed else Running;
  }

  /** Byte alignment; bytes loaded but not needed go back, and none are left in the buffer. */
  method AlignInput(r: Reader)
    requires r.Valid()
    modifies r
    ensures r.Valid() && r.Here() == Align(old(r.Here())) && r.Here() % 8 == 0 && r.numBits == 0
  {
    hide Span, Align;
    SkipToByte(r);
    r.PutBack();
  }

  /** The checksum stored after the blocks, most significant byte first. */
  method ReadCheck(r: Reader) returns (ok: bool, check: nat)
    requires r.Valid() && r.Here() % 8 == 0
    modifies r
    ensures r.Valid() && (ok ==> r.Here() == old(r.Here()) + 32)
    ensures ReadBig(BytesBits(r.input), old(r.Here())) == if ok then Got(check, r.Here()) else Fail
    ensures !ok ==> r.pos == |r.input|
  {
    hide BytesBits, Span, Val;
    AllBits(r.input);
    check := 1;
    var s0, s1, s2, s3;
    ok, s0 := AlignedByte(r);
    if !ok { return; }
    ok, s1 := AlignedByte(r);
    if !ok { return; }
    ok, s2 := AlignedByte(r);
    if !ok { return; }
    ok, s3 := AlignedByte(r);
    if !ok { return; }
    check := ((s0 * 256 + s1) * 256 + s2) * 256 + s3;
  }

  /** What is at the end of a stream whose blocks gave out. */
  ghost predicate Verdict(zlib: bool, out: Bytes, e: nat, st: Outcome, r: Reader)
    requires r.numBits <= 8 * r.pos
    reads r
  {
    if !zlib then st == Done && r.Here() == Align(e)
    else
      var c := ReadBig(BytesBits(r.input), Align(e));
      if c.Fail? then st == Starved && r.pos == |r.input|
      else st == (if c.val == Checksum(out) then Done else AdlerMismatch) && r.Here() == c.next
  }

  /** The output's checksum, when anyone asks for it, and the check. */
  method CheckOutput(out: array<byte>, o: nat, zlib: bool, computeAdler: bool, check: nat)
    returns (st: Outcome, adler: nat)
    requires o <= out.Length
    ensures st == if zlib && check != Checksum(out[..o]) then AdlerMismatch else Done
    ensures zlib || computeAdler ==> adler == Checksum(out[..o])
  {
    hide Checksum;
    st, adler := Done, 1;
    if zlib || computeAdler {
      EmptyChecksum();
      ContinueChecksum([], out[..o]);
      adler := Adler32(1, out[..o]);
      assert [] + out[..o] == out[..o];
      if zlib && adler != check {
        st := AdlerMismatch;
      }
    }
  }

  /** After the final block: alignment, the stored checksum, and the check. */
  method Conclude(r: Reader, out: array<byte>, o: nat, zlib: bool, computeAdler: bool) returns (st: Outcome, adler: nat)
    requires r.Valid() && o <= out.Length
    modifies r
    ensures r.Valid() && Verdict(zlib, out[..o], old(r.Here()), st, r)
    ensures st != Running && (st != Starved ==> r.Here() % 8 == 0)
    ensures st == Done && (zlib || computeAdler) ==> adler == Checksum(out[..o])
  {
    hide BytesBits, Span, Val, ReadBig, Checksum, Align;
    AlignInput(r);
    st, adler := Starved, 1;
    var check := 1;
    if zlib {
      var ok;
      ok, check := ReadCheck(r);
      if !ok {
        return;
      }
    }
    st, adler := CheckOutput(out, o, zlib, computeAdler, check);
  }

  lemma EmptyChecksum()
    ensures Checksum([]) == 1
  {
  }

  /** Everything after the wrapper's header. */
  method Stream(r: Reader, out: array<byte>, zlib: bool, computeAdler: bool) returns (st: Outcome, o: nat)
    requires r.Valid()
    modifies r, out
    ensures r.Valid() && o <= out.Length && st != Running
    ensures var q := LaxInflate(BytesBits(r.input), old(r.Here()), [], out.Length);
            if q.Read? then out[..o] == q.val && Verdict(zlib, q.val, q.next, st, r) else Told(q, st, out[..o], r)
    ensures st == Done || st == AdlerMismatch ==> r.Here() % 8 == 0
  {
    hide BytesBits, Span, Val, ReadBig, Checksum, LaxInflate, Tables.Shape, Verdict;
    var t := new Tables();
    st, o := Blocks(r, t, out);
    if st == Running {
      var adler;
      st, adler := Conclude(r, out, o, zlib, computeAdler);
    }
  }

  /** How the answer q shows after the call: the status, what is out, and the bytes consumed. */
  ghost predicate Ended(q: Answer<(Bytes, bool)>, st: Outcome, out: Bytes, input: Bytes, consumed: nat) {
    match q
    case Read((v, ok), e) => st == (if ok then Done else AdlerMismatch) && out == v && 8 * consumed == Align(e)
    case Short(f) => st == Starved && out == f && consumed == |input|
    case Bad(f) => st == Failed && out == f
    case Full(f) => st == HasMoreOutput && out == f
    case Stuck => st == Failed || st == HasMoreOutput
  }

  /** What the call says of a stream that unwraps to q and has n bits of it at hand. */
  ghost predicate Answers(q: Parsed<Bytes>, n: nat, room: nat, st: Outcome, out: Bytes, consumed: nat) {
    q.Got? ==>
      if |q.val| <= room then
        if q.next <= n then st == Done && out == q.val && 8 * consumed == Align(q.next)
        else st == Starved && out <= q.val
      else
        || (st == HasMoreOutput && out == q.val[..room])
        || (st == Starved && out <= q.val && q.next > n)
  }

  /** The answer for the front of a stream, as the status shows it. */
  lemma EndedAnswers(input: Bytes, whole: Bytes, zlib: bool, room: nat, st: Outcome, out: Bytes, consumed: nat)
    requires input <= whole && Ended(LaxUnwrap(BytesBits(input), zlib, room), st, out, input, consumed)
    ensures Answers(Unwrap(BytesBits(whole), zlib), 8 * |input|, room, st, out, consumed)
  {
    hide BytesBits, Unwrap, LaxUnwrap;
    AllBits(input);
    FrontBits(input, whole);
    UnwrapFollows(BytesBits(whole), BytesBits(input), zlib, room);
  }

  /** What Done says of an input whose codes are complete: it is a whole stream of the format, and this its contents,
      unless a reserved symbol occurs in it. */
  lemma DoneExactly(input: Bytes, zlib: bool, room: nat, out: Bytes, consumed: nat)
    requires Ended(LaxUnwrap(BytesBits(input), zlib, room), Done, out, input, consumed)
    requires CompleteStream(BytesBits(input), Start(zlib), [], room)
    ensures var q := Unwrap(BytesBits(input), zlib);
            if PlainStream(BytesBits(input), Start(zlib), [], room) then
              q.Got? && q.val == out && 8 * consumed == Align(q.next)
            else q.Fail?
  {
    hide BytesBits, Unwrap, LaxUnwrap, CompleteStream, PlainStream, Align;
    UnwrapExactly(BytesBits(input), zlib, room);
  }

  /** tinfl_decompress: all input in one call, a flat output buffer. */
  method Decompress(input: Bytes, out: array<byte>, zlib: bool, computeAdler: bool)
    returns (st: Outcome, consumed: nat, produced: nat)
    modifies out
    ensures consumed <= |input| && produced <= out.Length && st != Running
    ensures Ended(LaxUnwrap(BytesBits(input), zlib, out.Length), st, out[..produced], input, consumed)
    ensures forall whole: Bytes :: input <= whole ==>
              Answers(Unwrap(BytesBits(whole), zlib), 8 * |input|, out.Length, st, out[..produced], consumed)
  {
    hide BytesBits, Span, Val, ReadBig, Checksum, LaxInflate, HeaderAt, Tables.Shape, Unwrap, Align;
    AllBits(input);
    var r := new Reader(input);
    st, consumed, produced := Running, 0, 0;
    if zlib {
      st := ReadHeader(r);
    }
    if st == Running {
      st, produced := Stream(r, out, zlib, computeAdler);
    }
    if st != Starved {
      r.PutBack();
    }
    consumed := r.pos;
    forall whole: Bytes | input <= whole
      ensures Answers(Unwrap(BytesBits(whole), zlib), 8 * |input|, out.Length, st, out[..produced], consumed)
    {
      EndedAnswers(input, whole, zlib, out.Length, st, out[..produced], consumed);
    }
  }
}
