/** The decompressor's stored blocks: header bytes and data from the bit buffer while it lasts, then straight from the
    input. */
module StoredReader {
  import opened Arith
  import opened Bits
  import opened Format
  import opened LaxFormat
  import opened Truncation
  import opened BitReader

  /** How a part of the decompression ended: Running means it completed and decoding goes on. */
  datatype Outcome = Running | Done | Failed | Starved | HasMoreOutput | AdlerMismatch

  /** How the answer q shows: the status, what is out, and where the reader has got to. */
  ghost predicate Told(q: Answer<Bytes>, st: Outcome, out: Bytes, r: Reader)
    requires r.numBits <= 8 * r.pos
    reads r
  {
    match q
    case Read(v, e) => st == Running && out == v && r.Here() == e
    case Short(f) => st == Starved && out == f && r.pos == |r.input|
    case Bad(f) => st == Failed && out == f
    case Full(f) => st == HasMoreOutput && out == f
    case Stuck => st == Failed || st == HasMoreOutput
  }

  /** The next byte at a byte boundary, from wherever it is. */
  method AlignedByte(r: Reader) returns (ok: bool, c: nat)
    requires r.Valid() && r.Here() % 8 == 0
    modifies r
    ensures r.Valid() && (ok ==> r.Here() == old(r.Here()) + 8 && r.Here() % 8 == 0)
    ensures (ok <==> old(r.Here()) + 8 <= 8 * |r.input|) && old(r.Here()) <= r.Here() && (!ok ==> r.pos == |r.input|)
    ensures ok ==> ReadBits(BytesBits(r.input), old(r.Here()), 8) == Got(c, r.Here()) && c < 256
  {
    hide Span, BytesBits, Val;
    Pow2Table();
    if r.numBits > 0 {
      ok, c := r.GetBits(8);
    } else {
      ok, c := r.GetByte();
    }
  }

  lemma ReadTwo(s: Bits, p: nat)
    requires p + 16 <= |s|
    ensures ReadBits(s, p, 16) == Got(Val(s[p..p + 8]) + 256 * Val(s[p + 8..p + 16]), p + 16)
  {
    hide Val;
    Pow2Table();
    assert s[p..p + 16] == s[p..p + 8] + s[p + 8..p + 16];
    ValConcat(s[p..p + 8], s[p + 8..p + 16]);
  }

  /** Two bytes, low first. */
  method AlignedWord(r: Reader) returns (ok: bool, v: nat)
    requires r.Valid() && r.Here() % 8 == 0
    modifies r
    ensures r.Valid() && (ok ==> r.Here() == old(r.Here()) + 16 && r.Here() % 8 == 0)
    ensures (ok <==> old(r.Here()) + 16 <= 8 * |r.input|) && old(r.Here()) <= r.Here() && (!ok ==> r.pos == |r.input|)
    ensures ok ==> ReadBits(BytesBits(r.input), old(r.Here()), 16) == Got(v, r.Here()) && v < 65536
  {
    hide Span, BytesBits, Val;
    v := 0;
    ghost var p := r.Here();
    var lo, hi;
    ok, lo := AlignedByte(r);
    if ok {
      ok, hi := AlignedByte(r);
      if ok {
        ReadTwo(BytesBits(r.input), p);
        v := lo + hi * 256;
      }
    }
  }

  /** The input's own bytes are what the format reads at a byte boundary. */
  lemma {:induction false} ReadBytesInput(input: Bytes, k: nat, n: nat)
    requires k + n <= |input|
    ensures ReadBytes(BytesBits(input), 8 * k, n) == input[k..k + n]
    decreases n
  {
    hide BytesBits, Val;
    if n > 0 {
      ReadBytesInput(input, k, n - 1);
      ByteVal(input, k + n - 1);
      assert 8 * k + 8 * (n - 1) == 8 * (k + n - 1);
      assert input[k..k + n] == input[k..k + (n - 1)] + [input[k + n - 1]];
    }
  }

  lemma ByteVal(input: Bytes, i: nat)
    requires i < |input|
    ensures Val(BytesBits(input)[8 * i..8 * i + 8]) == input[i]
  {
    hide BytesBits, Val, ToBits;
    BytesBitsAt(input, i);
    ValToBits(input[i], 8);
    Pow2Table();
  }

  lemma ReadOneByte(s: Bits, p: nat, i: nat, c: nat)
    requires p + 8 * i + 8 <= |s| && ReadBits(s, p + 8 * i, 8) == Got(c, p + 8 * i + 8) && c < 256
    ensures ReadBytes(s, p, i + 1) == ReadBytes(s, p, i) + [c]
  {
  }

  /** A run of bytes from the input to the output. */
  method TakeBytes(r: Reader, out: array<byte>, o: nat, n: nat)
    requires r.Valid() && r.numBits == 0 && r.pos + n <= |r.input| && o + n <= out.Length
    modifies r, out
    ensures r.Valid() && r.numBits == 0 && r.pos == old(r.pos) + n
    ensures out[..o + n] == old(out[..o]) + r.input[old(r.pos)..r.pos]
  {
    for i := 0 to n
      invariant r.Valid() && r.numBits == 0 && r.pos == old(r.pos)
      invariant out[..o + i] == old(out[..o]) + r.input[r.pos..r.pos + i]
    {
      out[o + i] := r.input[r.pos + i];
    }
    r.pos := r.pos + n;
    SpanNone(r.input, 8 * r.pos);
    SpanNone(r.input, 8 * old(r.pos));
  }

  /** The first i bytes of the data at p are out. */
  ghost predicate Copied(r: Reader, out: array<byte>, o: nat, was: Bytes, p: nat, i: nat)
    reads r, out
  {
    && r.Valid() && p % 8 == 0 && r.Here() == p + 8 * i && |was| == o && o + i <= out.Length
    && out[..o + i] == was + ReadBytes(BytesBits(r.input), p, i)
  }

  lemma CopiedFront(r: Reader, out: array<byte>, o: nat, was: Bytes, p: nat, i: nat)
    requires Copied(r, out, o, was, p, i)
    ensures out[..o] == was
  {
    hide BytesBits, ReadBytes, Span;
    assert out[..o] == out[..o + i][..o];
  }

  /** When the data, the room or the input is used up, what is out is the answer. */
  lemma CopiedAnswer(r: Reader, out: array<byte>, o: nat, was: Bytes, p: nat, i: nat, count: nat)
    requires Copied(r, out, o, was, p, i) && i <= count
    ensures var q, done := LaxData(BytesBits(r.input), p, count, was, out.Length), out[..o + i];
            && (i == count ==> q == Read(done, r.Here()))
            && (i < count && o + i == out.Length ==> q == Full(done))
            && (i < count && o + i < out.Length && r.Here() == 8 * |r.input| ==> q == Short(done))
  {
    hide BytesBits, ReadBytes, Span;
    AllBits(r.input);
  }

  lemma AllBits(input: Bytes)
    ensures |BytesBits(input)| == 8 * |input|
  {
  }

  /** One byte of the data from the bit buffer. */
  method BufferedByte(r: Reader, out: array<byte>, o: nat, ghost was: Bytes, ghost p: nat, ghost i: nat, at: nat)
    requires Copied(r, out, o, was, p, i) && r.numBits > 0 && at == o + i < out.Length
    modifies r, out
    ensures Copied(r, out, o, was, p, i + 1)
  {
    hide Span, BytesBits, Val, ReadBytes, ReadBits;
    Pow2Table();
    assert r.numBits % 8 == 0 && r.numBits >= 8;
    var ok, b := r.GetBits(8);
    ReadOneByte(BytesBits(r.input), p, i, b);
    out[at] := b;
    assert out[..at] == old(out[..at]);
    assert out[..at + 1] == was + (ReadBytes(BytesBits(r.input), p, i) + [b as byte]);
  }

  /** A run of the data from the input. */
  method InputBytes(r: Reader, out: array<byte>, o: nat, ghost was: Bytes, ghost p: nat, ghost i: nat, at: nat, n: nat)
    requires Copied(r, out, o, was, p, i) && r.numBits == 0 && at == o + i && at + n <= out.Length && r.pos +
        n <= |r.input|
    modifies r, out
    ensures Copied(r, out, o, was, p, i + n) && r.numBits == 0
  {
    hide Span, BytesBits, Val, ReadBytes, ReadBits;
    ReadBytesInput(r.input, r.pos, n);
    ReadBytesConcat(BytesBits(r.input), p, i, n);
    TakeBytes(r, out, at, n);
  }

  /** The data that waits in the bit buffer. */
  method FromBuffer(r: Reader, out: array<byte>, o: nat, count: nat) returns (o': nat, counter: nat)
    requires r.Valid() && r.Here() % 8 == 0 && o <= out.Length
    modifies r, out
    ensures counter <= count && o' == o + (count - counter) && o' <= out.Length
    ensures Copied(r, out, o, old(out[..o]), old(r.Here()), count - counter)
    ensures counter > 0 ==> r.numBits == 0 || o' == out.Length
  {
    hide Span, BytesBits, Val, ReadBytes, ReadBits;
    ghost var p, was := r.Here(), out[..o];
    o', counter := o, count;
    NoBytes(BytesBits(r.input), p);
    while counter > 0 && r.numBits > 0
      invariant counter <= count && o' == o + (count - counter) && Copied(r, out, o, was, p, count - counter)
    {
      CopiedFront(r, out, o, was, p, count - counter);
      if o' >= out.Length {
        return;
      }
      BufferedByte(r, out, o, was, p, count - counter, o');
      o', counter := o' + 1, counter - 1;
    }
    CopiedFront(r, out, o, was, p, count - counter);
  }

  /** The data of a stored block, count bytes from position p on. */
  method StoredData(r: Reader, out: array<byte>, o: nat, count: nat) returns (st: Outcome, o': nat)
    requires r.Valid() && r.Here() % 8 == 0 && o <= out.Length
    modifies r, out
    ensures r.Valid() && o <= o' <= out.Length && out[..o] == old(out[..o]) && old(r.Here()) <= r.Here()
    ensures Told(LaxData(BytesBits(r.input), old(r.Here()), count, old(out[..o]), out.Length), st, out[..o'], r)
  {
    hide Span, BytesBits, Val, ReadBytes, ReadBits, LaxData;
    ghost var p, was := r.Here(), out[..o];
    var counter: nat;
    o', counter := FromBuffer(r, out, o, count);
    st := Running;
    while counter > 0
      invariant counter <= count && o' == o + (count - counter) && o' <= out.Length
      invariant Copied(r, out, o, was, p, count - counter) && st == Running
      invariant counter > 0 ==> r.numBits == 0 || o' == out.Length
    {
      CopiedFront(r, out, o, was, p, count - counter);
      CopiedAnswer(r, out, o, was, p, count - counter, count);
      if o' >= out.Length {
        return HasMoreOutput, o';
      }
      if r.pos >= |r.input| {
        return Starved, o';
      }
      var n: nat := Min(Min(out.Length - o', |r.input| - r.pos), counter);
      InputBytes(r, out, o, was, p, count - counter, o', n);
      o', counter := o' + n, counter - n;
    }
    CopiedFront(r, out, o, was, p, count - counter);
    CopiedAnswer(r, out, o, was, p, count - counter, count);
  }

  lemma NoBytes(s: Bits, p: nat)
    requires p <= |s|
    ensures ReadBytes(s, p, 0) == []
  {
  }

  /** Dropping the odd bits reaches the byte boundary. */
  lemma AlignBits(pos: nat, numBits: nat)
    requires numBits <= 8 * pos
    ensures 8 * pos - numBits + numBits % 8 == Align(8 * pos - numBits)
  {
  }

  /** Drops the bits before the next byte boundary. */
  method SkipToByte(r: Reader)
    requires r.Valid()
    modifies r
    ensures r.Valid() && r.Here() == Align(old(r.Here())) && r.Here() % 8 == 0 && r.numBits % 8 == 0
  {
    hide Span, Align;
    AlignBits(r.pos, r.numBits);
    r.Drop(r.numBits % 8);
  }

  /** What the header of the stored block at p says. */
  ghost predicate StoredHead(s: Bits, p: nat, st: Outcome, count: nat, r: Reader)
    requires r.numBits <= 8 * r.pos
    reads r
  {
    var n := LaxBits(s, Align(p), 16);
    if n.Short? then st == Starved && r.pos == |r.input|
    else
      var m := LaxBits(s, n.next, 16);
      if m.Short? then st == Starved && r.pos == |r.input|
      else if n.val + m.val != 65535 then st == Failed
      else st == Running && count == n.val && r.Here() == m.next
  }

  /** Alignment, the length and its complement. */
  method StoredHeader(r: Reader) returns (st: Outcome, count: nat)
    requires r.Valid()
    modifies r
    ensures r.Valid() && old(r.Here()) <= r.Here() && (st == Running ==> r.Here() % 8 == 0)
    ensures StoredHead(BytesBits(r.input), old(r.Here()), st, count, r)
  {
    hide Span, BytesBits, Val, Align;
    AllBits(r.input);
    SkipToByte(r);
    var ok, check;
    ok, count := AlignedWord(r);
    if !ok {
      return Starved, 0;
    }
    ok, check := AlignedWord(r);
    if !ok {
      return Starved, 0;
    }
    st := if count != 65535 - check then Failed else Running;
  }

  /** A whole stored block. */
  method ReadStoredBlock(r: Reader, out: array<byte>, o: nat) returns (st: Outcome, o': nat)
    requires r.Valid() && o <= out.Length
    modifies r, out
    ensures r.Valid() && o <= o' <= out.Length && out[..o] == old(out[..o]) && old(r.Here()) <= r.Here()
    ensures Told(LaxStored(BytesBits(r.input), old(r.Here()), old(out[..o]), out.Length), st, out[..o'], r)
  {
    hide Span, BytesBits, Val, ReadBytes, LaxBits, Align, LaxData;
    o' := o;
    var count;
    st, count := StoredHeader(r);
    if st == Running {
      st, o' := StoredData(r, out, o, count);
    }
  }
}
