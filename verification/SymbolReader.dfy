/** Decoding one Huffman symbol without reading past what it needs (TINFL_HUFF_DECODE, TINFL_HUFF_BITBUF_FILL). */
module SymbolReader {
  import opened Arith
  import opened Bits
  import opened Canonical
  import opened Format
  import opened LaxFormat
  import opened PrefixTree
  import opened TreeWalk
  import opened LookupTable
  import opened BitReader

  /** A symbol that stands in the stream is one that the rest of the stream starts with. */
  lemma SymStarts(input: Bytes, p: nat, lens: Lens, sym: nat)
    requires p <= 8 * |input| && SymAt(BytesBits(input), p, lens, sym)
    ensures Starts(lens, sym, Span(input, p, 8 * |input|))
  {
    hide RevCode, BytesBits, Val;
    SpanSplit(input, p, p + lens[sym], 8 * |input|);
  }

  /** The bit buffer is the front of the rest of the stream. */
  lemma FrontOfRest(r: Reader)
    requires r.Valid()
    ensures r.bitBuf == Span(r.input, r.Here(), 8 * |r.input|) % Pow2(r.numBits)
  {
    hide Span;
    SpanSplit(r.input, r.Here(), 8 * r.pos, 8 * |r.input|);
  }

  /** What the buffer must hold before the final lookup. */
  ghost predicate Filled(t: Lookup, v: nat, n: nat, w: nat)
    reads t, t.look, t.tree
    requires t.Shape()
  {
    var (temp, len) := Walk(t.look[..], t.tree[..], v);
    n >= 15 || (0 < len <= n && Agrees(t.lens, w, temp, len))
  }

  /** Near the end of the input: loads one byte at a time, only while the code is undecided. */
  method Fill(r: Reader, t: Lookup) returns (ok: bool)
    requires r.Valid() && t.Ready() && r.numBits < 15
    modifies r
    ensures r.Valid() && r.Here() == old(r.Here()) && r.numBits <= 22
    ensures ok ==> Filled(t, r.bitBuf, r.numBits, Span(r.input, r.Here(), 8 * |r.input|))
    ensures !ok ==> r.pos == |r.input| && LaxSym(BytesBits(r.input), r.Here(), t.lens).Short?
  {
    hide Decodable, RevCode, Built, Rooted, Starts, Span, BytesBits, Walk, Agrees, TreeWalk.Ready, Stray, LaxSym;
    ghost var w := Span(r.input, r.Here(), 8 * |r.input|);
    ok := true;
    var more := true;
    while more
      invariant r.Valid() && r.Here() == old(r.Here()) && r.numBits <= 22 && (more ==> r.numBits < 15)
      invariant !more ==> Filled(t, r.bitBuf, r.numBits, w)
      decreases |r.input| - r.pos, more
    {
      FrontOfRest(r);
      var stop;
      ghost var temp, len;
      stop, temp, len := t.Enough(r.bitBuf, r.numBits, w);
      if stop {
        return;
      }
      NothingFits(r, t.lens, w);
      ok := r.PullByte();
      if !ok {
        return;
      }
      more := r.numBits < 15;
    }
  }

  /** With no input left and the code undecided, no symbol stands here and no walk has ended. */
  lemma NothingFits(r: Reader, lens: Lens, w: nat)
    requires r.Valid() && w == Span(r.input, r.Here(), 8 * |r.input|)
    requires forall s: nat :: Starts(lens, s, w) ==> lens[s] > r.numBits || r.numBits >= 15
    requires r.numBits >= 15 || Stray(lens, r.bitBuf) == 0 || Stray(lens, r.bitBuf) > r.numBits
    requires r.numBits < 15
    ensures r.pos == |r.input| ==> LaxSym(BytesBits(r.input), r.Here(), lens).Short?
  {
    hide Starts, RevCode, BytesBits, Val, Stray;
    var q := ReadSym(BytesBits(r.input), r.Here(), lens);
    if q.Got? {
      SymStarts(r.input, r.Here(), lens, q.val);
    }
    SpanRest(r.input, r.Here());
  }

  /** All the bits ahead. */
  lemma SpanRest(input: Bytes, p: nat)
    requires p <= 8 * |input|
    ensures |BytesBits(input)| == 8 * |input| && Span(input, p, 8 * |input|) == Val(BytesBits(input)[p..])
  {
    assert BytesBits(input)[p..8 * |input|] == BytesBits(input)[p..];
  }

  /** The next symbol. */
  method Decode(r: Reader, t: Lookup) returns (ok: bool, sym: nat)
    requires r.Valid() && t.Ready()
    modifies r
    ensures r.Valid() && r.numBits <= Max(old(r.numBits), 30) && old(r.Here()) <= r.Here()
    ensures ok ==> LaxSym(BytesBits(r.input), old(r.Here()), t.lens) == Read(sym, r.Here())
    ensures !ok ==> LaxSym(BytesBits(r.input), old(r.Here()), t.lens).Short? && r.pos == |r.input|
  {
    hide Decodable, RevCode, Built, Rooted, Starts, Span, BytesBits, Walk, Agrees, TreeWalk.Ready, LaxSym;
    ok, sym := true, 0;
    ghost var w := Span(r.input, r.Here(), 8 * |r.input|);
    if r.numBits < 15 {
      if |r.input| - r.pos < 2 {
        ok := Fill(r, t);
        if !ok {
          return;
        }
      } else {
        r.Pull(2);
      }
    }
    FrontOfRest(r);
    t.ForDecodable();
    var temp, len := t.Find(r.bitBuf);
    Decided(t, r.bitBuf, r.numBits, w, temp, len);
    AgreesSym(r, t.lens, temp, len);
    sym := temp % 512;
    r.Drop(len);
  }

  /** Enough bits at hand: what the buffer starts with is what the stream starts with. */
  lemma Decided(t: Lookup, v: nat, n: nat, w: nat, temp: int, len: nat)
    requires t.Shape() && Decodable(t.lens) && v == w % Pow2(n) && Filled(t, v, n, w)
    requires Agrees(t.lens, v, temp, len) && len <= 15 && (temp, len) == Walk(t.look[..], t.tree[..], v)
    ensures len <= n && Agrees(t.lens, w, temp, len) && (n >= 15 || len > 0)
  {
    hide RevCode, Walk, Stray;
    if n >= 15 {
      if Starts(t.lens, temp % 512, v) && temp >= 0 && len == t.lens[temp % 512] {
        SameStarts(t.lens, temp % 512, v, w, n);
      } else {
        SameStray(t.lens, v, w, n);
        forall s: nat
          ensures !Starts(t.lens, s, w)
        {
          if Starts(t.lens, s, w) {
            LenBound(t.lens, s, w);
            SameStarts(t.lens, s, v, w, n);
          }
        }
      }
    }
  }

  lemma LenBound(lens: Lens, s: nat, w: nat)
    requires Decodable(lens) && Starts(lens, s, w)
    ensures s < |lens| && lens[s] <= 15
  {
  }

  /** The code found is the one that stands in the stream; with none there, the bits are walked past. */
  lemma AgreesSym(r: Reader, lens: Lens, temp: int, len: nat)
    requires r.Valid() && Decodable(lens) && |lens| <= 512 && temp >= 0 && len <= r.numBits
    requires r.numBits >= 15 || len > 0
    requires Agrees(lens, Span(r.input, r.Here(), 8 * |r.input|), temp, len)
    ensures LaxSym(BytesBits(r.input), r.Here(), lens) == Read(temp % 512, r.Here() + len)
  {
    hide RevCode, BytesBits, Span, Val, Decodable, Stray, LaxSym;
    var w := Span(r.input, r.Here(), 8 * |r.input|);
    if Starts(lens, temp % 512, w) && len == lens[temp % 512] {
      FoundSym(r.input, r.Here(), lens, temp % 512);
    } else {
      NoneFound(r.input, r.Here(), lens, len);
    }
  }

  lemma FoundSym(input: Bytes, p: nat, lens: Lens, sym: nat)
    requires Decodable(lens) && p <= 8 * |input| && Starts(lens, sym, Span(input, p, 8 * |input|))
    requires p + lens[sym] <= 8 * |input|
    ensures LaxSym(BytesBits(input), p, lens) == Read(sym, p + lens[sym])
  {
    hide RevCode, BytesBits, Span, Val, Decodable, Stray;
    StartsSym(input, p, lens, sym);
    var q := ReadSym(BytesBits(input), p, lens);
    SymStarts(input, p, lens, q.val);
    OneEnds(lens, q.val, sym, Span(input, p, 8 * |input|));
  }

  lemma NoneFound(input: Bytes, p: nat, lens: Lens, len: nat)
    requires p + len <= 8 * |input| && (len > 0 || p + 15 <= 8 * |input|)
    requires NoneStarts(lens, Span(input, p, 8 * |input|)) && len == Stray(lens, Span(input, p, 8 * |input|))
    ensures LaxSym(BytesBits(input), p, lens) == Read(0, p + len)
  {
    hide RevCode, BytesBits, Span, Val, Stray;
    SpanRest(input, p);
    var q := ReadSym(BytesBits(input), p, lens);
    if q.Got? {
      SymStarts(input, p, lens, q.val);
    }
  }

  /** A code that the rest of the stream starts with, and that is all there, stands in it. */
  lemma StartsSym(input: Bytes, p: nat, lens: Lens, sym: nat)
    requires p <= 8 * |input| && Starts(lens, sym, Span(input, p, 8 * |input|)) && p + lens[sym] <= 8 * |input|
    ensures SymAt(BytesBits(input), p, lens, sym)
  {
    hide RevCode, BytesBits, Val;
    SpanSplit(input, p, p + lens[sym], 8 * |input|);
  }

  /** The unchecked fast path: with 15 bits at hand the table alone decides. */
  method FastSymbol(r: Reader, t: Lookup) returns (temp: int, len: nat)
    requires r.Valid() && t.Ready() && r.numBits >= 15
    modifies r
    ensures r.Valid() && len <= 15 && r.Here() == old(r.Here()) + len && r.numBits == old(r.numBits) - len &&
        r.pos == old(r.pos)
    ensures temp >= 0 && LaxSym(BytesBits(r.input), old(r.Here()), t.lens) == Read(temp % 512, r.Here())
  {
    hide Decodable, RevCode, Built, Rooted, Starts, Span, BytesBits, Walk, Agrees, TreeWalk.Ready, LaxSym;
    ghost var w := Span(r.input, r.Here(), 8 * |r.input|);
    FrontOfRest(r);
    t.ForDecodable();
    temp, len := t.Find(r.bitBuf);
    Decided(t, r.bitBuf, r.numBits, w, temp, len);
    AgreesSym(r, t.lens, temp, len);
    r.Drop(len);
  }
}
