/** Stored blocks (section 3.2.4 of RFC 1951), as the compressor's raw fallback writes them. */
module StoredBlock {
  import opened Arith
  import opened Bits
  import opened Format
  import opened Encoding
  import opened BitWriter
  import opened Window

  /** Zero bits up to the next byte boundary. */
  function Pad(r: nat): (b: Bits)
    ensures |b| == if r % 8 == 0 then 0 else 8 - r % 8
  {
    if r % 8 == 0 then [] else ToBits(0, 8 - r % 8)
  }

  /** A stored block that begins r bits into a byte. */
  function EncStored(r: nat, data: Bytes): Bits
    requires |data| < 65536
  {
    ToBits(0, 2) + (Pad(r + 2) + (ToBits(|data|, 16) + (ToBits(65535 - |data|, 16) + BytesBits(data))))
  }

  lemma {:induction false} ReadBytesBack(s: Bits, p: nat, data: Bytes, n: nat)
    requires n <= |data| && At(s, p, BytesBits(data))
    ensures p + 8 * n <= |s| && ReadBytes(s, p, n) == data[..n]
    decreases n
  {
    hide At, Fields, ToBits;
    if n > 0 {
      ReadBytesBack(s, p, data, n - 1);
      BytesBitsAt(data, n - 1);
      AtSlice(s, p, BytesBits(data), 8 * (n - 1), 8 * n);
      ValToBits(data[n - 1], 8);
      Pow2Table();
      assert data[..n] == data[..n - 1] + [data[n - 1]];
    } else {
      assert At(s, p, BytesBits(data)) ==> p <= |s| by { AtSlice(s, p, BytesBits(data), 0, 0); }
    }
  }

  lemma ReadStoredBack(s: Bits, p: nat, out: Bytes, r: nat, data: Bytes)
    requires |data| < 65536 && p % 8 == r % 8 && At(s, p, EncStored(r, data))
    ensures ReadBlock(s, p, out) == Got(out + data, p + |EncStored(r, data)|)
  {
    hide At, ToBits, BytesBits, ReadBytes;
    Pow2Table();
    var e4 := ToBits(65535 - |data|, 16) + BytesBits(data);
    var e3 := ToBits(|data|, 16) + e4;
    var e2 := Pad(r + 2) + e3;
    AtConcat(s, p, ToBits(0, 2), e2);
    AtConcat(s, p + 2, Pad(r + 2), e3);
    var q := p + 2 + |Pad(r + 2)|;
    AtConcat(s, q, ToBits(|data|, 16), e4);
    AtConcat(s, q + 16, ToBits(65535 - |data|, 16), BytesBits(data));
    ReadBitsBack(s, p, 0, 2);
    assert q == Align(p + 2);
    ReadBitsBack(s, q, |data|, 16);
    ReadBitsBack(s, q + 16, 65535 - |data|, 16);
    ReadBytesBack(s, q + 32, data, |data|);
    assert data[..|data|] == data;
  }

  /** Pads to a byte boundary if bits are waiting. */
  method PutPad(w: Writer)
    requires w.Valid()
    modifies w, w.buf
    ensures w.Valid() && w.Advanced() && w.bitsIn == 0
    ensures w.emitted == old(w.emitted) + Pad(|old(w.emitted)|)
  {
    hide Holds, ToBits;
    w.NothingDropped();
    if w.bitsIn > 0 {
      var n := 8 - w.bitsIn;
      w.PutBits(0, n);
    }
    w.NothingDropped();
  }

  /** The raw fallback: replays the block's bytes from the ring. */
  method PutStored(w: Writer, win: Dictionary, dictPos: nat, total: nat, ghost from: nat)
    requires w.Valid() && win.Valid() && w.buf != win.dict
    requires dictPos % DICT_SIZE == from % DICT_SIZE && from + total <= |win.stream| && |win.stream| - DICT_SIZE <= from
    requires total < 65536
    modifies w, w.buf
    ensures w.Valid() && w.Advanced()
    ensures w.emitted == old(w.emitted) + EncStored(|old(w.emitted)|, win.stream[from..from + total])
  {
    hide Holds, ToBits, HoldsWindow, Linked, Fields;
    Pow2Table();
    ghost var e, r := w.emitted, |w.emitted|;
    w.PutBits(0, 2);
    PutPad(w);
    w.PutBits(total, 16);
    w.PutBits(65535 - total, 16);
    ghost var h := w.emitted;
    assert BytesBits(win.stream[from..from]) == [];
    for i: nat := 0 to total
      invariant w.Valid() && w.Advanced() && win.Valid() && win.stream == old(win.stream)
      invariant w.emitted == h + BytesBits(win.stream[from..from + i])
    {
      RingByte(win.dict[..], win.stream, dictPos, from, i);
      ghost var c := win.stream[from + i];
      w.PutBits(win.dict[(dictPos + i) % DICT_SIZE], 8);
      BytesBitsAppend(win.stream[from..from + i], c);
      assert win.stream[from..from + i + 1] == win.stream[from..from + i] + [c];
      ConcatAssoc(h, BytesBits(win.stream[from..from + i]), ToBits(c, 8));
    }
    ConcatStored(e, ToBits(0, 2), Pad(r + 2), ToBits(total, 16), ToBits(65535 - total, 16),
                 BytesBits(win.stream[from..from + total]));
  }

  lemma RingByte(dict: seq<byte>, stream: Bytes, dictPos: nat, from: nat, i: nat)
    requires |dict| == DICT_SIZE + MAX_MATCH - 1 && HoldsWindow(dict, stream)
    requires dictPos % DICT_SIZE == from % DICT_SIZE && |stream| - DICT_SIZE <= from && from + i < |stream|
    ensures dict[(dictPos + i) % DICT_SIZE] == stream[from + i]
  {
    assert (dictPos + i) % DICT_SIZE == (from + i) % DICT_SIZE;
    assert InRing(dict, stream, from + i);
  }

  lemma ConcatStored(e: Bits, a: Bits, b: Bits, c: Bits, d: Bits, f: Bits)
    ensures e + a + b + c + d + f == e + (a + (b + (c + (d + f))))
  {
  }
}
