/** Whole streams: a run of blocks, bare or in the zlib wrapper of RFC 1950, and how an encoder grows one. */
module Wrapper {
  import opened Arith
  import opened Bits
  import opened Format
  import opened Encoding
  import opened StoredBlock
  import opened Adler

  /** Compression method 8, no preset dictionary, check bits a multiple of 31 (section 2.2 of RFC 1950). */
  predicate HeaderOk(cmf: nat, flg: nat) {
    (cmf * 256 + flg) % 31 == 0 && flg / 32 % 2 == 0 && cmf % 16 == 8
  }

  /** Four bytes, most significant first. */
  function ReadBig(s: Bits, p: nat): Parsed<nat> {
    var (a, p1) :- ReadBits(s, p, 8);
    var (b, p2) :- ReadBits(s, p1, 8);
    var (c, p3) :- ReadBits(s, p2, 8);
    var (d, p4) :- ReadBits(s, p3, 8);
    Got(((a * 256 + b) * 256 + c) * 256 + d, p4)
  }

  /** Where the blocks begin. */
  function Start(zlib: bool): nat {
    if zlib then 16 else 0
  }

  ghost predicate HeaderAt(s: Bits) {
    |s| >= 16 && HeaderOk(Val(s[0..8]), Val(s[8..16]))
  }

  /** The bytes a whole stream stands for. */
  ghost function Unwrap(s: Bits, zlib: bool): Parsed<Bytes> {
    if zlib && !HeaderAt(s) then Fail
    else
      var (out, e) :- Inflate(s, Start(zlib), []);
      if !zlib then Got(out, e)
      else
        var (check, q) :- ReadBig(s, Align(e));
        if check == Checksum(out) then Got(out, q) else Fail
  }

  /** The bytes of a whole stream decode to out. */
  ghost predicate Decodes(bytes: Bytes, zlib: bool, out: Bytes) {
    var r := Unwrap(BytesBits(bytes), zlib);
    r.Got? && r.val == out
  }

  /** A block body that begins r bits into a byte turns the output out into out'. */
  ghost predicate BlockYields(b: Bits, r: nat, out: Bytes, out': Bytes) {
    forall s: Bits, p: nat :: At(s, p, b) && p % 8 == r % 8 ==> ReadBlock(s, p, out) == Got(out', p + |b|)
  }

  /** However it continues, a stream that begins with t has produced out when the reader reaches its end. */
  ghost predicate Produces(t: Bits, zlib: bool, out: Bytes) {
    && |t| >= Start(zlib) && (zlib ==> HeaderAt(t))
    && forall s: Bits :: t <= s ==> Inflate(s, Start(zlib), []) == Inflate(s, |t|, out)
  }

  /** However it continues, the final block of a stream that begins with t ends at e with out produced. */
  ghost predicate Ends(t: Bits, zlib: bool, out: Bytes, e: nat) {
    && |t| >= Start(zlib) && (zlib ==> HeaderAt(t))
    && e <= |t|
    && forall s: Bits :: t <= s ==> Inflate(s, Start(zlib), []) == Got(out, e)
  }

  lemma PrefixAt(t: Bits, b: Bits, s: Bits)
    requires t + b <= s
    ensures t <= s && At(s, |t|, b)
  {
    assert s[..|t|] == (t + b)[..|t|] == t;
    assert s[|t|..|t| + |b|] == (t + b)[|t|..] == b;
  }

  lemma HeaderKept(t: Bits, b: Bits)
    requires HeaderAt(t)
    ensures HeaderAt(t + b)
  {
    assert (t + b)[0..8] == t[0..8] && (t + b)[8..16] == t[8..16];
  }

  /** A block that is not final extends what is produced. */
  lemma AddBlock(t: Bits, zlib: bool, out: Bytes, b: Bits, out': Bytes)
    requires Produces(t, zlib, out) && BlockYields(b, |t| + 1, out, out')
    ensures Produces(t + ToBits(0, 1) + b, zlib, out')
  {
    hide At, ReadBlock, ToBits, HeaderAt;
    Pow2Table();
    var t1 := t + ToBits(0, 1);
    if zlib {
      HeaderKept(t, ToBits(0, 1));
      HeaderKept(t1, b);
    }
    forall s: Bits | t1 + b <= s
      ensures Inflate(s, Start(zlib), []) == Inflate(s, |t1 + b|, out')
    {
      PrefixAt(t1, b, s);
      PrefixAt(t, ToBits(0, 1), s);
      ReadBitsBack(s, |t|, 0, 1);
    }
  }

  /** The final block ends the stream. */
  lemma EndBlock(t: Bits, zlib: bool, out: Bytes, b: Bits, out': Bytes)
    requires Produces(t, zlib, out) && BlockYields(b, |t| + 1, out, out')
    ensures Ends(t + ToBits(1, 1) + b, zlib, out', |t + ToBits(1, 1) + b|)
  {
    hide At, ReadBlock, ToBits, HeaderAt;
    Pow2Table();
    var t1 := t + ToBits(1, 1);
    if zlib {
      HeaderKept(t, ToBits(1, 1));
      HeaderKept(t1, b);
    }
    forall s: Bits | t1 + b <= s
      ensures Inflate(s, Start(zlib), []) == Got(out', |t1 + b|)
    {
      PrefixAt(t1, b, s);
      PrefixAt(t, ToBits(1, 1), s);
      ReadBitsBack(s, |t|, 1, 1);
    }
  }

  /** The empty stored block of a sync flush produces nothing. */
  lemma AddSyncMark(t: Bits, zlib: bool, out: Bytes)
    requires Produces(t, zlib, out)
    ensures Produces(t + ToBits(0, 1) + EncStored(|t| + 1, []), zlib, out)
  {
    StoredYields(|t| + 1, out, []);
    assert out + [] == out;
    AddBlock(t, zlib, out, EncStored(|t| + 1, []), out);
  }

  lemma StoredYields(r: nat, out: Bytes, data: Bytes)
    requires |data| < 65536
    ensures BlockYields(EncStored(r, data), r, out, out + data)
  {
    hide At, EncStored;
    forall s: Bits, p: nat | At(s, p, EncStored(r, data)) && p % 8 == r % 8
      ensures ReadBlock(s, p, out) == Got(out + data, p + |EncStored(r, data)|)
    {
      ReadStoredBack(s, p, out, r, data);
    }
  }

  /** The checksum bytes after the final block. */
  function EncBig(a: nat): Bits {
    ToBits(a / 0x100_0000 % 256, 8) +
        (ToBits(a / 0x1_0000 % 256, 8) + (ToBits(a / 0x100 % 256, 8) + ToBits(a % 256, 8)))
  }

  lemma ReadBigBack(s: Bits, p: nat, a: nat)
    requires a < 0x1_0000_0000 && At(s, p, EncBig(a))
    ensures ReadBig(s, p) == Got(a, p + 32)
  {
    hide At, ToBits, ReadBits;
    Pow2Table();
    var x, y, z, w := a / 0x100_0000 % 256, a / 0x1_0000 % 256, a / 0x100 % 256, a % 256;
    var e3 := ToBits(z, 8) + ToBits(w, 8);
    var e2 := ToBits(y, 8) + e3;
    AtConcat(s, p, ToBits(x, 8), e2);
    AtConcat(s, p + 8, ToBits(y, 8), e3);
    AtConcat(s, p + 16, ToBits(z, 8), ToBits(w, 8));
    ReadBitsBack(s, p, x, 8);
    ReadBitsBack(s, p + 8, y, 8);
    ReadBitsBack(s, p + 16, z, 8);
    ReadBitsBack(s, p + 24, w, 8);
    BigEndian(a);
  }

  lemma BigEndian(a: nat)
    requires a < 0x1_0000_0000
    ensures ((a / 0x100_0000 % 256 * 256 + a / 0x1_0000 % 256) * 256 + a / 0x100 % 256) * 256 + a % 256 == a
  {
  }

  lemma ChecksumBound(bs: Bytes)
    ensures Checksum(bs) < 0x1_0000_0000
  {
    RunReduced(Sums(1, 0), bs);
  }

  /** What ends a stream after the final block: padding and, in the wrapper, the checksum. */
  function Tail(e: nat, zlib: bool, out: Bytes): Bits {
    Pad(e) + (if zlib then EncBig(Checksum(out)) else [])
  }

  /** A finished stream unwraps to its contents, whatever bytes follow it. */
  lemma Finished(t: Bits, zlib: bool, out: Bytes, s: Bits)
    requires Ends(t, zlib, out, |t|) && t + Tail(|t|, zlib, out) <= s
    ensures Unwrap(s, zlib).Got? && Unwrap(s, zlib).val == out
  {
    hide At, ToBits, ReadBits, Checksum, EncBig, ReadBig, Inflate, HeaderOk, Val;
    var tail := Tail(|t|, zlib, out);
    PrefixAt(t, tail, s);
    if zlib {
      assert s[0..8] == t[0..8] && s[8..16] == t[8..16];
      AtConcat(s, |t|, Pad(|t|), EncBig(Checksum(out)));
      ChecksumBound(out);
      ReadBigBack(s, |t| + |Pad(|t|)|, Checksum(out));
      assert |t| + |Pad(|t|)| == Align(|t|);
    }
  }

  /** Before the first block: nothing, or the header. */
  lemma HeaderProduces(cmf: byte, flg: byte)
    requires HeaderOk(cmf, flg)
    ensures Produces(ToBits(cmf, 8) + ToBits(flg, 8), true, [])
  {
    hide Inflate, HeaderOk, ToBits, Val;
    Pow2Table();
    var t := ToBits(cmf, 8) + ToBits(flg, 8);
    ValToBits(cmf, 8);
    ValToBits(flg, 8);
    assert t[0..8] == ToBits(cmf, 8) && t[8..16] == ToBits(flg, 8);
  }

  lemma NothingProduces()
    ensures Produces([], false, [])
  {
  }
}
