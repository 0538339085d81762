/** Adler-32 (section 2.2 of RFC 1950) and its deferred-modulo computation (mz_adler32). */
module Adler {
  import opened Arith
  import opened Bits

  const BASE := 65521
  /** Bytes that may be summed before the sums must be reduced. */
  const NMAX := 5552

  datatype Sums = Sums(s1: nat, s2: nat)

  function Step(s: Sums, b: byte): Sums {
    Sums((s.s1 + b) % BASE, (s.s2 + (s.s1 + b) % BASE) % BASE)
  }

  /** The definition: both sums reduced after every byte. */
  function Run(s: Sums, bs: Bytes): Sums {
    if bs == [] then s else Step(Run(s, bs[..|bs| - 1]), bs[|bs| - 1])
  }

  function Checksum(bs: Bytes): nat {
    var s := Run(Sums(1, 0), bs);
    s.s2 * 65536 + s.s1
  }

  lemma {:induction false} RunReduced(s: Sums, bs: Bytes)
    requires s.s1 < BASE && s.s2 < BASE
    ensures Run(s, bs).s1 < BASE && Run(s, bs).s2 < BASE
  {
    if bs != [] {
      RunReduced(s, bs[..|bs| - 1]);
    }
  }

  /** Checksums compose over concatenation: chunked calls agree with one call. */
  lemma {:induction false} RunConcat(s: Sums, a: Bytes, b: Bytes)
    ensures Run(s, a + b) == Run(Run(s, a), b)
  {
    if b == [] {
      assert a + b == a;
    } else {
      RunConcat(s, a, b[..|b| - 1]);
      assert (a + b)[..|a + b| - 1] == a + b[..|b| - 1];
    }
  }

  /** Raw sums agree with the reduced ones, and stay small enough for 32 bits. */
  predicate Deferred(raw1: nat, raw2: nat, s: Sums, n: nat) {
    && raw1 % BASE == s.s1 && raw2 % BASE == s.s2
    && raw1 <= 65535 + 255 * n
    && raw2 <= 65535 + n * 65535 + 255 * (n * (n + 1) / 2)
  }

  lemma DeferStep(raw1: nat, raw2: nat, s: Sums, n: nat, b: byte)
    requires Deferred(raw1, raw2, s, n)
    ensures Deferred(raw1 + b, raw2 + (raw1 + b), Step(s, b), n + 1)
  {
    assert (n + 1) * (n + 2) / 2 == n * (n + 1) / 2 + (n + 1) by {
      assert (n + 1) * (n + 2) == n * (n + 1) + 2 * (n + 1);
    }
    ModSums(raw1, raw2, b);
  }

  lemma ModSums(raw1: nat, raw2: nat, b: byte)
    ensures (raw1 + b) % BASE == (raw1 % BASE + b) % BASE
    ensures (raw2 + (raw1 + b)) % BASE == (raw2 % BASE + (raw1 % BASE + b) % BASE) % BASE
  {
  }

  /** A full block of NMAX bytes never overflows an unsigned 32-bit sum. */
  lemma NoOverflow(raw1: nat, raw2: nat, s: Sums, n: nat)
    requires Deferred(raw1, raw2, s, n) && n <= NMAX
    ensures raw1 < 0x1_0000_0000 && raw2 < 0x1_0000_0000
  {
    MulMono(n, NMAX, n + 1);
    MulMono(n + 1, NMAX + 1, NMAX);
    assert n * (n + 1) <= NMAX * (NMAX + 1);
  }

  /** One block: sums every byte, then reduces once. */
  method SumBlock(s1: nat, s2: nat, bs: Bytes, from: nat, len: nat, ghost s: Sums) returns (s1': nat, s2': nat)
    requires s1 <= 65535 && s2 <= 65535 && s1 % BASE == s.s1 && s2 % BASE == s.s2
    requires from + len <= |bs| && len <= NMAX
    ensures Sums(s1', s2') == Run(s, bs[from..from + len])
    ensures s1' < BASE && s2' < BASE
  {
    hide Deferred, Step;
    s1', s2' := s1, s2;
    var i := 0;
    DeferStart(s1, s2, s);
    while i + 7 < len
      invariant 0 <= i <= len && Deferred(s1', s2', Run(s, bs[from..from + i]), i)
      decreases len - i
    {
      var k := 0;
      while k < 8
        invariant 0 <= k <= 8 && i + k <= len && Deferred(s1', s2', Run(s, bs[from..from + i + k]), i + k)
      {
        s1', s2' := AddByte(s1', s2', bs, from, i + k, s);
        k := k + 1;
      }
      i := i + 8;
    }
    while i < len
      invariant 0 <= i <= len && Deferred(s1', s2', Run(s, bs[from..from + i]), i)
    {
      s1', s2' := AddByte(s1', s2', bs, from, i, s);
      i := i + 1;
    }
    DeferEnd(s1', s2', Run(s, bs[from..from + len]), len);
    s1', s2' := s1' % BASE, s2' % BASE;
  }

  method AddByte(s1: nat, s2: nat, bs: Bytes, from: nat, i: nat, ghost s: Sums) returns (s1': nat, s2': nat)
    requires from + i < |bs| && i < NMAX && Deferred(s1, s2, Run(s, bs[from..from + i]), i)
    ensures Deferred(s1', s2', Run(s, bs[from..from + i + 1]), i + 1)
  {
    hide Deferred, Step;
    var b := bs[from + i];
    assert bs[from..from + i + 1][..i] == bs[from..from + i];
    DeferStep(s1, s2, Run(s, bs[from..from + i]), i, b);
    s1' := s1 + b;
    s2' := s2 + s1';
    NoOverflow(s1', s2', Run(s, bs[from..from + i + 1]), i + 1);
    assert s1' < 0x1_0000_0000 && s2' < 0x1_0000_0000;
  }

  lemma DeferStart(s1: nat, s2: nat, s: Sums)
    requires s1 <= 65535 && s2 <= 65535 && s1 % BASE == s.s1 && s2 % BASE == s.s2
    ensures Deferred(s1, s2, s, 0)
  {
  }

  lemma DeferEnd(s1: nat, s2: nat, s: Sums, n: nat)
    requires Deferred(s1, s2, s, n)
    ensures s1 % BASE == s.s1 && s2 % BASE == s.s2
  {
  }

  /** The two sums of a 32-bit value, reduced. */
  function Unpack(adler: nat): Sums {
    Sums(adler % 65536 % BASE, adler / 65536 % BASE)
  }

  function Pack(s: Sums): nat {
    s.s2 * 65536 + s.s1
  }

  /** Going on from a 32-bit value; without bytes it stays as it is, reduced or not. */
  function Continue(adler: nat, bs: Bytes): nat {
    if bs == [] then adler else Pack(Run(Unpack(adler), bs))
  }

  /** Going on from a checksum gives the checksum of everything. */
  lemma ContinueChecksum(before: Bytes, bs: Bytes)
    ensures Checksum(before) < 0x1_0000_0000 && Continue(Checksum(before), bs) == Checksum(before + bs)
  {
    hide Run;
    var s := Run(Sums(1, 0), before);
    RunReduced(Sums(1, 0), before);
    RunConcat(Sums(1, 0), before, bs);
    DivModUnique(Checksum(before), 65536, s.s2, s.s1);
    if bs == [] {
      assert before + bs == before;
    }
  }

  /** mz_adler32 on a non-null buffer, from any 32-bit value. */
  method Adler32(adler: nat, bs: Bytes) returns (r: nat)
    requires adler < 0x1_0000_0000
    ensures r == Continue(adler, bs) && r < 0x1_0000_0000
  {
    hide Run;
    ghost var s := Unpack(adler);
    var s1: nat, s2: nat := adler % 65536, adler / 65536;
    var from, left: nat, blockLen := 0, |bs|, |bs| % NMAX;
    RunNone(s, bs[..0]);
    while left > 0
      invariant from + left == |bs| && 0 <= from && left % NMAX == blockLen % NMAX
      invariant 0 <= blockLen <= NMAX && (left > 0 ==> blockLen <= left)
      invariant Sums(s1 % BASE, s2 % BASE) == Run(s, bs[..from]) && s1 < 65536 && s2 < 65536
      invariant if from > 0 then s1 < BASE && s2 < BASE else |bs| > 0 || s2 * 65536 + s1 == adler
      decreases left, if blockLen == 0 then 1 else 0
    {
      ghost var t := Run(s, bs[..from]);
      s1, s2 := SumBlock(s1, s2, bs, from, blockLen, t);
      RunConcat(s, bs[..from], bs[from..from + blockLen]);
      assert bs[..from] + bs[from..from + blockLen] == bs[..from + blockLen];
      from, left := from + blockLen, left - blockLen;
      blockLen := NMAX;
    }
    assert bs[..from] == bs;
    r := s2 * 65536 + s1;
  }

  lemma RunNone(s: Sums, bs: Bytes)
    requires bs == []
    ensures Run(s, bs) == s
  {
  }

  // ---- The modulus is the largest prime that two bytes hold.

  lemma NoFactorTo64(d: nat)
    requires 2 <= d < 64
    ensures BASE % d != 0
  {
  }

  lemma NoFactorTo128(d: nat)
    requires 64 <= d < 128
    ensures BASE % d != 0
  {
  }

  lemma NoFactorTo192(d: nat)
    requires 128 <= d < 192
    ensures BASE % d != 0
  {
  }

  lemma NoFactorTo256(d: nat)
    requires 192 <= d < 256
    ensures BASE % d != 0
  {
  }

  lemma NoSmallFactor(d: nat)
    requires 2 <= d < 256
    ensures BASE % d != 0
  {
    if d < 64 {
      NoFactorTo64(d);
    } else if d < 128 {
      NoFactorTo128(d);
    } else if d < 192 {
      NoFactorTo192(d);
    } else {
      NoFactorTo256(d);
    }
  }

  lemma BasePrime(d: nat)
    requires 2 <= d < BASE
    ensures BASE % d != 0
  {
    if d <= 255 {
      NoSmallFactor(d);
    } else if BASE % d == 0 {
      var q := BASE / d;
      DivModOf(BASE, d);
      CofactorSmall(BASE, q, d);
      NoSmallFactor(q);
      assert false;
    }
  }

  /** Below 65536, the cofactor of a factor that takes more than a byte takes no more than one. */
  lemma CofactorSmall(n: nat, q: int, d: nat)
    requires 256 <= d < n < 65536 && q * d == n
    ensures 2 <= q <= 255 && n % q == 0
  {
    if q >= 256 {
      MulMono(256, q, d);
      assert false;
    }
    if q <= 1 {
      MulMono(q, 1, d);
      assert false;
    }
    assert q * d == d * q;
    DivModUnique(n, q, d, 0);
  }

  /** Nothing between it and two bytes' range is prime. */
  lemma NoneLarger(n: nat) returns (d: nat)
    requires BASE < n < 65536
    ensures 2 <= d < n && n % d == 0
  {
    d := if n % 2 == 0 then 2 else if n % 3 == 0 then 3 else if n == 65525 then 5
         else if n == 65527 then 7 else if n == 65531 then 19 else 13;
  }

  lemma RunNext(s: Sums, bs: Bytes, b: byte, before: Sums, after: Sums)
    requires Run(s, bs) == before && Step(before, b) == after
    ensures Run(s, bs + [b]) == after
  {
    assert (bs + [b])[..|bs|] == bs;
  }

  /** The check value: the checksum of the word Wikipedia. */
  lemma CheckValue()
    ensures Checksum([0x57] + [0x69] + [0x6B] + [0x69] + [0x70] + [0x65] + [0x64] + [0x69] + [0x61]) == 0x11E6_0398
  {
    hide Run;
    var s, d: Bytes := Sums(1, 0), [];
    RunNone(s, d);
    RunNext(s, d, 0x57, Sums(1, 0), Sums(88, 88));
    d := [0x57];
    assert [] + d == d;
    RunNext(s, d, 0x69, Sums(88, 88), Sums(193, 281));
    d := d + [0x69];
    RunNext(s, d, 0x6B, Sums(193, 281), Sums(300, 581));
    d := d + [0x6B];
    RunNext(s, d, 0x69, Sums(300, 581), Sums(405, 986));
    d := d + [0x69];
    RunNext(s, d, 0x70, Sums(405, 986), Sums(517, 1503));
    d := d + [0x70];
    RunNext(s, d, 0x65, Sums(517, 1503), Sums(618, 2121));
    d := d + [0x65];
    RunNext(s, d, 0x64, Sums(618, 2121), Sums(718, 2839));
    d := d + [0x64];
    RunNext(s, d, 0x69, Sums(718, 2839), Sums(823, 3662));
    d := d + [0x69];
    RunNext(s, d, 0x61, Sums(823, 3662), Sums(920, 4582));
  }
}
