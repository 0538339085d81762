/** The compressor's mirrored ring dictionary, hash chains and match finder (tdefl_find_match). */
module Window {
  import opened Arith
  import opened Bits

  const DICT_SIZE := 32768
  const MIN_MATCH := 3
  const MAX_MATCH := 258
  const U32 := 0x1_0000_0000

  /** Bitwise exclusive or. */
  function Xor(a: nat, b: nat): nat
    decreases a + b
  {
    if a == 0 && b == 0 then 0 else (a % 2 + b % 2) % 2 + 2 * Xor(a / 2, b / 2)
  }

  /** Byte p of the stream stands at its ring slot, and in the mirror if the slot has one. */
  predicate InRing(dict: seq<byte>, stream: Bytes, p: nat)
    requires |dict| == DICT_SIZE + MAX_MATCH - 1 && p < |stream|
  {
    && dict[p % DICT_SIZE] == stream[p]
    && (p % DICT_SIZE < MAX_MATCH - 1 ==> dict[DICT_SIZE + p % DICT_SIZE] == stream[p])
  }

  /** The ring holds the last window of the stream. */
  predicate HoldsWindow(dict: seq<byte>, stream: Bytes)
    requires |dict| == DICT_SIZE + MAX_MATCH - 1
  {
    forall p :: 0 <= p < |stream| && |stream| - DICT_SIZE <= p ==> InRing(dict, stream, p)
  }

  /** Storing the next byte at its slot, and in the mirror if there is one, moves the window by one. */
  lemma RingPush(dict: seq<byte>, stream: Bytes, c: byte)
    requires |dict| == DICT_SIZE + MAX_MATCH - 1 && HoldsWindow(dict, stream)
    ensures var d := |stream| % DICT_SIZE;
            var dict' := dict[d := c];
            HoldsWindow(if d < MAX_MATCH - 1 then dict'[DICT_SIZE + d := c] else dict', stream + [c])
  {
    var d := |stream| % DICT_SIZE;
    var dict' := dict[d := c];
    var dict'' := if d < MAX_MATCH - 1 then dict'[DICT_SIZE + d := c] else dict';
    forall p | 0 <= p < |stream| + 1 && |stream| + 1 - DICT_SIZE <= p
      ensures InRing(dict'', stream + [c], p)
    {
      if p < |stream| {
        assert InRing(dict, stream, p);
        SlotsDiffer(p, |stream|);
      }
    }
  }

  lemma SlotsDiffer(p: nat, q: nat)
    requires p < q < p + DICT_SIZE
    ensures p % DICT_SIZE != q % DICT_SIZE
  {
  }

  /** Reading forward from a slot runs on into the mirror. */
  lemma RingRead(dict: seq<byte>, stream: Bytes, p: nat, k: nat)
    requires |dict| == DICT_SIZE + MAX_MATCH - 1 && HoldsWindow(dict, stream)
    requires |stream| - DICT_SIZE <= p + k < |stream| && k < MAX_MATCH
    ensures p % DICT_SIZE + k < |dict| && dict[p % DICT_SIZE + k] == stream[p + k]
  {
    assert InRing(dict, stream, p + k);
    if p % DICT_SIZE + k < DICT_SIZE {
      assert (p + k) % DICT_SIZE == p % DICT_SIZE + k;
    } else {
      assert (p + k) % DICT_SIZE == p % DICT_SIZE + k - DICT_SIZE;
    }
  }

  /** The n bytes from p repeat those dist before. */
  predicate Repeats(stream: Bytes, p: nat, dist: nat, n: nat)
    requires p + n <= |stream| && dist <= p
  {
    forall j :: p <= j < p + n ==> stream[j] == stream[j - dist]
  }

  /** The 16-bit distance to a chain link names the same slot, wherever the link came from. */
  lemma LinkSlot(pos: nat, link: nat, dist: nat)
    requires link < 65536 && dist == (pos - link) % 65536 && dist <= pos
    ensures (pos - dist) % DICT_SIZE == link % DICT_SIZE
  {
    var q := (pos - link) / 65536;
    assert pos - dist == link + q * 65536;
    assert pos - dist == link + (q * 2) * DICT_SIZE;
    ModAddMul(link, q * 2, DICT_SIZE);
  }

  lemma WrapMod(pos: nat, m: nat, e: nat)
    requires m > 0 && e > 0 && m * e == U32
    ensures pos % U32 % m == pos % m
  {
    DivModMul(pos, m, e);
  }

  /** Subtracting from a 32-bit position and keeping 16 bits. */
  lemma WrapDist(pos: nat, link: nat)
    ensures (pos % U32 - link) % 65536 == (pos - link) % 65536
  {
    DivModOf(pos, U32);
    var q := pos / U32;
    assert pos - link == (pos % U32 - link) + (q * 65536) * 65536;
    ModAddMul(pos % U32 - link, q * 65536, 65536);
  }

  // ---- Hashes and chains.

  lemma {:induction false} XorZero(x: nat)
    ensures Xor(0, x) == x && Xor(x, 0) == x
  {
    if x > 0 {
      XorZero(x / 2);
    }
  }

  /** The low k bits of an exclusive or are those of the operands. */
  lemma {:induction false} XorLow(x: nat, y: nat, k: nat)
    ensures Xor(x, y) % Pow2(k) == Xor(x % Pow2(k), y % Pow2(k))
    decreases k
  {
    if k == 0 {
      assert Pow2(0) == 1;
      XorZero(0);
    } else {
      XorLow(x / 2, y / 2, k - 1);
      HalfLow(x, k);
      HalfLow(y, k);
      HalfLow(Xor(x, y), k);
      XorStep(x, y);
      XorStep(x % Pow2(k), y % Pow2(k));
    }
  }

  lemma XorStep(x: nat, y: nat)
    ensures Xor(x, y) % 2 == (x % 2 + y % 2) % 2 && Xor(x, y) / 2 == Xor(x / 2, y / 2)
  {
  }

  lemma HalfLow(x: nat, k: nat)
    requires k > 0
    ensures x % Pow2(k) % 2 == x % 2 && 0 <= x % Pow2(k) / 2 == x / 2 % Pow2(k - 1)
    ensures 0 <= x / 2 % Pow2(k - 1) && x % Pow2(k) == 2 * (x / 2 % Pow2(k - 1)) + x % 2
  {
    DivModMul(x, 2, Pow2(k - 1));
  }

  /** The compressor's hash of three bytes. */
  function Hash3(a: nat, b: nat, c: nat): nat {
    Xor(Xor(a * 32, b) * 32, c) % DICT_SIZE
  }

  /** Rolling on: the oldest byte has left the hash. */
  lemma HashRolls(a: byte, b: byte, c: byte, d: byte)
    ensures Xor(Hash3(a, b, c) * 32, d) % DICT_SIZE == Hash3(b, c, d)
  {
    hide Xor, Pow2;
    Pow2Table();
    var y, z := Xor(Xor(a * 32, b) * 32, c), Xor(b * 32, c);
    XorLow(y % DICT_SIZE * 32, d, 15);
    XorLow(z * 32, d, 15);
    ShiftLow(y);
    ShiftLow(z);
    HashLow(a, b, c);
  }

  lemma ShiftLow(y: nat)
    ensures y % DICT_SIZE * 32 % DICT_SIZE == y * 32 % DICT_SIZE == y % 1024 * 32
  {
  }

  lemma HashLow(a: byte, b: byte, c: byte)
    ensures Xor(Xor(a * 32, b) * 32, c) % 1024 == Xor(b * 32, c) % 1024
  {
    hide Xor, Pow2;
    Pow2Table();
    XorLow(Xor(a * 32, b) * 32, c, 10);
    XorLow(b * 32, c, 10);
    ShiftTen(Xor(a * 32, b));
    ShiftTen(b);
    LowFive(a, b);
  }

  lemma ShiftTen(x: nat)
    ensures x * 32 % 1024 == x % 32 * 32
  {
  }

  lemma LowFive(a: byte, b: byte)
    ensures Xor(a * 32, b) % 32 == b % 32
  {
    hide Xor, Pow2;
    Pow2Table();
    XorLow(a * 32, b, 5);
    XorZero(b % 32);
  }

  function HashAt(stream: Bytes, p: nat): nat
    requires p + 2 < |stream|
  {
    Hash3(stream[p], stream[p + 1], stream[p + 2])
  }

  /** The latest position from lo up to hi whose three bytes hash to h, or -1. */
  ghost function Latest(stream: Bytes, lo: nat, hi: nat, h: nat): (q: int)
    requires lo < hi ==> hi + 2 <= |stream|
    ensures q == -1 || (lo <= q < hi && HashAt(stream, q) == h)
    ensures forall r :: lo <= r < hi && q < r ==> HashAt(stream, r) != h
    decreases hi
  {
    if hi <= lo then -1 else if HashAt(stream, hi - 1) == h then hi - 1 else Latest(stream, lo, hi - 1, h)
  }

  /** A 16-bit link to a position; none is zero, and so are the multiples of 65536. */
  function LinkTo(q: int): nat {
    if q < 0 then 0 else q % 65536
  }

  /** The positions from lo up to hi are on the chains: each head is the latest position with its hash, and each
      position still in the ring links to the latest one before it with the same hash. */
  ghost predicate Linked(next: seq<uint16>, hash: seq<uint16>, stream: Bytes, lo: nat, hi: nat) {
    && |next| == DICT_SIZE && |hash| == DICT_SIZE && (lo < hi ==> hi + 2 <= |stream|)
    && (forall h :: 0 <= h < DICT_SIZE ==> hash[h] == LinkTo(Latest(stream, lo, hi, h)))
    && (forall p :: lo <= p < hi && hi - DICT_SIZE <= p ==>
          next[p % DICT_SIZE] == LinkTo(Latest(stream, lo, p, HashAt(stream, p))))
  }

  /** One more position heads the chain of its hash. */
  lemma LinkNext(next: seq<uint16>, hash: seq<uint16>, stream: Bytes, lo: nat, hi: nat)
    requires Linked(next, hash, stream, lo, hi) && lo <= hi && hi + 3 <= |stream|
    ensures HashAt(stream, hi) < DICT_SIZE
    ensures var h := HashAt(stream, hi);
            Linked(next[hi % DICT_SIZE := hash[h]], hash[h := hi % 65536], stream, lo, hi + 1)
  {
    hide HashAt, Latest, LinkTo;
    HashInRange(stream, hi);
    LinkHeads(hash, hash[HashAt(stream, hi) := hi % 65536], stream, lo, hi, hi + 1);
    LinkLinks(next, hash, stream, lo, hi);
  }

  lemma LinkHeads(hash: seq<uint16>, hash': seq<uint16>, stream: Bytes, lo: nat, hi: nat, hi': nat)
    requires |hash| == DICT_SIZE && lo <= hi && hi + 3 <= |stream| && HashAt(stream, hi) < DICT_SIZE
    requires hi' == hi + 1 && hash' == hash[HashAt(stream, hi) := hi % 65536]
    requires forall h :: 0 <= h < DICT_SIZE ==> hash[h] == LinkTo(Latest(stream, lo, hi, h))
    ensures forall h :: 0 <= h < DICT_SIZE ==> hash'[h] == LinkTo(Latest(stream, lo, hi', h))
  {
    hide Hash3;
  }

  lemma LinkLinks(next: seq<uint16>, hash: seq<uint16>, stream: Bytes, lo: nat, hi: nat)
    requires Linked(next, hash, stream, lo, hi) && lo <= hi && hi + 3 <= |stream| && HashAt(stream, hi) < DICT_SIZE
    requires |next| == |hash| == DICT_SIZE
    ensures forall p :: lo <= p < hi + 1 && hi + 1 - DICT_SIZE <= p ==>
              next[hi % DICT_SIZE := hash[HashAt(stream, hi)]][p % DICT_SIZE] ==
                  LinkTo(Latest(stream, lo, p, HashAt(stream, p)))
  {
    hide HashAt, LinkTo, Latest, Linked;
    var next' := next[hi % DICT_SIZE := hash[HashAt(stream, hi)]];
    forall p | lo <= p < hi + 1 && hi + 1 - DICT_SIZE <= p
      ensures next'[p % DICT_SIZE] == LinkTo(Latest(stream, lo, p, HashAt(stream, p)))
    {
      LinkOf(next, hash, stream, lo, hi, p);
      if p < hi {
        SlotsDiffer(p, hi);
      }
    }
  }

  /** A link already there, or the head that becomes one. */
  lemma LinkOf(next: seq<uint16>, hash: seq<uint16>, stream: Bytes, lo: nat, hi: nat, p: nat)
    requires Linked(next, hash, stream, lo, hi) && lo <= p <= hi && hi + 1 - DICT_SIZE <= p && hi + 3 <= |stream|
    requires HashAt(stream, hi) < DICT_SIZE
    ensures (if p < hi then next[p % DICT_SIZE] else hash[HashAt(stream, p)]) ==
            LinkTo(Latest(stream, lo, p, HashAt(stream, p)))
  {
    hide HashAt, LinkTo, Latest;
  }

  lemma HashInRange(stream: Bytes, p: nat)
    requires p + 2 < |stream|
    ensures HashAt(stream, p) < DICT_SIZE
  {
    hide Xor;
  }

  lemma {:induction false} LatestMore(stream: Bytes, c: byte, lo: nat, hi: nat, h: nat)
    requires lo < hi ==> hi + 2 <= |stream|
    ensures Latest(stream + [c], lo, hi, h) == Latest(stream, lo, hi, h)
    decreases hi
  {
    hide Hash3;
    if lo < hi {
      LatestMore(stream, c, lo, hi - 1, h);
      assert HashAt(stream + [c], hi - 1) == HashAt(stream, hi - 1);
    }
  }

  /** More stream does not disturb the chains. */
  lemma LinkedMore(next: seq<uint16>, hash: seq<uint16>, stream: Bytes, c: byte, lo: nat, hi: nat)
    requires Linked(next, hash, stream, lo, hi)
    ensures Linked(next, hash, stream + [c], lo, hi)
  {
    hide Hash3;
    forall h | 0 <= h < DICT_SIZE
      ensures hash[h] == LinkTo(Latest(stream + [c], lo, hi, h))
    {
      LatestMore(stream, c, lo, hi, h);
    }
    forall p | lo <= p < hi && hi - DICT_SIZE <= p
      ensures next[p % DICT_SIZE] == LinkTo(Latest(stream + [c], lo, p, HashAt(stream + [c], p)))
    {
      LatestMore(stream, c, lo, p, HashAt(stream, p));
      assert HashAt(stream + [c], p) == HashAt(stream, p);
    }
  }

  /** Cleared chains link nothing. */
  lemma NothingLinked(next: seq<uint16>, hash: seq<uint16>, stream: Bytes, lo: nat)
    requires |next| == DICT_SIZE && |hash| == DICT_SIZE && forall h :: 0 <= h < DICT_SIZE ==> hash[h] == 0
    ensures Linked(next, hash, stream, lo, lo)
  {
  }

  /** The distances of the first k candidates that the links from a slot lead to. */
  function Chain(next: seq<uint16>, pos: nat, size: nat, slot: nat, k: nat): seq<nat>
    requires |next| == DICT_SIZE && slot < DICT_SIZE
    decreases k
  {
    if k == 0 then []
    else
      var link := next[slot];
      var dist := (pos - link) % 65536;
      if link == 0 || dist == 0 || dist > size then []
      else [dist] + Chain(next, pos, size, link % DICT_SIZE, k - 1)
  }

  lemma {:induction false} ChainMore(next: seq<uint16>, pos: nat, size: nat, slot: nat, k: nat, d: nat)
    requires |next| == DICT_SIZE && slot < DICT_SIZE && d in Chain(next, pos, size, slot, k)
    ensures d in Chain(next, pos, size, slot, k + 1)
    decreases k
  {
    var link := next[slot];
    var dist := (pos - link) % 65536;
    if d != dist {
      ChainMore(next, pos, size, link % DICT_SIZE, k - 1, d);
    }
  }

  /** The distances from pos to the k latest positions before p with p's hash, up to the first that lies outside the
      history or that no link can name. */
  ghost function Earlier(stream: Bytes, lo: nat, pos: nat, size: nat, p: nat, k: nat): seq<nat>
    requires p <= pos && p + 2 < |stream|
    decreases k
  {
    if k == 0 then []
    else
      var q := Latest(stream, lo, p, HashAt(stream, p));
      if q < 0 || q % 65536 == 0 || pos - q > size then []
      else [pos - q] + Earlier(stream, lo, pos, size, q, k - 1)
  }

  /** The chain visits them all. */
  lemma {:induction false} ChainVisits(next: seq<uint16>, hash: seq<uint16>, stream: Bytes, lo: nat, hi: nat,
                                       pos: nat, size: nat, p: nat, k: nat, d: nat)
    requires Linked(next, hash, stream, lo, hi) && lo <= p <= pos < hi && hi - DICT_SIZE <= p && size < 65536
    requires hi - DICT_SIZE <= pos - size
    requires d in Earlier(stream, lo, pos, size, p, k)
    ensures d in Chain(next, pos, size, p % DICT_SIZE, k)
    decreases k
  {
    hide Hash3, Latest;
    var q := Latest(stream, lo, p, HashAt(stream, p));
    LinkBack(pos, q, size);
    if d != pos - q {
      ChainVisits(next, hash, stream, lo, hi, pos, size, q, k - 1, d);
    }
  }

  lemma LinkBack(pos: nat, q: nat, size: nat)
    requires q < pos && pos - q <= size < 65536 && q % 65536 != 0
    ensures LinkTo(q) % DICT_SIZE == q % DICT_SIZE && (pos - LinkTo(q)) % 65536 == pos - q
  {
  }

  class Dictionary {
    const dict: array<byte>
    const next: array<uint16>
    const hash: array<uint16>
    /** 32-bit position of the lookahead. */
    var lookaheadPos: nat
    var lookaheadSize: nat
    var dictSize: nat
    /** Every byte moved in so far. */
    ghost var stream: Bytes
    /** Where the history was last forgotten, and whether the chains were clear then. */
    ghost var mark: nat
    ghost var clear: bool

    ghost function Parts(): set<object> {
      {this, dict, next, hash}
    }

    ghost predicate Core()
      reads this, dict, next, hash
    {
      && dict.Length == DICT_SIZE + MAX_MATCH - 1 && next.Length == DICT_SIZE && hash.Length == DICT_SIZE
      && next != hash
      && lookaheadSize <= MAX_MATCH && lookaheadSize <= |stream|
      && lookaheadPos == Pos() % U32
      && mark + dictSize <= Pos()
      && (mark + dictSize < Pos() ==> dictSize >= DICT_SIZE - MAX_MATCH)
      && HoldsWindow(dict[..], stream)
    }

    /** Every position since the mark up to hi is on the chains, if they were clear at the mark. */
    ghost predicate Chained(hi: nat)
      reads `stream, `mark, `clear, next, hash
    {
      clear ==> Linked(next[..], hash[..], stream, mark, hi)
    }

    /** Positions are on the chains once their three bytes are there. */
    ghost function Upto(): nat
      reads `stream, `mark
    {
      Max(mark, |stream| - 2)
    }

    /** Outside a refill, the lookahead and the usable history fit the ring together. */
    ghost predicate Valid()
      reads this, dict, next, hash
    {
      Core() && dictSize + lookaheadSize <= DICT_SIZE && Chained(Upto())
    }

    /** The true position of the lookahead in the stream. */
    ghost function Pos(): nat
      reads this
      requires lookaheadSize <= |stream|
    {
      |stream| - lookaheadSize
    }

    /** The ring and the links start with whatever memory holds; the heads are cleared unless told not to. */
    constructor (clearHash: bool)
      ensures Valid() && stream == [] && lookaheadSize == 0 && dictSize == 0 && mark == 0 && clear == clearHash
      ensures fresh(Parts())
    {
      dict := new byte[DICT_SIZE + MAX_MATCH - 1];
      next := new uint16[DICT_SIZE];
      hash := new uint16[DICT_SIZE];
      lookaheadPos, lookaheadSize, dictSize := 0, 0, 0;
      stream, mark, clear := [], 0, clearHash;
      new;
      if clearHash {
        for i := 0 to DICT_SIZE
          modifies hash
          invariant forall k :: 0 <= k < i ==> hash[k] == 0
        {
          hash[i] := 0;
        }
        NothingLinked(next[..], hash[..], stream, 0);
      }
    }

    /** One TDEFL_PROBE: follows a link; stop at the chain's end or beyond maxDist, hit when two bytes agree. */
    method Probe(probePos: nat, matchLen: nat, c0: byte, c1: byte)
      returns (stop: bool, hit: bool, dist: nat, probePos': nat)
      requires Valid() && probePos < DICT_SIZE && 1 <= matchLen < MAX_MATCH
      ensures probePos' < DICT_SIZE && dist == (Pos() - next[probePos]) % 65536
      ensures stop <==> next[probePos] == 0 || dist > dictSize
      ensures !stop ==> probePos' == next[probePos] % DICT_SIZE == (Pos() - dist) % DICT_SIZE
      ensures !stop ==> (hit <==> dict[probePos' + matchLen] == c0 && dict[probePos' + matchLen - 1] == c1)
      ensures stop ==> !hit
    {
      hide HoldsWindow, Linked;
      stop, hit, probePos' := false, false, probePos;
      var link := next[probePos];
      dist := (lookaheadPos - link) % 65536;
      WrapDist(Pos(), link);
      if link == 0 || dist > dictSize {
        stop := true;
        return;
      }
      LinkSlot(Pos(), link, dist);
      probePos' := link % DICT_SIZE;
      hit := dict[probePos' + matchLen] == c0 && dict[probePos' + matchLen - 1] == c1;
    }

    /** How many bytes at the two slots agree, up to limit. */
    method Compare(pos: nat, probePos: nat, limit: nat, ghost dist: nat) returns (n: nat)
      requires Valid() && limit <= lookaheadSize && 1 <= dist <= dictSize
      requires pos == Pos() % DICT_SIZE && probePos == (Pos() - dist) % DICT_SIZE
      ensures n <= limit && Repeats(stream, Pos(), dist, n)
      ensures n < limit ==> !Repeats(stream, Pos(), dist, n + 1)
    {
      hide HoldsWindow, Linked;
      n := 0;
      while n < limit
        invariant n <= limit && Repeats(stream, Pos(), dist, n)
      {
        RingRead(dict[..], stream, Pos(), n);
        RingRead(dict[..], stream, Pos() - dist, n);
        if dict[pos + n] != dict[probePos + n] {
          assert stream[Pos() + n] != stream[Pos() + n - dist];
          break;
        }
        n := n + 1;
      }
    }

    /** A match that may be recorded at the lookahead position. */
    ghost predicate Sound(dist: nat, len: nat)
      reads this
      requires lookaheadSize <= |stream|
    {
      && 1 <= dist <= dictSize && mark + dist <= Pos() && len <= lookaheadSize
      && Repeats(stream, Pos(), dist, len)
    }

    /** The lookahead repeats what stands dist before it for more than len bytes. */
    ghost predicate Longer(dist: nat, len: nat)
      reads this
      requires lookaheadSize <= |stream|
    {
      len < lookaheadSize && 1 <= dist <= Pos() && Repeats(stream, Pos(), dist, len + 1)
    }

    /** The candidates that the links from a slot lead to. */
    ghost function Candidates(slot: nat, k: nat): seq<nat>
      reads this, next
      requires slot < DICT_SIZE && next.Length == DICT_SIZE && lookaheadSize <= |stream|
    {
      Chain(next[..], Pos(), dictSize, slot, k)
    }

    /** Without both bytes agreeing a candidate is no longer than what there is already. */
    lemma Missed(dist: nat, len: nat, slot: nat)
      requires Core() && dictSize + lookaheadSize <= DICT_SIZE && 1 <= len < lookaheadSize && dist <= dictSize
      requires slot == (Pos() - dist) % DICT_SIZE
      ensures Pos() % DICT_SIZE + len < dict.Length && slot + len < dict.Length
      ensures Longer(dist, len) ==>
          && dict[slot + len] == dict[Pos() % DICT_SIZE + len]
          && dict[slot + len - 1] == dict[Pos() % DICT_SIZE + len - 1]
    {
      hide HoldsWindow;
      RingRead(dict[..], stream, Pos(), len);
      RingRead(dict[..], stream, Pos(), len - 1);
      RingRead(dict[..], stream, Pos() - dist, len);
      RingRead(dict[..], stream, Pos() - dist, len - 1);
      if Longer(dist, len) {
        assert stream[Pos() + len] == stream[Pos() + len - dist];
        assert stream[Pos() + len - 1] == stream[Pos() + len - 1 - dist];
      }
    }

    /** Of the first k candidates from one slot on, none is longer than len but perhaps those among j from another. */
    ghost predicate Searched(from: nat, k: nat, len: nat, slot: nat, j: nat)
      reads this, next
      requires lookaheadSize <= |stream| && from < DICT_SIZE && slot < DICT_SIZE && next.Length == DICT_SIZE
    {
      forall d :: d in Candidates(from, k) && Longer(d, len) ==> d in Candidates(slot, j)
    }

    /** As Searched, or it is the candidate at dist that is longer. */
    ghost predicate Found(from: nat, k: nat, len: nat, dist: nat, slot: nat, j: nat)
      reads this, next
      requires lookaheadSize <= |stream| && from < DICT_SIZE && slot < DICT_SIZE && next.Length == DICT_SIZE
    {
      forall d :: d in Candidates(from, k) && Longer(d, len) ==> d == dist || d in Candidates(slot, j)
    }

    /** Moving past a candidate that is no longer than len, with a candidate of the budget used. */
    lemma SearchOn(from: nat, k: nat, len: nat, slot: nat, j: nat)
      requires Core() && from < DICT_SIZE && slot < DICT_SIZE && j > 0 && Searched(from, k, len, slot, j)
      ensures var link := next[slot];
              var dist := (Pos() - link) % 65536;
              && (link == 0 || dist == 0 || dist > dictSize ==> Searched(from, k, len, slot, 0))
              && (dist > 0 && !Longer(dist, len) ==> Searched(from, k, len, link % DICT_SIZE, j - 1))
              && (0 < dist ==> Found(from, k, len, dist, link % DICT_SIZE, j - 1))
    {
      hide HoldsWindow, Repeats;
    }

    /** A larger budget covers no less. */
    lemma SearchSlack(from: nat, k: nat, len: nat, slot: nat, j: nat)
      requires Core() && from < DICT_SIZE && slot < DICT_SIZE && Searched(from, k, len, slot, j)
      ensures Searched(from, k, len, slot, j + 1)
    {
      hide HoldsWindow, Repeats;
      forall d | d in Candidates(from, k) && Longer(d, len)
        ensures d in Candidates(slot, j + 1)
      {
        ChainMore(next[..], Pos(), dictSize, slot, j, d);
      }
    }

    /** How a probe leaves the search. */
    ghost predicate Probed(from: nat, k: nat, len: nat, j: nat, stop: bool, hit: bool, dist: nat, slot: nat)
      reads this, next
      requires lookaheadSize <= |stream| && from < DICT_SIZE && slot < DICT_SIZE && next.Length == DICT_SIZE
    {
      if stop then !hit && Searched(from, k, len, slot, 0)
      else if !hit then Searched(from, k, len, slot, j)
      else dist <= dictSize && slot == (Pos() - dist) % DICT_SIZE
           && (if dist == 0 then Searched(from, k, len, slot, 0) else Found(from, k, len, dist, slot, j))
    }

    /** One probe of a search. */
    method OneProbe(slot: nat, len: nat, c0: byte, c1: byte, ghost from: nat, ghost k: nat, ghost j: nat)
      returns (stop: bool, hit: bool, dist: nat, slot': nat)
      requires Valid() && slot < DICT_SIZE && from < DICT_SIZE && 1 <= len < lookaheadSize && j > 0
      requires Pos() % DICT_SIZE + len < dict.Length
      requires c0 == dict[Pos() % DICT_SIZE + len] && c1 == dict[Pos() % DICT_SIZE + len - 1]
      requires Searched(from, k, len, slot, j)
      ensures slot' < DICT_SIZE && Probed(from, k, len, j - 1, stop, hit, dist, slot')
    {
      hide HoldsWindow, Linked, Searched, Dictionary.Longer, Found;
      stop, hit, dist, slot' := Probe(slot, len, c0, c1);
      SearchOn(from, k, len, slot, j);
      if stop {
        SearchNone(from, k, len, slot, slot');
      } else if dist == 0 {
        SearchNone(from, k, len, slot, slot');
        SearchAny(from, k, len, slot', j - 1);
      } else if !hit {
        Missed(dist, len, slot');
      }
    }

    /** Up to three probes: the budget pays for the first. */
    method ProbeThrice(slot: nat, len: nat, c0: byte, c1: byte, ghost from: nat, ghost k: nat, ghost j: nat)
      returns (stop: bool, hit: bool, dist: nat, slot': nat)
      requires Valid() && slot < DICT_SIZE && from < DICT_SIZE && 1 <= len < lookaheadSize && j > 0
      requires Pos() % DICT_SIZE + len < dict.Length
      requires c0 == dict[Pos() % DICT_SIZE + len] && c1 == dict[Pos() % DICT_SIZE + len - 1]
      requires Searched(from, k, len, slot, j)
      ensures slot' < DICT_SIZE && Probed(from, k, len, j - 1, stop, hit, dist, slot')
    {
      hide HoldsWindow, Linked, Searched, Dictionary.Longer, Found;
      stop, hit, dist, slot' := OneProbe(slot, len, c0, c1, from, k, j);
      var tries := 1;
      while tries < 3 && !hit && !stop
        invariant slot' < DICT_SIZE && Probed(from, k, len, j - 1, stop, hit, dist, slot')
        decreases 3 - tries
      {
        SearchSlack(from, k, len, slot', j - 1);
        stop, hit, dist, slot' := OneProbe(slot', len, c0, c1, from, k, j);
        tries := tries + 1;
      }
    }

    /** Probes until one hits, the chain ends or the budget is used up. */
    method Seek(slot: nat, left: nat, len: nat, c0: byte, c1: byte, ghost from: nat, ghost k: nat)
      returns (hit: bool, dist: nat, slot': nat, left': nat)
      requires Valid() && slot < DICT_SIZE && from < DICT_SIZE && 1 <= len < lookaheadSize && left > 0
      requires Pos() % DICT_SIZE + len < dict.Length
      requires c0 == dict[Pos() % DICT_SIZE + len] && c1 == dict[Pos() % DICT_SIZE + len - 1]
      requires Searched(from, k, len, slot, left - 1)
      ensures slot' < DICT_SIZE && (!hit ==> Searched(from, k, len, slot', 0))
      ensures hit ==> 0 < left' < left && Probed(from, k, len, left' - 1, false, true, dist, slot')
    {
      hide HoldsWindow, Linked, Searched, Dictionary.Longer, Found;
      slot', left', dist, hit := slot, left, 0, false;
      while !hit
        invariant slot' < DICT_SIZE && 0 < left' <= left && (hit ==> left' < left)
        invariant Probed(from, k, len, left' - 1, false, hit, dist, slot')
        decreases left', !hit
      {
        left' := left' - 1;
        if left' == 0 {
          return;
        }
        var stop;
        stop, hit, dist, slot' := ProbeThrice(slot', len, c0, c1, from, k, left');
        if stop {
          return;
        }
      }
    }

    lemma SearchStart(slot: nat, k: nat, len: nat)
      requires Core() && slot < DICT_SIZE
      ensures Searched(slot, k, len, slot, k)
    {
    }

    /** When none is left the slot does not matter. */
    lemma SearchNone(from: nat, k: nat, len: nat, slot: nat, slot': nat)
      requires Core() && from < DICT_SIZE && slot < DICT_SIZE && slot' < DICT_SIZE
      ensures Searched(from, k, len, slot, 0) <==> Searched(from, k, len, slot', 0)
    {
    }

    lemma SearchAny(from: nat, k: nat, len: nat, slot: nat, j: nat)
      requires Core() && from < DICT_SIZE && slot < DICT_SIZE && Searched(from, k, len, slot, 0)
      ensures Searched(from, k, len, slot, j)
    {
      assert Candidates(slot, 0) == [];
    }

    /** A candidate compared in full: the search goes on with the better of two lengths. */
    lemma SearchCompared(from: nat, k: nat, len: nat, dist: nat, slot: nat, j: nat, n: nat)
      requires Core() && from < DICT_SIZE && slot < DICT_SIZE && Found(from, k, len, dist, slot, j) && !Longer(dist, n)
      ensures Searched(from, k, Max(len, n), slot, j)
    {
      hide HoldsWindow;
      if !Searched(from, k, Max(len, n), slot, j) {
        var d :| d in Candidates(from, k) && Longer(d, Max(len, n)) && d !in Candidates(slot, j);
        Shorter(d, Max(len, n), len);
        Shorter(d, Max(len, n), n);
      }
    }

    lemma Shorter(d: nat, a: nat, b: nat)
      requires lookaheadSize <= |stream| && Longer(d, a) && b <= a
      ensures Longer(d, b)
    {
    }

    /** No candidate of the first k on the chain from the lookahead repeats it for more than len bytes. */
    ghost predicate NoneLonger(k: nat, len: nat)
      reads this, next
      requires lookaheadSize <= |stream| && next.Length == DICT_SIZE
    {
      forall d :: d in Candidates(Pos() % DICT_SIZE, k) ==> !Longer(d, len)
    }

    /** Nor does any of the k latest earlier positions with the same hash, up to the first that the history has lost. */
    lemma NoneEarlier(k: nat, len: nat)
      requires Valid() && clear && lookaheadSize >= 3 && NoneLonger(k, len)
      ensures forall d :: d in Earlier(stream, mark, Pos(), dictSize, Pos(), k) ==> !Longer(d, len)
    {
      hide HoldsWindow, Linked, Dictionary.Longer, Hash3;
      forall d | d in Earlier(stream, mark, Pos(), dictSize, Pos(), k)
        ensures !Longer(d, len)
      {
        ChainVisits(next[..], hash[..], stream, mark, Upto(), Pos(), dictSize, Pos(), k, d);
      }
    }

    /** tdefl_find_match: improves on the match passed in, within the history and the lookahead, on a budget of probes;
        what it settles on is as good as any of the candidates the budget pays for. */
    method FindMatch(probes: nat, matchDist: nat, matchLen: nat) returns (matchDist': nat, matchLen': nat)
      requires Valid() && 1 <= matchLen < MAX_MATCH && probes >= 1
      ensures (matchLen' == matchLen && matchDist' == matchDist) ||
          (matchLen < matchLen' && Sound(matchDist', matchLen'))
      ensures NoneLonger(probes - 1, matchLen')
      ensures clear && lookaheadSize >= 3 ==>
          forall d :: d in Earlier(stream, mark, Pos(), dictSize, Pos(), probes - 1) ==> !Longer(d, matchLen')
    {
      hide HoldsWindow, Linked, Repeats, Searched, Dictionary.NoneLonger;
      matchDist', matchLen' := SearchChain(probes, matchDist, matchLen);
      if clear && lookaheadSize >= 3 {
        NoneEarlier(probes - 1, matchLen');
      }
    }

    method SearchChain(probes: nat, matchDist: nat, matchLen: nat) returns (matchDist': nat, matchLen': nat)
      requires Valid() && 1 <= matchLen < MAX_MATCH && probes >= 1
      ensures (matchLen' == matchLen && matchDist' == matchDist) ||
          (matchLen < matchLen' && Sound(matchDist', matchLen'))
      ensures NoneLonger(probes - 1, matchLen')
    {
      hide HoldsWindow, Linked, Repeats, Searched, Found, Dictionary.Longer, Dictionary.NoneLonger;
      var pos := lookaheadPos % DICT_SIZE;
      WrapMod(Pos(), DICT_SIZE, 131072);
      var maxLen := lookaheadSize;
      matchDist', matchLen' := matchDist, matchLen;
      var slot: nat, left: nat := pos, probes;
      var c0, c1 := dict[pos + matchLen], dict[pos + matchLen - 1];
      if maxLen <= matchLen {
        AllOfIt(probes - 1, matchLen);
        return;
      }
      SearchStart(pos, probes - 1, matchLen);
      while true
        invariant left >= 1 && slot < DICT_SIZE && 1 <= matchLen' < maxLen
        invariant c0 == dict[pos + matchLen'] && c1 == dict[pos + matchLen' - 1]
        invariant (matchLen' == matchLen && matchDist' == matchDist) ||
            (matchLen < matchLen' && Sound(matchDist', matchLen'))
        invariant Searched(pos, probes - 1, matchLen', slot, left - 1)
        decreases left
      {
        var hit, dist;
        hit, dist, slot, left := Seek(slot, left, matchLen', c0, c1, pos, probes - 1);
        if !hit || dist == 0 {
          SearchDone(probes - 1, matchLen', slot);
          return;
        }
        var n := Compare(pos, slot, maxLen, dist);
        Compared(dist, n);
        SearchCompared(pos, probes - 1, matchLen', dist, slot, left - 1, n);
        if n > matchLen' {
          matchDist', matchLen' := dist, n;
          if n == maxLen {
            AllOfIt(probes - 1, n);
            return;
          }
          c0, c1 := dict[pos + n], dict[pos + n - 1];
        }
      }
    }

    lemma AllOfIt(k: nat, len: nat)
      requires Core() && len >= lookaheadSize
      ensures NoneLonger(k, len)
    {
      hide HoldsWindow;
    }

    lemma SearchDone(k: nat, len: nat, slot: nat)
      requires Core() && slot < DICT_SIZE && Searched(Pos() % DICT_SIZE, k, len, slot, 0)
      ensures NoneLonger(k, len)
    {
      hide HoldsWindow, Dictionary.Longer;
    }

    lemma Compared(dist: nat, n: nat)
      requires Core() && n <= lookaheadSize && 1 <= dist <= Pos()
      requires n < lookaheadSize ==> !Repeats(stream, Pos(), dist, n + 1)
      ensures !Longer(dist, n)
    {
      hide HoldsWindow;
    }

    /** Stores the next byte of the stream at the end of the lookahead. */
    method Push(c: byte, ghost hi: nat)
      requires Core() && lookaheadSize < MAX_MATCH && Chained(hi)
      modifies this`lookaheadSize, this`stream, dict
      ensures Core() && stream == old(stream) + [c] && lookaheadSize == old(lookaheadSize) + 1 && Chained(hi)
    {
      hide HoldsWindow, Linked;
      var dstPos := (lookaheadPos + lookaheadSize) % DICT_SIZE;
      EndSlot(Pos(), lookaheadSize);
      RingPush(dict[..], stream, c);
      if clear {
        LinkedMore(next[..], hash[..], stream, c, mark, hi);
      }
      dict[dstPos] := c;
      if dstPos < MAX_MATCH - 1 {
        dict[DICT_SIZE + dstPos] := c;
      }
      stream := stream + [c];
      lookaheadSize := lookaheadSize + 1;
    }

    /** Heads the chain of its hash with position p. */
    method Link(h: nat, insPos: nat, ghost p: nat)
      requires Core() && insPos == p % U32 && p + 2 < |stream| && h == HashAt(stream, p) < DICT_SIZE
      requires mark <= p && Chained(p)
      modifies next, hash
      ensures Core() && Chained(p + 1)
    {
      hide HoldsWindow, Linked, Hash3;
      WrapMod(p, DICT_SIZE, 131072);
      WrapMod(p, 65536, 65536);
      if clear {
        LinkNext(next[..], hash[..], stream, mark, p);
      }
      next[insPos % DICT_SIZE] := hash[h];
      hash[h] := insPos % 65536;
    }

    /** The rolling hash of the two ring bytes at p, before the third is mixed in. */
    method StartHash(insPos: nat, ghost p: nat) returns (h: nat)
      requires Core() && insPos == p % U32 && p + 2 <= |stream| && |stream| <= p + 3
      ensures h == Xor(stream[p] as nat * 32, stream[p + 1])
    {
      hide Xor;
      WrapMod(p, DICT_SIZE, 131072);
      NextWrap(p);
      assert InRing(dict[..], stream, p) && InRing(dict[..], stream, p + 1);
      var x: nat, y: nat := dict[insPos % DICT_SIZE], dict[(insPos + 1) % DICT_SIZE];
      h := Xor(x * 32, y);
    }

    /** Refill once there are bytes enough for a hash: the hash rolls along. */
    method FillRolling(src: Bytes, from: nat) returns (to: nat)
      requires Core() && from <= |src| && lookaheadSize + dictSize >= MIN_MATCH - 1 && Chained(Upto())
      modifies this`lookaheadSize, this`stream, dict, next, hash
      ensures Core() && to == from + Min(|src| - from, MAX_MATCH - old(lookaheadSize)) && Chained(Upto())
      ensures stream == old(stream) + src[from..to] && lookaheadSize == old(lookaheadSize) + (to - from)
    {
      hide HoldsWindow, Xor, Linked, Hash3, HashAt;
      to := from;
      ghost var p := |stream| - 2;
      EndWrap(Pos(), lookaheadSize, 2);
      var insPos := (lookaheadPos + lookaheadSize - 2) % U32;
      var h: nat := StartHash(insPos, p);
      RollsFirst(stream, p, h);
      var end := from + Min(|src| - from, MAX_MATCH - lookaheadSize);
      while to < end
        invariant Core() && from <= to <= end && p == |stream| - 2 >= mark && insPos == p % U32 && Chained(p)
        invariant Rolls(h, stream[p], stream[p + 1])
        invariant stream == old(stream) + src[from..to] && lookaheadSize == old(lookaheadSize) + (to - from)
      {
        var c := src[to];
        Push(c, p);
        h := Xor(h * 32, c) % DICT_SIZE;
        RollsOn(stream, p, c);
        Link(h, insPos, p);
        NextWrap(p);
        insPos := (insPos + 1) % U32;
        p := p + 1;
        to := to + 1;
      }
    }

    /** Links the three bytes that end with the one just stored. */
    method LinkLast(c: byte)
      requires Core() && |stream| >= 3 && mark <= |stream| - 3 && c == stream[|stream| - 1] && lookaheadSize > 0
      requires Chained(|stream| - 3)
      modifies next, hash
      ensures Core() && Chained(|stream| - 2)
    {
      hide HoldsWindow, Xor, Linked;
      ghost var p := |stream| - 3;
      EndWrap(Pos(), lookaheadSize, 3);
      var insPos := (lookaheadPos + (lookaheadSize - 1) - 2) % U32;
      var h: nat := StartHash(insPos, p);
      h := Xor(h * 32, c) % DICT_SIZE;
      Link(h, insPos, p);
    }

    /** Refill at the start of the history: each hash is computed afresh. */
    method FillFirst(src: Bytes, from: nat) returns (to: nat)
      requires Core() && from <= |src| && lookaheadSize + dictSize < MIN_MATCH - 1 && Chained(Upto())
      modifies this`lookaheadSize, this`stream, dict, next, hash
      ensures Core() && to == from + Min(|src| - from, MAX_MATCH - old(lookaheadSize)) && Chained(Upto())
      ensures stream == old(stream) + src[from..to] && lookaheadSize == old(lookaheadSize) + (to - from)
    {
      hide HoldsWindow, Xor, Linked;
      to := from;
      while to < |src| && lookaheadSize < MAX_MATCH
        invariant Core() && from <= to <= |src| && Chained(Upto()) && mark + dictSize == Pos()
        invariant stream == old(stream) + src[from..to] && lookaheadSize == old(lookaheadSize) + (to - from)
      {
        var c := src[to];
        Push(c, Upto());
        if lookaheadSize + dictSize >= MIN_MATCH {
          LinkLast(c);
        }
        to := to + 1;
      }
    }

    /** Tops the lookahead up from the source and trims the usable history to what the ring still holds. */
    method Fill(src: Bytes, from: nat) returns (to: nat)
      requires Valid() && from <= |src|
      modifies this`lookaheadSize, this`dictSize, this`stream, dict, next, hash
      ensures Valid() && to == from + Min(|src| - from, MAX_MATCH - old(lookaheadSize))
      ensures stream == old(stream) + src[from..to] && lookaheadSize == old(lookaheadSize) + (to - from)
      ensures dictSize == Min(DICT_SIZE - lookaheadSize, old(dictSize))
    {
      hide HoldsWindow, Linked;
      if lookaheadSize + dictSize >= MIN_MATCH - 1 {
        to := FillRolling(src, from);
      } else {
        to := FillFirst(src, from);
      }
      dictSize := Min(DICT_SIZE - lookaheadSize, dictSize);
    }

    /** Moves the lookahead forward over bytes that now belong to the history. */
    method Advance(n: nat)
      requires Valid() && n <= lookaheadSize
      modifies this`lookaheadPos, this`lookaheadSize, this`dictSize
      ensures Valid() && lookaheadSize == old(lookaheadSize) - n
      ensures dictSize == Min(old(dictSize) + n, DICT_SIZE)
    {
      hide HoldsWindow;
      WrapAdd(Pos(), n);
      lookaheadPos := (lookaheadPos + n) % U32;
      lookaheadSize := lookaheadSize - n;
      dictSize := Min(dictSize + n, DICT_SIZE);
    }

    /** A full flush forgets the history and the hash chains. */
    method Forget()
      requires Valid() && lookaheadSize == 0
      modifies this`dictSize, this`mark, this`clear, next, hash
      ensures Valid() && dictSize == 0 && mark == |stream| && clear
    {
      hide HoldsWindow, Linked;
      for i := 0 to DICT_SIZE
        modifies next, hash
        invariant forall k :: 0 <= k < i ==> hash[k] == 0
      {
        hash[i] := 0;
        next[i] := 0;
      }
      dictSize, mark, clear := 0, |stream|, true;
      NothingLinked(next[..], hash[..], stream, mark);
    }
  }

  /** The hash of two bytes, ready for a third. */
  ghost predicate Rolls(h: nat, a: byte, b: byte) {
    forall c: byte :: Xor(h * 32, c) % DICT_SIZE == Hash3(a, b, c)
  }

  lemma RollsFirst(stream: Bytes, p: nat, h: nat)
    requires p + 2 <= |stream| && h == Xor(stream[p] as nat * 32, stream[p + 1])
    ensures Rolls(h, stream[p], stream[p + 1])
  {
    hide Xor;
  }

  lemma RollsOn(stream: Bytes, p: nat, c: byte)
    requires p + 2 < |stream| && c == stream[p + 2]
    ensures Hash3(stream[p], stream[p + 1], c) == HashAt(stream, p) < DICT_SIZE
    ensures Rolls(HashAt(stream, p), stream[p + 1], c)
  {
    hide Xor;
    HashInRange(stream, p);
    hide Hash3;
    forall d: byte
      ensures Xor(HashAt(stream, p) * 32, d) % DICT_SIZE == Hash3(stream[p + 1], c, d)
    {
      HashRolls(stream[p], stream[p + 1], c, d);
    }
  }

  lemma NextWrap(p: nat)
    ensures (p % U32 + 1) % U32 == (p + 1) % U32 && (p % U32 + 1) % DICT_SIZE == (p + 1) % DICT_SIZE
  {
    WrapAdd(p, 1);
    EndSlot(p, 1);
  }

  /** A position k before the end of the lookahead. */
  lemma EndWrap(pos: nat, size: nat, k: nat)
    requires k <= pos + size
    ensures (pos % U32 + size - k) % U32 == (pos + size - k) % U32
  {
    DivModOf(pos, U32);
    ModAddMul(pos % U32 + size - k, pos / U32, U32);
  }

  lemma EndSlot(pos: nat, size: nat)
    ensures (pos % U32 + size) % DICT_SIZE == (pos + size) % DICT_SIZE
  {
    DivModOf(pos, U32);
    var q := pos / U32;
    assert pos + size == pos % U32 + size + (q * 131072) * DICT_SIZE;
    ModAddMul(pos % U32 + size, q * 131072, DICT_SIZE);
  }

  lemma WrapAdd(pos: nat, n: nat)
    ensures (pos % U32 + n) % U32 == (pos + n) % U32
  {
    DivModOf(pos, U32);
    ModAddMul(pos % U32 + n, pos / U32, U32);
  }
}
