/** The decompressor's copy of a match when its output buffer is a ring, which a full buffer may interrupt. */
module RingCopy {
  import opened Arith
  import opened Bits
  import opened Format
  import opened MatchCopy

  /** The ring holds the last of the output, each byte in the slot of its position. */
  predicate HoldsLast(ring: seq<byte>, out: Bytes) {
    |ring| > 0 && forall p :: 0 <= p < |out| && |out| - |ring| <= p ==> ring[p % |ring|] == out[p]
  }

  lemma SlotsApart(p: nat, q: nat, n: nat)
    requires n > 0 && p < q < p + n
    ensures p % n != q % n
  {
    DivModOf(p, n);
    var r := p % n + (q - p);
    if r < n {
      DivModUnique(q, n, p / n, r);
    } else {
      DivModUnique(q, n, p / n + 1, r - n);
    }
  }

  /** The next byte takes the slot of the oldest. */
  lemma HoldsNext(ring: seq<byte>, out: Bytes, c: byte)
    requires HoldsLast(ring, out)
    ensures HoldsLast(ring[|out| % |ring| := c], out + [c])
  {
    var n := |ring|;
    forall p | 0 <= p < |out| + 1 && |out| + 1 - n <= p
      ensures ring[|out| % n := c][p % n] == (out + [c])[p]
    {
      if p < |out| {
        SlotsApart(p, |out|, n);
      }
    }
  }

  /** One byte of the copy: to slot o, from the slot dist before it. */
  method PutRing(ring: array<byte>, o: nat, src: nat, ghost dist: nat, ghost len: nat, ghost out: Bytes)
    returns (ghost out': Bytes)
    requires HoldsLast(ring[..], out) && 1 <= dist <= |out| && dist <= ring.Length && len > 0
    requires o < ring.Length && src < ring.Length
    requires o == |out| % ring.Length && src == (|out| - dist) % ring.Length
    modifies ring
    ensures HoldsLast(ring[..], out') && |out'| == |out| + 1
    ensures CopyBack(out, dist, len) == CopyBack(out', dist, len - 1)
  {
    hide CopyBack;
    ghost var c := out[|out| - dist];
    assert ring[..][(|out| - dist) % |ring[..]|] == c;
    HoldsNext(ring[..], out, c);
    CopyOne(out, dist, len, c);
    ring[o] := ring[src];
    out' := out + [c];
  }

  /** The copy byte by byte, source position masked, until the match is complete or the writable part is full. */
  method CopyMasked(ring: array<byte>, cur: nat, from: nat, end: nat, dist: nat, len: nat, ghost out: Bytes)
    returns (cur': nat, from': nat, counter: nat, ghost out': Bytes)
    requires HoldsLast(ring[..], out) && 1 <= dist <= |out| && dist <= ring.Length && cur <= end <= ring.Length
    requires (cur - |out|) % ring.Length == 0 && (from - |out|) % ring.Length == 0
    modifies ring
    ensures cur <= cur' <= end && cur' - cur == from' - from == len - counter && (counter == 0 || cur' == end)
    ensures HoldsLast(ring[..], out') && |out'| == |out| + (len - counter)
    ensures CopyBack(out', dist, counter) == CopyBack(out, dist, len)
    ensures (cur' - |out'|) % ring.Length == 0 && (from' - |out'|) % ring.Length == 0
  {
    hide CopyBack, HoldsLast;
    cur', from', counter, out' := cur, from, len, out;
    while counter > 0
      invariant counter <= len && cur <= cur' <= end && cur' - cur == from' - from == len - counter
      invariant HoldsLast(ring[..], out') && |out'| == |out| + (len - counter)
      invariant CopyBack(out', dist, counter) == CopyBack(out, dist, len)
      invariant (cur' - |out'|) % ring.Length == 0 && (from' - |out'|) % ring.Length == 0
    {
      if cur' >= end {
        return;
      }
      Slots(cur', from', |out'|, dist, ring.Length);
      out' := PutRing(ring, cur', (from' - dist) % ring.Length, dist, counter, out');
      cur', from', counter := cur' + 1, from' + 1, counter - 1;
    }
  }

  /** Where the copy writes and reads. */
  lemma Slots(cur: nat, from: nat, len: nat, dist: nat, n: nat)
    requires cur < n && dist <= len && (cur - len) % n == 0 && (from - len) % n == 0
    ensures cur == len % n && (from - dist) % n == (len - dist) % n && 0 <= (from - dist) % n < n
  {
    SameSlot(cur, len, n);
    DivModUnique(cur, n, 0, cur);
    DivModOf(from - len, n);
    ModAddMul(len - dist, (from - len) / n, n);
  }

  lemma SameSlot(at: nat, x: nat, n: nat)
    requires n > 0 && (at - x) % n == 0
    ensures at % n == x % n
  {
    DivModOf(at - x, n);
    ModAddMul(x, (at - x) / n, n);
  }

  /** Where source and destination do not wrap, three bytes a turn, then the one or two left over. */
  method CopyStraight(ring: array<byte>, cur: nat, src: nat, dist: nat, len: nat, ghost out: Bytes)
    returns (cur': nat, ghost out': Bytes)
    requires HoldsLast(ring[..], out) && 1 <= dist <= |out| && dist <= ring.Length
    requires cur + len <= ring.Length && src + len <= ring.Length
    requires len > 0 ==> cur == |out| % ring.Length && src == (|out| - dist) % ring.Length
    modifies ring
    ensures cur' == cur + len && HoldsLast(ring[..], out') && out' == CopyBack(out, dist, len)
  {
    hide CopyBack, HoldsLast;
    var counter: nat := len;
    cur', out' := cur, out;
    while counter > 2
      invariant counter <= len && cur' == cur + (len - counter)
      invariant HoldsLast(ring[..], out') && |out'| == |out| + (len - counter)
      invariant CopyBack(out', dist, counter) == CopyBack(out, dist, len)
    {
      out' := PutStraight(ring, cur, src, dist, len, counter, |out|, out');
      out' := PutStraight(ring, cur, src, dist, len, counter - 1, |out|, out');
      out' := PutStraight(ring, cur, src, dist, len, counter - 2, |out|, out');
      cur', counter := cur' + 3, counter - 3;
    }
    if counter > 0 {
      out' := PutStraight(ring, cur, src, dist, len, counter, |out|, out');
      if counter > 1 {
        out' := PutStraight(ring, cur, src, dist, len, counter - 1, |out|, out');
      }
      cur' := cur' + counter;
    }
    CopyNone(out', dist);
  }

  /** The byte of a straight copy with left bytes still to copy. */
  method PutStraight(ring: array<byte>, cur: nat, src: nat, dist: nat, len: nat, left: nat, ghost n: nat,
      ghost out: Bytes)
    returns (ghost out': Bytes)
    requires HoldsLast(ring[..], out) && 1 <= dist <= n && dist <= ring.Length && 0 < left <= len
    requires cur + len <= ring.Length && src + len <= ring.Length && |out| == n + (len - left)
    requires cur == n % ring.Length && src == (n - dist) % ring.Length
    modifies ring
    ensures HoldsLast(ring[..], out') && |out'| == |out| + 1
    ensures CopyBack(out, dist, left) == CopyBack(out', dist, left - 1)
  {
    hide CopyBack, HoldsLast;
    StraightSlot(n, len - left, ring.Length);
    StraightSlot(n - dist, len - left, ring.Length);
    out' := PutRing(ring, cur + (len - left), src + (len - left), dist, left, out);
  }

  lemma StraightSlot(x: nat, i: nat, n: nat)
    requires n > 0 && x % n + i < n
    ensures (x + i) % n == x % n + i
  {
    DivModOf(x, n);
    DivModUnique(x + i, n, x / n, x % n + i);
  }

  /** A match in a ring: byte by byte with masks where either side meets the end of the writable part. */
  method CopyMatch(ring: array<byte>, cur: nat, end: nat, dist: nat, len: nat, ghost out: Bytes)
    returns (cur': nat, from: nat, counter: nat, ghost out': Bytes)
    requires HoldsLast(ring[..], out) && 1 <= dist <= |out| && dist <= ring.Length && cur <= end <= ring.Length
    requires (cur - |out|) % ring.Length == 0
    modifies ring
    ensures cur <= cur' <= end && cur' - cur == len - counter && (counter == 0 || cur' == end)
    ensures HoldsLast(ring[..], out') && |out'| == |out| + (len - counter)
    ensures CopyBack(out', dist, counter) == CopyBack(out, dist, len)
    ensures (cur' - |out'|) % ring.Length == 0 && (counter > 0 ==> (from - |out'|) % ring.Length == 0)
  {
    hide CopyBack, HoldsLast;
    var src := (cur - dist) % ring.Length;
    if Max(cur, src) + len > end {
      cur', from, counter, out' := CopyMasked(ring, cur, cur, end, dist, len, out);
    } else {
      from, counter := cur, 0;
      if cur < ring.Length {
        Slots(cur, cur, |out|, dist, ring.Length);
      }
      cur', out' := CopyStraight(ring, cur, src, dist, len, out);
      CopyNone(out', dist);
    }
  }

  /** From the end of the ring the writing goes on at its start. */
  lemma StartAgain(x: int, n: nat)
    requires n > 0 && (n - x) % n == 0
    ensures (0 - x) % n == 0
  {
    ModAddMul(n - x, -1, n);
  }

  /** Interrupted and resumed with the rest of the ring writable again, the copy is one match. */
  method CopyResumed(ring: array<byte>, cur: nat, end: nat, dist: nat, len: nat, ghost out: Bytes)
    returns (cur': nat, ghost out': Bytes)
    requires HoldsLast(ring[..], out) && 1 <= dist <= |out| && dist <= ring.Length && cur <= end <= ring.Length
    requires (cur - |out|) % ring.Length == 0 && 0 < end
    modifies ring
    ensures cur' <= ring.Length && HoldsLast(ring[..], out') && out' == CopyBack(out, dist, len)
    ensures (cur' - |out'|) % ring.Length == 0
  {
    hide CopyBack, HoldsLast;
    var from: nat, counter: nat;
    cur', from, counter, out' := CopyMatch(ring, cur, end, dist, len, out);
    while counter > 0
      invariant cur' <= ring.Length && HoldsLast(ring[..], out') && |out'| >= |out|
      invariant CopyBack(out', dist, counter) == CopyBack(out, dist, len)
      invariant (cur' - |out'|) % ring.Length == 0 && (counter > 0 ==> (from - |out'|) % ring.Length == 0)
    {
      if cur' == ring.Length {
        StartAgain(|out'|, ring.Length);
        cur' := 0;
      }
      cur', from, counter, out' := CopyMasked(ring, cur', from, ring.Length, dist, counter, out');
    }
    CopyNone(out', dist);
  }
}
