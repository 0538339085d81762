/** What the decompressor makes of any input, bare or in the zlib wrapper, whole or cut short. */
module LaxWrapper {
  import opened Bits
  import opened Format
  import opened LaxFormat
  import opened Truncation
  import opened Completeness
  import opened Wrapper
  import opened Adler

  /** The output, and whether the checksum after it is the right one. */
  ghost function LaxUnwrap(s: Bits, zlib: bool, room: nat): (r: Answer<(Bytes, bool)>)
    ensures r.Read? ==> |r.val.0| <= room
    ensures r.Full? ==> |r.front| == room
  {
    if zlib && |s| < 16 then Short([])
    else if zlib && !HeaderAt(s) then Bad([])
    else
      var (out, e) :- LaxInflate(s, Start(zlib), [], room);
      if !zlib then Read((out, true), e)
      else
        var check := ReadBig(s, Align(e));
        if check.Got? then Read((out, check.val == Checksum(out)), check.next) else Short(out)
  }

  /** What is known of the answer for the front f of a stream that unwraps to q. */
  ghost predicate Unwraps(q: Parsed<Bytes>, n: nat, room: nat, a: Answer<(Bytes, bool)>) {
    q.Got? ==>
      match a
      case Read((v, ok), e) => ok && q == Got(v, e) && e <= n
      case Short(g) => q.next > n && g <= q.val
      case Full(g) => |q.val| > room && g == q.val[..room]
      case _ => false
  }

  /** Where a whole stream unwraps, the decompressor unwraps the same; from the front of it, it runs short unless there
      is no room. */
  lemma UnwrapFollows(s: Bits, f: Bits, zlib: bool, room: nat)
    requires f <= s
    ensures Unwraps(Unwrap(s, zlib), |f|, room, LaxUnwrap(f, zlib, room))
  {
    hide Inflate, LaxInflate, Checksum, Val, ReadBig, Align;
    InflateFollows(s, f, Start(zlib), [], room);
    HeaderFollows(s, f);
    var i := Inflate(s, Start(zlib), []);
    if i.Got? {
      BigFollows(s, f, Align(i.next));
    }
  }

  /** With complete codes, an input taken for a whole stream is one exactly when it has no reserved symbol. */
  lemma UnwrapExactly(s: Bits, zlib: bool, room: nat)
    requires var a := LaxUnwrap(s, zlib, room); a.Read? && a.val.1
    requires CompleteStream(s, Start(zlib), [], room)
    ensures var a, q := LaxUnwrap(s, zlib, room), Unwrap(s, zlib);
            if PlainStream(s, Start(zlib), [], room) then q == Got(a.val.0, a.next) else q == Fail
  {
    hide Inflate, LaxInflate, Checksum, Val, ReadBig, Align, CompleteStream, PlainStream;
    InflateExactly(s, Start(zlib), [], room);
  }

  lemma HeaderFollows(s: Bits, f: Bits)
    requires f <= s
    ensures |f| >= 16 ==> (HeaderAt(f) <==> HeaderAt(s))
  {
    hide Val;
    if |f| >= 16 {
      assert f[0..8] == s[0..8] && f[8..16] == s[8..16];
    }
  }

  lemma BigFollows(s: Bits, f: Bits, p: nat)
    requires f <= s
    ensures var q, a := ReadBig(s, p), ReadBig(f, p);
            q.Got? ==> q.next == p + 32 && if q.next <= |f| then a == q else a.Fail?
  {
    hide Val;
    BitsFollow(s, f, p, 8);
    BitsFollow(s, f, p + 8, 8);
    BitsFollow(s, f, p + 16, 8);
    BitsFollow(s, f, p + 24, 8);
  }

  /** The input's bits are the front of the bits of any input it is the front of. */
  lemma FrontBits(input: Bytes, whole: Bytes)
    requires input <= whole
    ensures BytesBits(input) <= BytesBits(whole)
  {
    BytesBitsConcat(input, whole[|input|..]);
    assert input + whole[|input|..] == whole;
  }
}
