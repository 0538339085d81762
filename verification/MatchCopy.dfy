/** The decompressor's copy of a match inside a flat output buffer, three bytes at a time where they all fit. */
module MatchCopy {
  import opened Arith
  import opened Bits
  import opened Format

  /** One byte of the copy. */
  lemma CopyOne(out: Bytes, dist: nat, len: nat, b: byte)
    requires 1 <= dist <= |out| && len > 0 && b == out[|out| - dist]
    ensures CopyBack(out, dist, len) == CopyBack(out + [b], dist, len - 1)
  {
  }

  method PutByte(out: array<byte>, o: nat, src: nat, ghost dist: nat, ghost len: nat)
    requires 1 <= dist <= o < out.Length && src == o - dist && len > 0
    modifies out
    ensures CopyBack(old(out[..o]), dist, len) == CopyBack(out[..o + 1], dist, len - 1)
  {
    hide CopyBack;
    ghost var prior := out[..o];
    out[o] := out[src];
    assert out[..o + 1] == prior + [prior[o - dist]];
    CopyOne(prior, dist, len, prior[o - dist]);
  }

  /** The resumable copy, byte by byte, until the match or the buffer ends. */
  method CopyBytewise(out: array<byte>, o: nat, dist: nat, len: nat) returns (full: bool, o': nat)
    requires 1 <= dist <= o <= out.Length
    modifies out
    ensures o' == Min(o + len, out.Length) && (full <==> o + len > out.Length)
    ensures out[..o'] == CopyBack(old(out[..o]), dist, o' - o)
  {
    hide CopyBack;
    ghost var want := Min(o + len, out.Length) - o;
    var counter, from := len, o;
    o' := o;
    while counter > 0
      invariant o <= o' <= o + want && o' - o + counter == len && from == o'
      invariant CopyBack(old(out[..o]), dist, want) == CopyBack(out[..o'], dist, want - (o' - o))
    {
      if o' >= out.Length {
        CopyNone(out[..o'], dist);
        return true, o';
      }
      PutByte(out, o', from - dist, dist, want - (o' - o));
      from := from + 1;
      o' := o' + 1;
      counter := counter - 1;
    }
    full := false;
    CopyNone(out[..o'], dist);
  }

  lemma CopyNone(out: Bytes, dist: nat)
    requires 1 <= dist <= |out|
    ensures CopyBack(out, dist, 0) == out
  {
  }

  /** The fast copy: three bytes a turn, then the one or two left over. */
  method CopyThrees(out: array<byte>, o: nat, dist: nat, len: nat) returns (o': nat)
    requires 1 <= dist <= o && o + len <= out.Length
    modifies out
    ensures o' == o + len && out[..o'] == CopyBack(old(out[..o]), dist, len)
  {
    hide CopyBack;
    var src: nat, counter: nat := o - dist, len;
    o' := o;
    while counter > 2
      invariant counter <= len && o' == o + (len - counter) && src == o' - dist
      invariant CopyBack(old(out[..o]), dist, len) == CopyBack(out[..o'], dist, counter)
    {
      PutByte(out, o', src, dist, counter);
      PutByte(out, o' + 1, src + 1, dist, counter - 1);
      PutByte(out, o' + 2, src + 2, dist, counter - 2);
      o', src, counter := o' + 3, src + 3, counter - 3;
    }
    if counter > 0 {
      PutByte(out, o', src, dist, counter);
      if counter > 1 {
        PutByte(out, o' + 1, src + 1, dist, counter - 1);
      }
      o' := o' + counter;
    }
    CopyNone(out[..o'], dist);
  }

  /** A match, as far as it fits. */
  method CopyMatch(out: array<byte>, o: nat, dist: nat, len: nat) returns (full: bool, o': nat)
    requires 1 <= dist <= o <= out.Length
    modifies out
    ensures o' == Min(o + len, out.Length) && (full <==> o + len > out.Length)
    ensures out[..o'] == CopyBack(old(out[..o]), dist, o' - o)
  {
    var src := o - dist;
    if Max(o, src) + len > out.Length {
      full, o' := CopyBytewise(out, o, dist, len);
    } else {
      full := false;
      o' := CopyThrees(out, o, dist, len);
    }
  }

  /** Every byte written repeats the byte dist before it, overlaps included. */
  lemma {:induction false} EachRepeats(out: Bytes, dist: nat, len: nat, i: nat)
    requires 1 <= dist <= |out| && i < |out| + len
    ensures var r := CopyBack(out, dist, len); r[i] == if i < |out| then out[i] else r[i - dist]
    decreases len
  {
    if len > 0 {
      EachRepeats(out + [out[|out| - dist]], dist, len - 1, i);
      if i == |out| {
        EachRepeats(out + [out[|out| - dist]], dist, len - 1, i - dist);
      }
    }
  }
}
