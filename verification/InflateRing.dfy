/** mz_inflate around the decompressor: a ring that the decompressor writes and the caller drains. */
module InflateRing {
  import opened Arith
  import opened Bits
  import opened RingCopy

  const RING_SIZE := 32768

  /** The decompressor's status; Failed stands for every negative one. */
  datatype Status = NeedsMoreInput | HasMoreOutput | Finished | Failed

  datatype Flush = NoFlush | SyncFlush | Finish

  datatype Answer = Ok | StreamEnd | StreamError | DataError | BufError

  /** What one call of the decompressor does: the input it reads, the bytes it writes, its status. */
  datatype Turn = Turn(used: nat, piece: Bytes, status: Status)

  /** It stays within its buffers, asks for input only when it has read all and may expect more, and for room only when
      it has filled all. */
  predicate Legal(t: Turn, availIn: nat, room: nat, more: bool) {
    && t.used <= availIn && |t.piece| <= room
    && (t.status == NeedsMoreInput ==> t.used == availIn && more)
    && (t.status == HasMoreOutput ==> |t.piece| == room)
  }

  /** Any decompressor: its k-th call, given input, room, and whether more input may follow. */
  type Decoder = (nat, nat, nat, bool) -> Turn

  ghost predicate Honest(d: Decoder) {
    forall k, availIn, room, more :: Legal(d(k, availIn, room, more), availIn, room, more)
  }

  lemma WrapStep(pos: nat, n: nat)
    ensures (pos % RING_SIZE + n) % RING_SIZE == (pos + n) % RING_SIZE
  {
  }

  /** Past n of the bytes waiting; past the ring's end there are none. */
  lemma WrapRest(ofs: nat, avail: nat, n: nat)
    requires ofs < RING_SIZE && n <= avail && ofs + avail <= RING_SIZE
    ensures (ofs + n) % RING_SIZE + (avail - n) <= RING_SIZE
    ensures n < avail ==> (ofs + n) % RING_SIZE == ofs + n
  {
  }

  lemma SplitWaiting(sent: Bytes, waiting: Bytes, n: nat)
    requires n <= |waiting|
    ensures sent + waiting[..n] + waiting[n..] == sent + waiting
  {
  }

  method CopyOut(src: array<byte>, from: nat, n: nat, dst: array<byte>, ofs: nat)
    requires from + n <= src.Length && ofs + n <= dst.Length && src != dst
    modifies dst
    ensures dst[..ofs] == old(dst[..ofs]) && dst[ofs..ofs + n] == src[from..from + n]
  {
    for i := 0 to n
      invariant dst[..ofs] == old(dst[..ofs]) && dst[ofs..ofs + i] == src[from..from + i]
    {
      dst[ofs + i] := src[from + i];
    }
  }

  /** What the caller is told after the last turn. */
  function AfterTurns(status: Status, availIn: nat, left: nat, finish: bool): Answer {
    if status == Failed then DataError
    else if status == NeedsMoreInput && availIn == 0 then BufError
    else if status == Finished && left == 0 then StreamEnd
    else if finish then BufError
    else Ok
  }

  class Inflater {
    const dict: array<byte>
    var dictOfs: nat
    var dictAvail: nat
    var lastStatus: Status
    var firstCall: bool
    var hasFlushed: bool
    var calls: nat
    /** Everything the decompressor has written, what the caller has got of it, and whether it goes through the ring. */
    ghost var produced: Bytes
    ghost var delivered: Bytes
    ghost var ringed: bool

    constructor ()
      ensures Ready() && fresh(dict) && produced == delivered == [] && firstCall && ringed
    {
      dict := new byte[RING_SIZE];
      dictOfs, dictAvail, lastStatus, firstCall, hasFlushed, calls := 0, 0, NeedsMoreInput, true, false, 0;
      produced, delivered, ringed := [], [], true;
    }

    ghost function Pending(): Bytes
      reads `dictOfs, `dictAvail, dict
      requires dictOfs + dictAvail <= dict.Length
    {
      dict[dictOfs..dictOfs + dictAvail]
    }

    /** Delivered and pending bytes are those produced, in order, and the ring holds the last of them. */
    ghost predicate Valid()
      reads `dictOfs, `dictAvail, `produced, `delivered, `ringed, dict
    {
      && dict.Length == RING_SIZE && dictOfs < RING_SIZE && dictOfs + dictAvail <= RING_SIZE
      && delivered + Pending() == produced
      && (ringed ==> HoldsLast(dict[..], produced) && dictOfs == |delivered| % RING_SIZE)
    }

    /** Between calls; before the first one nothing has been written. */
    ghost predicate Ready()
      reads `dictOfs, `dictAvail, `produced, `delivered, `ringed, `firstCall, dict
    {
      Valid() && (firstCall ==> produced == [] && dictAvail == 0)
    }

    /** Hands over what is pending, as far as the caller's buffer reaches. */
    method HandOut(out: array<byte>, ofs: nat) returns (ofs': nat)
      requires Valid() && ofs <= out.Length && out != dict
      modifies this`dictOfs, this`dictAvail, this`delivered, out
      ensures Valid() && ofs' == ofs + Min(old(dictAvail), out.Length - ofs) && out[..ofs] == old(out[..ofs])
      ensures delivered == old(delivered) + out[ofs..ofs'] && dictAvail == old(dictAvail) - (ofs' - ofs)
    {
      hide HoldsLast;
      ghost var from := dictOfs;
      var n: nat := Min(dictAvail, out.Length - ofs);
      ghost var waiting := Pending();
      assert waiting[..n] == dict[dictOfs..dictOfs + n];
      CopyOut(dict, dictOfs, n, out, ofs);
      assert out[ofs..ofs + n] == waiting[..n];
      SplitWaiting(delivered, waiting, n);
      WrapStep(|delivered|, n);
      WrapRest(dictOfs, dictAvail, n);
      dictAvail := dictAvail - n;
      dictOfs := (dictOfs + n) % RING_SIZE;
      delivered := delivered + waiting[..n];
      ofs' := ofs + n;
      assert dictAvail > 0 ==> dictOfs == from + n;
      assert Pending() == waiting[n..];
    }

    /** The decompressor writes into the ring from the position reached on. */
    method Write(piece: Bytes)
      requires Valid() && dictAvail == 0 && |piece| <= RING_SIZE - dictOfs
      modifies dict, this`dictAvail, this`produced
      ensures Valid() && dictAvail == |piece| && produced == old(produced) + piece
    {
      hide HoldsLast;
      ghost var was := produced;
      assert Pending() == [] && delivered == was;
      for i := 0 to |piece|
        invariant dict[dictOfs..dictOfs + i] == piece[..i]
        invariant ringed ==> HoldsLast(dict[..], was + piece[..i])
      {
        if ringed {
          WrapStep(|was|, i);
          HoldsNext(dict[..], was + piece[..i], piece[i]);
          assert was + piece[..i] + [piece[i]] == was + piece[..i + 1];
        }
        dict[dictOfs + i] := piece[i];
      }
      assert piece[..|piece|] == piece;
      dictAvail := |piece|;
      produced := was + piece;
    }

    /** A finishing first call: the decompressor writes straight into the caller's buffer. */
    method InflateAtOnce(availIn: nat, out: array<byte>, decode: Decoder) returns (a: Answer, used: nat, n: nat)
      requires Valid() && produced == [] && dictAvail == 0 && out != dict && Honest(decode)
      modifies this`lastStatus, this`calls, this`produced, this`delivered, this`ringed, out
      ensures Valid() && used <= availIn && n <= out.Length && dictAvail == 0
      ensures delivered == produced == out[..n]
      ensures if lastStatus == Finished then a == StreamEnd
              else lastStatus == Failed && (a == DataError || a == BufError)
    {
      hide HoldsLast;
      var t := decode(calls, availIn, out.Length, false);
      calls, lastStatus, ringed := calls + 1, t.status, false;
      for i := 0 to |t.piece|
        modifies out
        invariant out[..i] == t.piece[..i]
      {
        out[i] := t.piece[i];
      }
      used, n := t.used, |t.piece|;
      produced, delivered := t.piece, t.piece;
      if t.status == Failed {
        a := DataError;
      } else if t.status != Finished {
        lastStatus := Failed;
        a := BufError;
      } else {
        a := StreamEnd;
      }
    }

    /** One turn of the loop: the decompressor fills the ring, the caller takes what it has room for. */
    method TakeTurn(availIn: nat, out: array<byte>, ofs: nat, more: bool, decode: Decoder)
      returns (used: nat, ofs': nat)
      requires Valid() && dictAvail == 0 && ofs <= out.Length && out != dict && Honest(decode)
      modifies this`dictOfs, this`dictAvail, this`lastStatus, this`calls, this`produced, this`delivered, dict, out
      ensures Valid() && used <= availIn && ofs <= ofs' <= out.Length && out[..ofs] == old(out[..ofs])
      ensures delivered == old(delivered) + out[ofs..ofs'] && old(produced) <= produced
      ensures dictAvail > 0 ==> ofs' == out.Length
      ensures lastStatus == NeedsMoreInput ==> used == availIn && more
      ensures lastStatus == HasMoreOutput && ofs < out.Length ==> ofs < ofs'
    {
      var t := decode(calls, availIn, RING_SIZE - dictOfs, more);
      assert Legal(t, availIn, RING_SIZE - dictOfs, more);
      calls, lastStatus := calls + 1, t.status;
      Write(t.piece);
      ofs' := HandOut(out, ofs);
      used := t.used;
    }

    /** Turns until the stream ends, the input is read, the buffer is full, or something is wrong. */
    method TakeTurns(availIn: nat, out: array<byte>, finish: bool, decode: Decoder)
      returns (a: Answer, used: nat, n: nat)
      requires Valid() && dictAvail == 0 && out != dict && Honest(decode)
      modifies this`dictOfs, this`dictAvail, this`lastStatus, this`calls, this`produced, this`delivered, dict, out
      ensures Valid() && used <= availIn && n <= out.Length
      ensures delivered == old(delivered) + out[..n] && old(produced) <= produced
      ensures a == AfterTurns(lastStatus, availIn, dictAvail, finish)
      ensures a == Ok && n < out.Length ==> used == availIn && dictAvail == 0
    {
      hide Inflater.Valid, Honest;
      used, n := 0, 0;
      while true
        invariant Valid() && dictAvail == 0 && used <= availIn && n <= out.Length
        invariant delivered == old(delivered) + out[..n] && old(produced) <= produced
        decreases out.Length - n
      {
        ghost var at, got := n, out[..n];
        var read;
        read, n := TakeTurn(availIn - used, out, n, !finish, decode);
        used := used + read;
        assert out[..n] == got + out[at..n];
        if lastStatus == Failed {
          return DataError, used, n;
        } else if lastStatus == NeedsMoreInput && availIn == 0 {
          return BufError, used, n;
        } else if finish {
          if lastStatus == Finished {
            return if dictAvail > 0 then BufError else StreamEnd, used, n;
          } else if n == out.Length {
            return BufError, used, n;
          }
        } else if lastStatus == Finished || used == availIn || n == out.Length || dictAvail > 0 {
          break;
        }
      }
      a := if lastStatus == Finished && dictAvail == 0 then StreamEnd else Ok;
    }

    /** mz_inflate. */
    method Inflate(availIn: nat, out: array<byte>, flush: Flush, decode: Decoder) returns (a: Answer, used: nat, n: nat)
      requires Ready() && out != dict && Honest(decode)
      modifies this, dict, out
      ensures Ready() && used <= availIn && n <= out.Length && !firstCall
      ensures delivered == old(delivered) + out[..n] && old(produced) <= produced
      ensures old(lastStatus) == Failed ==> a == DataError
      ensures a == StreamError <==> old(lastStatus != Failed && hasFlushed && flush != Finish)
      ensures a != StreamError ==> (a == StreamEnd <==> lastStatus == Finished && dictAvail == 0)
      ensures a == StreamEnd ==> delivered == produced
      ensures a != StreamError && old(lastStatus) != Failed && old(dictAvail) > 0 ==> a == Ok || a == StreamEnd
      ensures a != StreamError && old(lastStatus) != Failed && old(dictAvail) == 0 &&
              !(flush == Finish && old(firstCall)) ==>
                a == AfterTurns(lastStatus, availIn, dictAvail, flush == Finish)
      ensures a == Ok && n < out.Length && old(dictAvail) == 0 ==> used == availIn && delivered == produced
      ensures old(dictAvail) > 0 ==> used == 0 && produced == old(produced)
    {
      hide HoldsLast;
      used, n := 0, 0;
      var first := firstCall;
      firstCall := false;
      assert out[..0] == [];
      if lastStatus == Failed {
        return DataError, 0, 0;
      }
      if hasFlushed && flush != Finish {
        return StreamError, 0, 0;
      }
      hasFlushed := hasFlushed || flush == Finish;
      if flush == Finish && first {
        a, used, n := InflateAtOnce(availIn, out, decode);
      } else if dictAvail > 0 {
        n := HandOut(out, 0);
        a := if lastStatus == Finished && dictAvail == 0 then StreamEnd else Ok;
      } else {
        a, used, n := TakeTurns(availIn, out, flush == Finish, decode);
      }
    }
  }
}
