/** Run-length coding of code lengths in a dynamic block header (the RLE loop of tdefl_start_dynamic_block). */
module CodeLengthRle {
  import opened Arith
  import opened Canonical
  import opened Format
  import opened Encoding
  import opened CodeCost
  import opened TokenCounts

  /** The packed form: a repeat symbol is followed by its extra count. */
  function PackedBytes(ops: seq<ClOp>): seq<nat> {
    if ops == [] then []
    else
      var op := ops[|ops| - 1];
      PackedBytes(ops[..|ops| - 1]) + (if op.sym >= 16 then [op.sym, op.extra] else [op.sym])
  }

  lemma AppendOp(ops: seq<ClOp>, op: ClOp)
    requires ExpandOps(ops).Got? && OpOk(ExpandOps(ops).val, op)
    ensures ExpandOps(ops + [op]).Got?
    ensures ExpandOps(ops + [op]).val == ApplyOp(ExpandOps(ops).val, op)
    ensures PackedBytes(ops + [op]) == PackedBytes(ops) + (if op.sym >= 16 then [op.sym, op.extra] else [op.sym])
  {
    assert (ops + [op])[..|ops|] == ops;
  }

  /** What has been fed in: the lengths already packed, then a pending run of zeros or of repeats. */
  ghost predicate Fed(ops: seq<ClOp>, done: Lens, z: nat, rep: nat, prev: nat) {
    && ExpandOps(ops).Got?
    && done == ExpandOps(ops).val + Rep(0, z) + Rep(prev, rep)
    && (z == 0 || (rep == 0 && prev == 0))
    && (done == [] <==> prev == 255)
    && (prev != 255 ==> done[|done| - 1] == prev)
    && (rep > 0 ==> prev != 0)
    && (prev != 0 && prev != 255 ==> ExpandOps(ops).val != [] && ExpandOps(ops).val[|ExpandOps(ops).val| - 1] == prev)
    && (prev == 255 || prev <= 15)
  }

  /** Every operation so far is well formed and counted. */
  ghost predicate OpsTallied(ops: seq<ClOp>, counts: seq<nat>) {
    && |counts| == 19 && Sum(counts) == |ops|
    && forall i :: 0 <= i < |ops| ==> ops[i].sym <= 18 && counts[ops[i].sym] > 0
  }

  lemma TallyOp(ops: seq<ClOp>, counts: seq<nat>, op: ClOp)
    requires OpsTallied(ops, counts) && op.sym <= 18
    ensures OpsTallied(ops + [op], counts[op.sym := counts[op.sym] + 1])
  {
    SumBump(counts, op.sym);
    assert Bump(counts, op.sym) == counts[op.sym := counts[op.sym] + 1];
  }

  lemma RepSplit(v: nat, k: nat)
    requires k > 0
    ensures Rep(v, k) == Rep(v, 1) + Rep(v, k - 1) == Rep(v, k - 1) + Rep(v, 1)
    ensures Rep(v, 1) == [v]
  {
  }

  /** One pending copy is packed as a plain length. */
  lemma PackPlain(ops: seq<ClOp>, done: Lens, z: nat, rep: nat, prev: nat)
    requires Fed(ops, done, z, rep, prev) && z + rep > 0
    ensures var op := ClOp(if z > 0 then 0 else prev, 0);
            ExpandOps(ops).Got? && OpOk(ExpandOps(ops).val, op)
            && Fed(ops + [op], done, if z > 0 then z - 1 else z, if z > 0 then rep else rep - 1, prev)
  {
    hide ExpandOps, PackedBytes, Pow2;
    var op := ClOp(if z > 0 then 0 else prev, 0);
    var v := ExpandOps(ops).val;
    AppendOp(ops, op);
    if z > 0 {
      RepSplit(0, z);
      assert Rep(prev, rep) == [];
      assert v + (Rep(0, 1) + Rep(0, z - 1)) == v + Rep(0, 1) + Rep(0, z - 1);
    } else {
      RepSplit(prev, rep);
      assert Rep(0, z) == [];
      assert v + (Rep(prev, 1) + Rep(prev, rep - 1)) == v + Rep(prev, 1) + Rep(prev, rep - 1);
    }
  }

  /** A whole pending run is packed as one repeat. */
  lemma PackRun(ops: seq<ClOp>, done: Lens, z: nat, rep: nat, prev: nat, op: ClOp)
    requires Fed(ops, done, z, rep, prev) && z + rep > 0
    requires z == 0 ==> op.sym == 16 && op.extra + 3 == rep <= 6
    requires z > 0 ==> (op.sym == 17 && op.extra + 3 == z <= 10) || (op.sym == 18 && op.extra + 11 == z <= 138)
    ensures ExpandOps(ops).Got? && OpOk(ExpandOps(ops).val, op)
    ensures Fed(ops + [op], done, 0, 0, prev)
  {
    Pow2Table();
    hide ExpandOps, PackedBytes, Pow2;
    AppendOp(ops, op);
    var v := ExpandOps(ops).val;
    if z > 0 {
      assert Rep(prev, rep) == [];
      assert done == v + Rep(0, z);
    } else {
      assert Rep(0, z) == [];
      assert done == v + Rep(prev, rep);
    }
  }

  /** A zero joins the pending zeros. */
  lemma FeedZero(ops: seq<ClOp>, done: Lens, z: nat, prev: nat)
    requires Fed(ops, done, z, 0, prev)
    ensures Fed(ops, done + [0], z + 1, 0, 0)
  {
    hide ExpandOps;
    RepSplit(0, z + 1);
    assert Rep(prev, 0) == [] && Rep(0, 0) == [];
    var v := ExpandOps(ops).val;
    assert v + (Rep(0, z) + [0]) == v + Rep(0, z) + [0];
  }

  /** A length equal to the previous one joins the pending repeats. */
  lemma FeedRepeat(ops: seq<ClOp>, done: Lens, rep: nat, prev: nat)
    requires Fed(ops, done, 0, rep, prev) && prev != 0 && prev != 255
    ensures Fed(ops, done + [prev], 0, rep + 1, prev)
  {
    hide ExpandOps;
    RepSplit(prev, rep + 1);
    var v := ExpandOps(ops).val;
    assert Rep(0, 0) == [];
    assert v + (Rep(prev, rep) + [prev]) == v + Rep(prev, rep) + [prev];
  }

  /** A new length is packed at once. */
  lemma FeedNew(ops: seq<ClOp>, done: Lens, prev: nat, size: nat)
    requires Fed(ops, done, 0, 0, prev) && 0 < size <= 15
    ensures ExpandOps(ops).Got? && OpOk(ExpandOps(ops).val, ClOp(size, 0))
    ensures Fed(ops + [ClOp(size, 0)], done + [size], 0, 0, size)
  {
    hide ExpandOps, PackedBytes;
    AppendOp(ops, ClOp(size, 0));
    assert Rep(0, 0) == [] && Rep(prev, 0) == [] && Rep(size, 0) == [];
  }

  class Packer {
    const packed: array<nat>
    const counts: array<nat>
    var numPacked: nat
    var zCount: nat
    var repCount: nat
    var prev: nat
    ghost var ops: seq<ClOp>
    ghost var fed: Lens

    ghost predicate Valid()
      reads this, packed, counts
    {
      && packed != counts && counts.Length == 19
      && Fed(ops, fed, zCount, repCount, prev)
      && OpsTallied(ops, counts[..])
      && numPacked + zCount + repCount <= |fed| && numPacked <= packed.Length
      && packed[..numPacked] == PackedBytes(ops)
      && |ops| <= numPacked
    }

    constructor (room: nat, c: array<nat>)
      requires c.Length == 19 && forall i :: 0 <= i < 19 ==> c[i] == 0
      ensures Valid() && fed == [] && packed.Length == room && counts == c && fresh(packed)
      ensures zCount == 0 && repCount == 0
    {
      packed := new nat[room](_ => 0);
      counts := c;
      numPacked, zCount, repCount, prev := 0, 0, 0, 255;
      ops, fed := [], [];
      new;
      SumZero(counts[..]);
    }

    /** Appends a plain length taken from a pending run. */
    method PutPlain()
      requires Valid() && zCount + repCount > 0 && |fed| <= packed.Length
      modifies this, packed, counts
      ensures Valid() && fed == old(fed) && prev == old(prev)
      ensures zCount == old(if zCount > 0 then zCount - 1 else 0)
      ensures repCount == old(if zCount > 0 then repCount else repCount - 1)
    {
      hide Fed, OpsTallied, PackedBytes, ExpandOps;
      FedFacts(ops, fed, zCount, repCount, prev);
      PackPlain(ops, fed, zCount, repCount, prev);
      var sym := if zCount > 0 then 0 else prev;
      AppendOp(ops, ClOp(sym, 0));
      TallyOp(ops, counts[..], ClOp(sym, 0));
      counts[sym] := counts[sym] + 1;
      packed[numPacked] := sym;
      numPacked := numPacked + 1;
      ops := ops + [ClOp(sym, 0)];
      if zCount > 0 {
        zCount := zCount - 1;
      } else {
        repCount := repCount - 1;
      }
    }

    /** Appends a repeat symbol and its extra count for the whole pending run. */
    method PutRun(sym: nat, extra: nat)
      requires Valid() && |fed| <= packed.Length && zCount + repCount >= 3
      requires zCount == 0 ==> sym == 16 && extra + 3 == repCount <= 6
      requires zCount > 0 ==> (sym == 17 && extra + 3 == zCount <= 10) || (sym == 18 && extra + 11 == zCount <= 138)
      modifies this, packed, counts
      ensures Valid() && fed == old(fed) && prev == old(prev) && zCount == 0 && repCount == 0
    {
      hide Fed, OpsTallied, PackedBytes, ExpandOps;
      var op := ClOp(sym, extra);
      PackRun(ops, fed, zCount, repCount, prev, op);
      AppendOp(ops, op);
      TallyOp(ops, counts[..], op);
      counts[sym] := counts[sym] + 1;
      packed[numPacked] := sym;
      packed[numPacked + 1] := extra;
      numPacked := numPacked + 2;
      zCount, repCount := 0, 0;
      ops := ops + [op];
    }

    /** TDEFL_RLE_PREV_CODE_SIZE. */
    method FlushRepeats()
      requires Valid() && zCount == 0 && repCount <= 6 && |fed| <= packed.Length
      modifies this, packed, counts
      ensures Valid() && fed == old(fed) && prev == old(prev) && zCount == 0 && repCount == 0
    {
      hide Fed, OpsTallied, PackedBytes;
      if repCount > 0 {
        if repCount < 3 {
          while repCount > 0
            invariant Valid() && fed == old(fed) && prev == old(prev) && zCount == 0
            decreases repCount
          {
            PutPlain();
          }
        } else {
          PutRun(16, repCount - 3);
        }
      }
    }

    /** TDEFL_RLE_ZERO_CODE_SIZE. */
    method FlushZeros()
      requires Valid() && repCount == 0 && zCount <= 138 && |fed| <= packed.Length
      modifies this, packed, counts
      ensures Valid() && fed == old(fed) && prev == old(prev) && zCount == 0 && repCount == 0
    {
      hide Fed, OpsTallied, PackedBytes;
      if zCount > 0 {
        if zCount < 3 {
          while zCount > 0
            invariant Valid() && fed == old(fed) && prev == old(prev) && repCount == 0
            decreases zCount
          {
            PutPlain();
          }
        } else if zCount <= 10 {
          PutRun(17, zCount - 3);
        } else {
          PutRun(18, zCount - 11);
        }
      }
    }

    /** One iteration of the packing loop. */
    method Feed(size: nat)
      requires Valid() && size <= 15 && |fed| < packed.Length && zCount < 138 && repCount < 6
      modifies this, packed, counts
      ensures Valid() && fed == old(fed) + [size] && zCount < 138 && repCount < 6
    {
      hide Fed, OpsTallied, PackedBytes, ExpandOps;
      FedFacts(ops, fed, zCount, repCount, prev);
      if size == 0 {
        if repCount > 0 {
          FlushRepeats();
        }
        FeedZero(ops, fed, zCount, prev);
        zCount := zCount + 1;
        fed := fed + [0];
        prev := 0;
        if zCount == 138 {
          FlushZeros();
        }
      } else {
        if zCount > 0 {
          FlushZeros();
        }
        if size != prev {
          FlushRepeats();
          FeedNew(ops, fed, prev, size);
          AppendOp(ops, ClOp(size, 0));
          TallyOp(ops, counts[..], ClOp(size, 0));
          counts[size] := counts[size] + 1;
          packed[numPacked] := size;
          numPacked := numPacked + 1;
          ops := ops + [ClOp(size, 0)];
          fed := fed + [size];
          prev := size;
        } else {
          FeedRepeat(ops, fed, repCount, prev);
          repCount := repCount + 1;
          fed := fed + [size];
          if repCount == 6 {
            FlushRepeats();
          }
        }
      }
    }

    /** The last pending run; afterwards the operations spell exactly the lengths fed in. */
    method Close()
      requires Valid() && zCount <= 138 && repCount <= 6 && |fed| <= packed.Length
      modifies this, packed, counts
      ensures Valid() && fed == old(fed)
      ensures ExpandOps(ops).Got? && ExpandOps(ops).val == fed
    {
      hide OpsTallied, PackedBytes, ExpandOps;
      FedFacts(ops, fed, zCount, repCount, prev);
      if repCount > 0 {
        FlushRepeats();
      } else {
        FlushZeros();
      }
      assert Rep(0, 0) == [] && Rep(prev, 0) == [];
    }
  }

  lemma FedFacts(ops: seq<ClOp>, fed: Lens, z: nat, rep: nat, prev: nat)
    requires Fed(ops, fed, z, rep, prev)
    ensures z == 0 || (rep == 0 && prev == 0)
    ensures z + rep <= |fed|
    ensures rep > 0 ==> 0 < prev <= 15
    ensures prev == 255 || prev <= 15
  {
  }
}
