/** Writing one compressed block (tdefl_start_dynamic_block, tdefl_start_static_block, tdefl_compress_lz_codes). */
module BlockEmitter {
  import opened Arith
  import opened Bits
  import opened Canonical
  import opened Format
  import opened Encoding
  import opened CodeCost
  import opened HuffTable
  import opened TokenCounts
  import opened BitWriter
  import opened TokenBuffer
  import opened CodeLengthRle
  import opened FixedCodes

  /** Puts the code of a symbol. */
  method PutSym(w: Writer, t: Table, sym: nat)
    requires w.Valid() && t.Valid() && t.Ready() && HasCode(t.sizes[..], sym)
    modifies w, w.buf
    ensures w.Valid() && w.Advanced()
    ensures w.emitted == old(w.emitted) + old(EncSym(t.sizes[..], sym))
  {
    hide Holds, RevCode, Count, NextCode, ToBits;
    EncSymVal(t.sizes[..], sym);
    w.PutBits(t.codes[sym], t.sizes[sym]);
  }

  /** Puts the n low bits of v. */
  method PutExtra(w: Writer, v: nat, n: nat)
    requires w.Valid() && n <= 16
    modifies w, w.buf
    ensures w.Valid() && w.Advanced()
    ensures w.emitted == old(w.emitted) + ToBits(v % Pow2(n), n)
  {
    w.PutBits(v % Pow2(n), n);
  }

  /** Puts one token: its symbols and extra bits. */
  method PutToken(w: Writer, tb: Tokens, t: Token)
    requires w.Valid() && tb.Shape() && tb.lit.Ready() && tb.dist.Ready()
    requires Coded(tb.lit.sizes[..], tb.dist.sizes[..], t)
    modifies w, w.buf
    ensures w.Valid() && w.Advanced()
    ensures w.emitted == old(w.emitted) + old(EncToken(tb.lit.sizes[..], tb.dist.sizes[..], t))
  {
    hide Holds, RevCode, ToBits, LenSym, DistSym, Decodable, EncSym, Pow2;
    match t
    case Literal(b) =>
      PutSym(w, tb.lit, b);
    case Match(len, dist) =>
      var m, d := len - 3, dist - 1;
      PutSym(w, tb.lit, LenSym(m));
      PutExtra(w, m, LenXBits(m));
      PutSym(w, tb.dist, DistSym(d));
      PutExtra(w, d, DistXBits(d));
  }

  /** Both tables can code every recorded token and the end of block. */
  ghost predicate Usable(tb: Tokens)
    requires tb.Shape()
    reads tb, tb.lit.sizes, tb.lit.codes, tb.dist.sizes, tb.dist.codes
  {
    && tb.lit.Ready() && tb.dist.Ready()
    && AllCoded(tb.lit.sizes[..], tb.dist.sizes[..], tb.tokens)
    && HasCode(tb.lit.sizes[..], 256)
  }

  /** tdefl_compress_lz_codes: reads the token buffer back and writes its codes. */
  method CompressLzCodes(w: Writer, tb: Tokens) returns (ok: bool)
    requires w.Valid() && tb.Packed() && Usable(tb) && w.buf != tb.buf
    modifies w, w.buf
    ensures w.Valid() && w.Advanced()
    ensures w.emitted == old(w.emitted) + old(EncBody(tb.lit.sizes[..], tb.dist.sizes[..], tb.tokens))
    ensures ok <==> w.cur < w.end
  {
    hide Holds, Decodable, Stored, AllFlagged, EncToken, EncSym, Coded, HasCode, TokensLength, EndPos, Reading, RevCode;
    ghost var ll, dl, ts := tb.lit.sizes[..], tb.dist.sizes[..], tb.tokens;
    var pos: nat, flags: nat := 0, 1;
    ghost var i: nat := 0;
    ReadingStart(tb.buf[..], ts);
    while pos < tb.codePos
      invariant 0 <= i <= |ts| && Reading(tb.buf[..], ts, pos, flags, i)
      invariant tb.Packed() && tb.tokens == ts && Usable(tb) && tb.lit.sizes[..] == ll && tb.dist.sizes[..] == dl
      invariant w.Valid() && w.Advanced()
      invariant w.emitted == old(w.emitted) + EncTokens(ll, dl, ts[..i])
      decreases |ts| - i
    {
      ReadingEnd(tb.buf[..], ts, pos, flags, i);
      var t: Token;
      t, pos, flags := tb.ReadToken(pos, flags, i);
      PutToken(w, tb, t);
      assert ts[..i + 1][..i] == ts[..i];
      ghost var e := old(w.emitted);
      assert e + (EncTokens(ll, dl, ts[..i]) + EncToken(ll, dl, t)) == e + EncTokens(ll, dl, ts[..i]) +
          EncToken(ll, dl, t);
      i := i + 1;
    }
    ReadingEnd(tb.buf[..], ts, pos, flags, i);
    assert ts[..|ts|] == ts;
    PutSym(w, tb.lit, 256);
    ok := w.cur < w.end;
  }

  lemma ReadingStart(buf: seq<byte>, ts: seq<Token>)
    requires EndPos(ts) <= |buf|
    ensures Reading(buf, ts, 0, 1, 0)
  {
  }

  /** The reader is before the end exactly while tokens remain. */
  lemma ReadingEnd(buf: seq<byte>, ts: seq<Token>, pos: nat, flags: nat, i: nat)
    requires Reading(buf, ts, pos, flags, i)
    ensures pos < EndPos(ts) <==> i < |ts|
  {
    if i < |ts| {
      FlagFits(ts, i);
    }
  }

  // ---- Static blocks.

  method Fill(a: array<nat>, from: nat, to: nat, v: nat)
    requires from <= to <= a.Length
    modifies a
    ensures forall i :: 0 <= i < a.Length ==> a[i] == if from <= i < to then v else old(a[i])
  {
    for i := from to to
      invariant forall k :: 0 <= k < a.Length ==> a[k] == if from <= k < i then v else old(a[k])
    {
      a[i] := v;
    }
  }

  /** tdefl_start_static_block. */
  method StartStatic(w: Writer, tb: Tokens)
    requires w.Valid() && tb.Packed() && w.buf != tb.buf
    modifies w, w.buf, tb.lit.sizes, tb.lit.codes, tb.dist.sizes, tb.dist.codes
    ensures w.Valid() && w.Advanced()
    ensures tb.Packed() && tb.lit.Ready() && tb.dist.Ready()
    ensures tb.lit.sizes[..] == FixedLit() && tb.dist.sizes[..] == FixedDist()
    ensures w.emitted == old(w.emitted) + ToBits(1, 2)
  {
    hide Holds, Decodable, Stored, AllFlagged, RevCode, TokensLength, EndPos, ToBits;
    Fill(tb.lit.sizes, 0, 144, 8);
    Fill(tb.lit.sizes, 144, 256, 9);
    Fill(tb.lit.sizes, 256, 280, 7);
    Fill(tb.lit.sizes, 280, 288, 8);
    Fill(tb.dist.sizes, 0, 32, 5);
    assert tb.lit.sizes[..] == FixedLit();
    assert tb.dist.sizes[..] == FixedDist();
    FixedDecodable();
    tb.lit.Optimize(15, true);
    tb.dist.Optimize(15, true);
    Pow2Table();
    w.PutBits(1, 2);
  }

  // ---- Dynamic blocks.

  /** The lengths were made from the token counts, the end of block counted once. */
  ghost predicate Measured(ts: seq<Token>, ll: Lens, dl: Lens) {
    && AllLegal(ts) && NearlyMinimal(LitCounts(ts)[256 := 1], ll) && NearlyMinimal(DistCounts(ts), dl)
  }

  /** Both Huffman tables from the counts. */
  method BuildTables(tb: Tokens)
    requires tb.Packed() && Tallied(tb.tokens, tb.lit.counts[..], tb.dist.counts[..]) && |tb.tokens| < 65535
    modifies tb.lit.counts, tb.lit.sizes, tb.lit.codes, tb.dist.sizes, tb.dist.codes
    ensures tb.Packed() && Usable(tb) && Measured(tb.tokens, tb.lit.sizes[..], tb.dist.sizes[..])
    ensures forall i :: 0 <= i < 288 ==> tb.lit.sizes[i] <= 15
    ensures forall i :: 0 <= i < 32 ==> tb.dist.sizes[i] <= 15
    ensures tb.lit.sizes[286] == 0 && tb.lit.sizes[287] == 0 && tb.dist.sizes[30] == 0 && tb.dist.sizes[31] == 0
  {
    hide Decodable, Stored, AllFlagged, RevCode, TokensLength, EndPos, Sum, AllCoded, LitCounts, DistCounts, AllLegal,
         NearlyMinimal;
    ghost var lc, dc := tb.lit.counts[..], tb.dist.counts[..];
    CountTotals(tb.tokens);
    SumBump(lc, 256);
    tb.lit.counts[256] := 1;
    assert tb.lit.counts[..] == Bump(lc, 256);
    Pow2Table();
    tb.lit.Optimize(15, false);
    tb.dist.Optimize(15, false);
    assert tb.dist.counts[..] == dc;
    CountedCoded(tb.tokens, tb.lit.sizes[..], tb.dist.sizes[..]);
  }

  /** The lengths up to the last used symbol, but at least lo of them. */
  method TrimZeros(sizes: array<nat>, hi: nat, lo: nat) returns (n: nat)
    requires lo <= hi <= sizes.Length
    ensures lo <= n <= hi && forall i :: n <= i < hi ==> sizes[i] == 0
  {
    n := hi;
    while n > lo && sizes[n - 1] == 0
      invariant lo <= n <= hi && forall i :: n <= i < hi ==> sizes[i] == 0
    {
      n := n - 1;
    }
  }

  /** The literal/length lengths and the distance lengths in one run. */
  method JoinLengths(lit: array<nat>, nl: nat, dist: array<nat>, nd: nat) returns (sizes: array<nat>)
    requires nl <= lit.Length && nd <= dist.Length && nl + nd <= 320
    requires forall i :: 0 <= i < lit.Length ==> lit[i] <= 15
    requires forall i :: 0 <= i < dist.Length ==> dist[i] <= 15
    ensures fresh(sizes) && sizes.Length == 320 && sizes[..nl + nd] == lit[..nl] + dist[..nd]
    ensures forall k :: 0 <= k < sizes.Length ==> sizes[k] <= 15
  {
    sizes := new nat[320](_ => 0);
    for i := 0 to nl
      invariant sizes[..i] == lit[..i] && forall k :: 0 <= k < sizes.Length ==> sizes[k] <= 15
    {
      sizes[i] := lit[i];
    }
    for i := 0 to nd
      invariant sizes[..nl] == lit[..nl] && sizes[nl..nl + i] == dist[..i]
      invariant forall k :: 0 <= k < sizes.Length ==> sizes[k] <= 15
    {
      sizes[nl + i] := dist[i];
    }
  }

  /** Run-length codes both length vectors, one after the other, counting code length symbols. */
  method PackLengths(lit: array<nat>, nl: nat, dist: array<nat>, nd: nat, counts: array<nat>) returns (packer: Packer)
    requires nl <= lit.Length && nd <= dist.Length && counts.Length == 19 && nl + nd <= 320
    requires counts != lit && counts != dist
    requires forall i :: 0 <= i < lit.Length ==> lit[i] <= 15
    requires forall i :: 0 <= i < dist.Length ==> dist[i] <= 15
    modifies counts
    ensures fresh(packer) && fresh(packer.packed) && packer.counts == counts && packer.Valid()
    ensures ExpandOps(packer.ops).Got? && ExpandOps(packer.ops).val == lit[..nl] + dist[..nd]
    ensures |packer.ops| <= 320
  {
    hide Fed, OpsTallied, PackedBytes, ExpandOps;
    var sizes := JoinLengths(lit, nl, dist, nd);
    ghost var all: Lens := lit[..nl] + dist[..nd];
    ClearCounts(counts);
    packer := new Packer(320, counts);
    for i := 0 to nl + nd
      invariant fresh(packer) && fresh(packer.packed) && packer.counts == counts && packer.packed.Length == 320
      invariant packer.packed != sizes && sizes[..nl + nd] == all
      invariant packer.Valid() && packer.fed == all[..i] && packer.zCount < 138 && packer.repCount < 6
      invariant forall k :: 0 <= k < sizes.Length ==> sizes[k] <= 15
      invariant lit[..nl] + dist[..nd] == all
    {
      packer.Feed(sizes[i]);
      assert all[i] == sizes[i];
    }
    packer.Close();
    assert all[..nl + nd] == all;
  }

  lemma {:induction false} PackedPrefix(ops: seq<ClOp>, k: nat)
    requires k < |ops|
    ensures |PackedBytes(ops[..k])| +
        (if ops[k].sym >= 16 then 2 else 1) == |PackedBytes(ops[..k + 1])| <= |PackedBytes(ops)|
    ensures PackedBytes(ops)[|PackedBytes(ops[..k])|] == ops[k].sym
    ensures ops[k].sym >= 16 ==> PackedBytes(ops)[|PackedBytes(ops[..k])| + 1] == ops[k].extra
    decreases |ops|
  {
    var r := ops[..|ops| - 1];
    assert ops[..k + 1][..k] == ops[..k];
    if k == |ops| - 1 {
      assert ops[..k + 1] == ops;
    } else {
      PackedPrefix(r, k);
      assert r[..k] == ops[..k] && r[..k + 1] == ops[..k + 1] && r[k] == ops[k];
    }
  }

  /** The packed code lengths, coded with the code length table. */
  method PutPacked(w: Writer, packed: array<nat>, num: nat, cl: Table, ghost ops: seq<ClOp>)
    requires w.Valid() && cl.Valid() && cl.Ready() && OpsCoded(cl.sizes[..], ops)
    requires num <= packed.Length && packed[..num] == PackedBytes(ops)
    requires forall i :: 0 <= i < |ops| ==>
        ops[i].sym <= 18 && (ops[i].sym >= 16 ==> ops[i].extra < Pow2(RepeatBits(ops[i].sym)))
    modifies w, w.buf
    ensures w.Valid() && w.Advanced()
    ensures w.emitted == old(w.emitted) + old(EncOps(cl.sizes[..], ops))
  {
    hide Holds, Decodable, RevCode, ToBits, EncSym, PackedBytes, EncOps, Pow2;
    var i: nat := 0;
    ghost var k: nat, c: Lens := 0, cl.sizes[..];
    EncOpsNone(c, ops[..0]);
    while i < num
      invariant k <= |ops| && i == |PackedBytes(ops[..k])|
      invariant packed[..num] == PackedBytes(ops) && cl.Ready() && cl.sizes[..] == c
      invariant w.Valid() && w.Advanced()
      invariant w.emitted == old(w.emitted) + EncOps(c, ops[..k])
      decreases num - i
    {
      PackedMore(ops, k);
      PackedPrefix(ops, k);
      var code: nat := packed[i];
      assert packed[..num][i] == ops[k].sym;
      i := i + 1;
      EncOpsStep(c, ops, k);
      ghost var e, a := old(w.emitted), EncOps(c, ops[..k]);
      PutSym(w, cl, code);
      if code >= 16 {
        assert packed[..num][i] == ops[k].extra;
        w.PutBits(packed[i], RepeatBits(code));
        i := i + 1;
        ConcatAssoc4(e, a, EncSym(c, code), ToBits(ops[k].extra, RepeatBits(code)));
      } else {
        assert EncOp(c, ops[k]) == EncSym(c, code);
        ConcatAssoc4(e, a, EncSym(c, code), []);
      }
      k := k + 1;
    }
    PackedMore(ops, k);
    assert ops[..k] == ops;
  }

  lemma ConcatAssoc4(e: Bits, a: Bits, b: Bits, c: Bits)
    ensures e + a + b + c == e + (a + (b + c))
    ensures e + a + b == e + (a + b)
  {
  }

  lemma EncOpsNone(cl: Lens, ops: seq<ClOp>)
    requires ops == []
    ensures EncOps(cl, ops) == [] && PackedBytes(ops) == []
  {
  }

  lemma EncOpsStep(cl: Lens, ops: seq<ClOp>, k: nat)
    requires OpsCoded(cl, ops) && k < |ops|
    ensures EncOps(cl, ops[..k + 1]) == EncOps(cl, ops[..k]) + EncOp(cl, ops[k])
  {
    assert ops[..k + 1][..k] == ops[..k];
  }

  /** Reading is before the end exactly while operations remain. */
  lemma PackedMore(ops: seq<ClOp>, k: nat)
    requires k <= |ops|
    ensures k < |ops| <==> |PackedBytes(ops[..k])| < |PackedBytes(ops)|
  {
    if k < |ops| {
      PackedPrefix(ops, k);
    } else {
      assert ops[..k] == ops;
    }
  }

  /** How many code length code lengths must be stored: up to the last used one in stored order, at least four. */
  method TrimClens(sizes: array<nat>) returns (n: nat)
    requires sizes.Length == 19
    ensures 4 <= n <= 19 && forall k :: n <= k < 19 ==> sizes[ClOrder(k)] == 0
  {
    var i := 18;
    while i >= 0 && sizes[ClOrder(i)] == 0
      invariant -1 <= i <= 18 && forall k :: i < k < 19 ==> sizes[ClOrder(k)] == 0
    {
      i := i - 1;
    }
    n := Max(4, i + 1);
  }

  method PutClens(w: Writer, sizes: array<nat>, n: nat)
    requires w.Valid() && sizes.Length == 19 && n <= 19 && forall k :: 0 <= k < 19 ==> sizes[k] < 8
    modifies w, w.buf
    ensures w.Valid() && w.Advanced()
    ensures w.emitted == old(w.emitted) + old(EncClens(sizes[..], n))
  {
    hide Holds, ToBits, ClOrder;
    Pow2Table();
    ghost var c: Lens := sizes[..];
    for i: nat := 0 to n
      invariant sizes[..] == c && w.Valid() && w.Advanced()
      invariant w.emitted == old(w.emitted) + EncClens(c, i)
    {
      ConcatAssoc4(old(w.emitted), EncClens(c, i), ToBits(c[ClOrder(i)], 3), []);
      w.PutBits(sizes[ClOrder(i)], 3);
    }
  }

  /** The header of a dynamic block after its type bits. */
  method PutHeader(w: Writer, nl: nat, nd: nat, cl: Table, n: nat, packed: array<nat>, num: nat, ghost ops: seq<ClOp>)
    requires w.Valid() && cl.Valid() && cl.Ready() && cl.sizes.Length == 19
    requires 257 <= nl < 289 && 1 <= nd < 33 && 4 <= n <= 19
    requires OpsCoded(cl.sizes[..], ops) && (forall k :: 0 <= k < 19 ==> cl.sizes[k] < 8)
    requires num <= packed.Length && packed[..num] == PackedBytes(ops)
    requires forall i :: 0 <= i < |ops| ==>
        ops[i].sym <= 18 && (ops[i].sym >= 16 ==> ops[i].extra < Pow2(RepeatBits(ops[i].sym)))
    modifies w, w.buf
    ensures w.Valid() && w.Advanced()
    ensures w.emitted == old(w.emitted) + old(EncTables(nl, nd, cl.sizes[..], n, ops))
  {
    hide Holds, ToBits, Decodable, RevCode, EncClens, EncOps, PackedBytes;
    Pow2Table();
    ghost var e, c := w.emitted, cl.sizes[..];
    w.PutBits(nl - 257, 5);
    w.PutBits(nd - 1, 5);
    w.PutBits(n - 4, 4);
    PutClens(w, cl.sizes, n);
    PutPacked(w, packed, num, cl, ops);
    ConcatFive(e, ToBits(nl - 257, 5), ToBits(nd - 1, 5), ToBits(n - 4, 4), EncClens(c, n), EncOps(c, ops));
  }

  lemma ConcatFive(e: Bits, a: Bits, b: Bits, c: Bits, d: Bits, f: Bits)
    ensures e + a + b + c + d + f == e + (a + (b + (c + (d + f))))
  {
  }

  /** The operations of the packer are well formed one by one. */
  lemma {:induction false} OpsWellFormed(ops: seq<ClOp>)
    requires ExpandOps(ops).Got?
    ensures forall i :: 0 <= i < |ops| ==>
        ops[i].sym <= 18 && (ops[i].sym >= 16 ==> ops[i].extra < Pow2(RepeatBits(ops[i].sym)))
  {
    hide Pow2, ApplyOp, RepeatBits;
    if ops != [] {
      OpsWellFormed(ops[..|ops| - 1]);
    }
  }

  /** Whatever follows, a block that carries these bits reads back as the expansion of these tokens. */
  ghost predicate BlockMeans(b: Bits, ts: seq<Token>) {
    forall s: Bits, p: nat, out: Bytes :: At(s, p, b) && AllFit(|out|, ts) ==>
      ReadBlock(s, p, out) == Got(Replay(out, ts), p + |b|)
  }

  lemma StaticMeans(ts: seq<Token>)
    requires AllCoded(FixedLit(), FixedDist(), ts) && HasCode(FixedLit(), 256)
    ensures BlockMeans(ToBits(1, 2) + EncBody(FixedLit(), FixedDist(), ts), ts)
  {
    hide At, ToBits, ReadBody, Decodable, FixedLit, FixedDist, AllCoded, AllFit, EncBody, Replay;
    FixedDecodable();
    Pow2Table();
    var b := EncBody(FixedLit(), FixedDist(), ts);
    forall s: Bits, p: nat, out: Bytes | At(s, p, ToBits(1, 2) + b) && AllFit(|out|, ts)
      ensures ReadBlock(s, p, out) == Got(Replay(out, ts), p + |ToBits(1, 2) + b|)
    {
      AtConcat(s, p, ToBits(1, 2), b);
      ReadBitsBack(s, p, 1, 2);
      ReadBodyBack(s, p + 2, FixedLit(), FixedDist(), ts, out);
    }
  }

  lemma DynamicMeans(ll: Lens, dl: Lens, cl: Lens, n: nat, ops: seq<ClOp>, ts: seq<Token>)
    requires TablesOk(ll, dl, cl, n, ops) && AllCoded(ll, dl, ts) && HasCode(ll, 256)
    ensures BlockMeans(ToBits(2, 2) + (EncTables(|ll|, |dl|, cl, n, ops) + EncBody(ll, dl, ts)), ts)
  {
    hide At, ToBits, ReadBody, ReadTables, Decodable, AllCoded, AllFit, EncBody, EncTables, Replay;
    Pow2Table();
    var h, b := EncTables(|ll|, |dl|, cl, n, ops), EncBody(ll, dl, ts);
    forall s: Bits, p: nat, out: Bytes | At(s, p, ToBits(2, 2) + (h + b)) && AllFit(|out|, ts)
      ensures ReadBlock(s, p, out) == Got(Replay(out, ts), p + |ToBits(2, 2) + (h + b)|)
    {
      AtConcat(s, p, ToBits(2, 2), h + b);
      AtConcat(s, p + 2, h, b);
      ReadBitsBack(s, p, 2, 2);
      ReadTablesBack(s, p + 2, ll, dl, cl, n, ops);
      ReadBodyBack(s, p + 2 + |h|, ll, dl, ts, out);
    }
  }

  /** Dropping unused symbols off the end of the tables changes no bits. */
  lemma TrimSym(lens: Lens, n: nat, s: nat)
    requires n <= |lens| && (forall i :: n <= i < |lens| ==> lens[i] == 0) && HasCode(lens, s)
    ensures HasCode(lens[..n], s) && EncSym(lens[..n], s) == EncSym(lens, s)
  {
    TrimCodes(lens, n);
  }

  lemma TrimToken(ll: Lens, nl: nat, dl: Lens, nd: nat, t: Token)
    requires nl <= |ll| && (forall i :: nl <= i < |ll| ==> ll[i] == 0)
    requires nd <= |dl| && (forall i :: nd <= i < |dl| ==> dl[i] == 0)
    requires Coded(ll, dl, t)
    ensures Coded(ll[..nl], dl[..nd], t) && EncToken(ll[..nl], dl[..nd], t) == EncToken(ll, dl, t)
  {
    hide EncSym, LenSym, DistSym, LenXBits, DistXBits, ToBits, Pow2;
    match t {
      case Literal(b) =>
        TrimSym(ll, nl, b);
      case Match(len, dist) =>
        TrimSym(ll, nl, LenSym(len - 3));
        TrimSym(dl, nd, DistSym(dist - 1));
    }
  }

  lemma {:induction false} TrimTokens(ll: Lens, nl: nat, dl: Lens, nd: nat, ts: seq<Token>)
    requires nl <= |ll| && (forall i :: nl <= i < |ll| ==> ll[i] == 0)
    requires nd <= |dl| && (forall i :: nd <= i < |dl| ==> dl[i] == 0)
    requires AllCoded(ll, dl, ts)
    ensures AllCoded(ll[..nl], dl[..nd], ts) && EncTokens(ll[..nl], dl[..nd], ts) == EncTokens(ll, dl, ts)
  {
    hide Coded, EncToken;
    forall i | 0 <= i < |ts|
      ensures Coded(ll[..nl], dl[..nd], ts[i])
    {
      TrimToken(ll, nl, dl, nd, ts[i]);
    }
    if ts != [] {
      TrimTokens(ll, nl, dl, nd, ts[..|ts| - 1]);
      TrimToken(ll, nl, dl, nd, ts[|ts| - 1]);
    }
  }

  /** The objects a block is written from and to do not overlap. */
  ghost predicate Apart(w: Writer, tb: Tokens, cl: Table)
    requires tb.Shape() && cl.Valid()
    reads w
  {
    && w.buf != tb.buf
    && cl.Parts() !! tb.Parts()
  }

  /** The code length table: every packed symbol gets a code of at most 7 bits. */
  method BuildClTable(cl: Table, ghost ops: seq<ClOp>)
    requires cl.Valid() && cl.counts.Length == 19 && OpsTallied(ops, cl.counts[..]) && |ops| <= 320
    modifies cl.sizes, cl.codes
    ensures cl.Ready() && OpsCoded(cl.sizes[..], ops) && forall k :: 0 <= k < 19 ==> cl.sizes[k] < 8
  {
    hide Decodable, RevCode, Sum;
    Pow2Table();
    cl.Optimize(7, false);
  }

  /** The trimmed lengths of both tables, packed, and the code length table that codes them. */
  method PrepareHeader(tb: Tokens, cl: Table) returns (nl: nat, nd: nat, n: nat, packer: Packer)
    requires tb.Shape() && tb.lit.Ready() && tb.dist.Ready() && cl.Valid() && cl.counts.Length == 19
    requires cl.Parts() !! tb.Parts()
    requires forall i :: 0 <= i < 288 ==> tb.lit.sizes[i] <= 15
    requires forall i :: 0 <= i < 32 ==> tb.dist.sizes[i] <= 15
    requires tb.lit.sizes[286] == 0 && tb.lit.sizes[287] == 0 && tb.dist.sizes[30] == 0 && tb.dist.sizes[31] == 0
    modifies cl.counts, cl.sizes, cl.codes
    ensures nl <= 288 && nd <= 32 && cl.Ready()
    ensures fresh(packer) && fresh(packer.packed) && packer.Valid() && |packer.ops| <= 320
    ensures TablesOk(tb.lit.sizes[..nl], tb.dist.sizes[..nd], cl.sizes[..], n, packer.ops)
    ensures forall i :: nl <= i < 288 ==> tb.lit.sizes[i] == 0
    ensures forall i :: nd <= i < 32 ==> tb.dist.sizes[i] == 0
  {
    hide Decodable, RevCode, Fed, OpsTallied, PackedBytes, ExpandOps, OpsCoded;
    nl := TrimZeros(tb.lit.sizes, 286, 257);
    nd := TrimZeros(tb.dist.sizes, 30, 1);
    packer := PackLengths(tb.lit.sizes, nl, tb.dist.sizes, nd, cl.counts);
    BuildClTable(cl, packer.ops);
    n := TrimClens(cl.sizes);
    TrimCodes(tb.lit.sizes[..], nl);
    TrimCodes(tb.dist.sizes[..], nd);
  }

  /** tdefl_start_dynamic_block: tables, packed lengths, header. */
  method StartDynamic(w: Writer, tb: Tokens, cl: Table) returns (nl: nat, nd: nat, n: nat, ghost ops: seq<ClOp>)
    requires w.Valid() && tb.Packed() && cl.Valid() && cl.counts.Length == 19 && Apart(w, tb, cl)
    requires Tallied(tb.tokens, tb.lit.counts[..], tb.dist.counts[..]) && |tb.tokens| < 65535
    modifies w, w.buf, tb.lit.counts, tb.lit.sizes, tb.lit.codes, tb.dist.sizes, tb.dist.codes
    modifies cl.counts, cl.sizes, cl.codes
    ensures w.Valid() && w.Advanced() && tb.Packed() && Usable(tb)
    ensures nl <= 288 && nd <= 32 && |ops| <= 320 && Measured(tb.tokens, tb.lit.sizes[..], tb.dist.sizes[..])
    ensures TablesOk(tb.lit.sizes[..nl], tb.dist.sizes[..nd], cl.sizes[..], n, ops)
    ensures forall i :: nl <= i < 288 ==> tb.lit.sizes[i] == 0
    ensures forall i :: nd <= i < 32 ==> tb.dist.sizes[i] == 0
    ensures w.emitted == old(w.emitted) + ToBits(2, 2) + EncTables(nl, nd, cl.sizes[..], n, ops)
  {
    hide Holds, Decodable, Stored, AllFlagged, RevCode, TokensLength, EndPos, ToBits, Tallied, AllCoded;
    hide Fed, OpsTallied, PackedBytes, ExpandOps, EncTables, OpsCoded, Measured;
    BuildTables(tb);
    var packer: Packer;
    nl, nd, n, packer := PrepareHeader(tb, cl);
    ops := packer.ops;
    Pow2Table();
    w.PutBits(2, 2);
    OpsWellFormed(ops);
    PutHeader(w, nl, nd, cl, n, packer.packed, packer.numPacked, ops);
  }

  /** Legal tokens can always be coded with the fixed tables. */
  lemma FixedCodesAll(ts: seq<Token>)
    requires forall i :: 0 <= i < |ts| ==> Legal(ts[i])
    ensures AllCoded(FixedLit(), FixedDist(), ts) && HasCode(FixedLit(), 256)
  {
    hide LenSym, DistSym;
    forall i | 0 <= i < |ts|
      ensures Coded(FixedLit(), FixedDist(), ts[i])
    {
      if ts[i].Match? {
        LenCodes(ts[i].len - 3);
        DistCodes(ts[i].dist - 1);
      }
    }
  }

  lemma StoredLegal(buf: seq<byte>, ts: seq<Token>)
    requires Stored(buf, ts)
    ensures forall i :: 0 <= i < |ts| ==> Legal(ts[i])
  {
    forall i | 0 <= i < |ts|
      ensures Legal(ts[i])
    {
      assert TokenAt(buf, Pos(ts, i), ts[i]);
    }
  }

  /** With the fixed tables a literal takes at most 9 bits and a match at most 31. */
  lemma FixedTokenSize(t: Token)
    requires Coded(FixedLit(), FixedDist(), t)
    ensures |EncToken(FixedLit(), FixedDist(), t)| <= if t.Literal? then 9 else 31
  {
    hide LenSym, DistSym, ToBits, EncSym;
    if t.Match? {
      LenCodes(t.len - 3);
      DistCodes(t.dist - 1);
    }
  }

  lemma SizeArith(k: nat, e: nat, p: nat, literal: bool)
    requires e <= 10 * p + k % 8
    ensures e + (if literal then 10 else 31) <= 10 * (p + (if literal then 1 else 3) +
        (if (k + 1) % 8 == 0 then 1 else 0)) + (k + 1) % 8
  {
    assert (k + 1) % 8 == if k % 8 == 7 then 0 else k % 8 + 1;
  }

  /** Ten bits a literal and 31 a match are at most ten bits per byte of token buffer. */
  lemma {:induction false} BufferBits(ts: seq<Token>)
    ensures 10 * |ts| + 21 * Matches(ts) <= 10 * Pos(ts, |ts|) + |ts| % 8
  {
    hide Pos;
    if ts == [] {
      PosStart(ts);
    } else {
      var ts', t := ts[..|ts| - 1], ts[|ts| - 1];
      BufferBits(ts');
      PosStep(ts', t);
      SizeArith(|ts'|, 10 * |ts'| + 21 * Matches(ts'), Pos(ts', |ts'|), t.Literal?);
      assert ts' + [t] == ts;
    }
  }

  lemma {:induction false} FixedBodySize(ts: seq<Token>)
    requires AllCoded(FixedLit(), FixedDist(), ts)
    ensures |EncTokens(FixedLit(), FixedDist(), ts)| <= 10 * |ts| + 21 * Matches(ts)
  {
    hide FixedLit, FixedDist, Coded, EncToken;
    if ts == [] {
      EmptySize(ts);
    } else {
      var ts', t := ts[..|ts| - 1], ts[|ts| - 1];
      assert Coded(FixedLit(), FixedDist(), t);
      FixedBodySize(ts');
      FixedTokenSize(t);
    }
  }

  lemma EmptySize(ts: seq<Token>)
    requires ts == []
    ensures AllCoded(FixedLit(), FixedDist(), ts) && EncTokens(FixedLit(), FixedDist(), ts) == []
  {
  }

  /** Packed code lengths take at most 14 bits an operation. */
  lemma {:induction false} OpsSize(cl: Lens, ops: seq<ClOp>)
    requires OpsCoded(cl, ops) && forall k :: 0 <= k < |cl| ==> cl[k] < 8
    ensures |EncOps(cl, ops)| <= 14 * |ops|
  {
    hide RevCode, ToBits;
    if ops != [] {
      OpsSize(cl, ops[..|ops| - 1]);
    }
  }

  /** Two fixed bits more than the tables take. */
  lemma HeaderSize(nl: nat, nd: nat, cl: Lens, n: nat, ops: seq<ClOp>)
    requires nl >= 257 && nd >= 1 && 4 <= n <= 19 && |cl| == 19 && OpsCoded(cl, ops) && |ops| <= 320
    requires forall k :: 0 <= k < 19 ==> cl[k] < 8
    ensures |EncTables(nl, nd, cl, n, ops)| <= HEADER_BITS
  {
    hide ToBits, EncClens, EncOps;
    OpsSize(cl, ops);
  }

  const HEADER_BITS := 14 + 3 * 19 + 14 * 320

  /** The most that a coded block takes: its type, a dynamic header, and ten bits per byte of token buffer. */
  const BLOCK_BITS := 2 + HEADER_BITS + 10 * (CODE_BUF_SIZE + 1) + 14

  /** The coded form that was asked for: kind 1 with the fixed codes, or kind 2. */
  ghost predicate KindOf(b: Bits, ts: seq<Token>, staticBlock: bool) {
    if staticBlock then
      && AllCoded(FixedLit(), FixedDist(), ts) && HasCode(FixedLit(), 256)
      && b == ToBits(1, 2) + EncBody(FixedLit(), FixedDist(), ts)
    else ToBits(2, 2) <= b
  }

  /** tdefl_compress_block. The bits put read back as the recorded tokens, and there is a bound on them. */
  method CompressBlock(w: Writer, tb: Tokens, cl: Table, staticBlock: bool) returns (ok: bool, ghost b: Bits)
    requires w.Valid() && tb.Packed() && cl.Valid() && cl.counts.Length == 19 && Apart(w, tb, cl)
    requires !staticBlock ==> Tallied(tb.tokens, tb.lit.counts[..], tb.dist.counts[..]) && |tb.tokens| < 65535
    modifies w, w.buf, tb.lit.counts, tb.lit.sizes, tb.lit.codes, tb.dist.sizes, tb.dist.codes
    modifies cl.counts, cl.sizes, cl.codes
    ensures w.Valid() && w.Advanced() && tb.Packed()
    ensures w.emitted == old(w.emitted) + b && BlockMeans(b, tb.tokens) && |b| <= BLOCK_BITS
    ensures KindOf(b, tb.tokens, staticBlock)
    ensures ok <==> w.cur < w.end
  {
    hide Holds, Decodable, Stored, AllFlagged, RevCode, TokensLength, ToBits, Tallied, AllCoded, EncBody, EncTables,
         Measured;
    hide ExpandOps, OpsCoded, BlockMeans, FixedLit, FixedDist, EndPos;
    ghost var ts, e := tb.tokens, w.emitted;
    if staticBlock {
      StaticBlockBits(tb.buf[..], ts);
      StartStatic(w, tb);
      ok := CompressLzCodes(w, tb);
      StaticMeans(ts);
      b := ToBits(1, 2) + EncBody(FixedLit(), FixedDist(), ts);
      ConcatAssoc4(e, ToBits(1, 2), EncBody(FixedLit(), FixedDist(), ts), []);
    } else {
      var nl, nd, n;
      ghost var ops;
      nl, nd, n, ops := StartDynamic(w, tb, cl);
      ghost var ll, dl, c := tb.lit.sizes[..], tb.dist.sizes[..], cl.sizes[..];
      ok := CompressLzCodes(w, tb);
      TrimBody(ll, nl, dl, nd, ts);
      DynamicMeans(ll[..nl], dl[..nd], c, n, ops, ts);
      DynamicBlockBits(ts, ll, dl);
      HeaderSize(nl, nd, c, n, ops);
      b := ToBits(2, 2) + (EncTables(nl, nd, c, n, ops) + EncBody(ll, dl, ts));
      ConcatAssoc4(e, ToBits(2, 2), EncTables(nl, nd, c, n, ops), EncBody(ll, dl, ts));
    }
  }

  lemma DynamicBlockBits(ts: seq<Token>, ll: Lens, dl: Lens)
    requires Measured(ts, ll, dl) && AllCoded(ll, dl, ts) && HasCode(ll, 256) && EndPos(ts) <= CODE_BUF_SIZE
    ensures |EncBody(ll, dl, ts)| <= 10 * (CODE_BUF_SIZE + 1) + 14
  {
    hide LitCounts, DistCounts, NearlyMinimal, AllCoded, EncBody, Pos;
    DynamicSize(ts, LitCounts(ts)[256 := 1], ll, dl);
    BufferBits(ts);
  }

  lemma StaticBlockBits(buf: seq<byte>, ts: seq<Token>)
    requires Stored(buf, ts) && EndPos(ts) <= CODE_BUF_SIZE
    ensures AllCoded(FixedLit(), FixedDist(), ts) && HasCode(FixedLit(), 256)
    ensures |EncBody(FixedLit(), FixedDist(), ts)| <= 10 * (CODE_BUF_SIZE + 1) + 14
  {
    hide FixedLit, FixedDist, Pos;
    StoredLegal(buf, ts);
    FixedCodesAll(ts);
    FixedBodySize(ts);
    BufferBits(ts);
    FixedEnd();
  }

  lemma FixedEnd()
    ensures HasCode(FixedLit(), 256) && FixedLit()[256] == 7
  {
  }

  lemma TrimBody(ll: Lens, nl: nat, dl: Lens, nd: nat, ts: seq<Token>)
    requires 257 <= nl <= |ll| && (forall i :: nl <= i < |ll| ==> ll[i] == 0)
    requires nd <= |dl| && (forall i :: nd <= i < |dl| ==> dl[i] == 0)
    requires AllCoded(ll, dl, ts) && HasCode(ll, 256)
    ensures AllCoded(ll[..nl], dl[..nd], ts) && HasCode(ll[..nl], 256)
    ensures EncBody(ll[..nl], dl[..nd], ts) == EncBody(ll, dl, ts)
  {
    TrimTokens(ll, nl, dl, nd, ts);
    TrimSym(ll, nl, 256);
  }
}
