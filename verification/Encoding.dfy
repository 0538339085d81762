/** The bit strings an encoder writes for symbols, tokens and block headers, each read back by Format. */
module Encoding {
  import opened Arith
  import opened Bits
  import opened Canonical
  import opened Format

  predicate HasCode(lens: Lens, sym: nat) {
    sym < |lens| && lens[sym] > 0
  }

  lemma ReadBitsBack(s: Bits, p: nat, v: nat, n: nat)
    requires At(s, p, ToBits(v, n)) && v < Pow2(n)
    ensures ReadBits(s, p, n) == Got(v, p + n)
  {
    ValToBits(v, n);
    DivModUnique(v, Pow2(n), 0, v);
  }

  /** At most one symbol's code can stand at a position. */
  lemma SymUnique(s: Bits, p: nat, lens: Lens, a: nat, b: nat)
    requires Decodable(lens) && SymAt(s, p, lens, a) && SymAt(s, p, lens, b)
    ensures a == b
  {
    if a != b {
      var x, y := if lens[a] <= lens[b] then a else b, if lens[a] <= lens[b] then b else a;
      var w := s[p..p + lens[y]];
      assert w[..lens[x]] == s[p..p + lens[x]];
      ValSplit(w, lens[x]);
      PrefixFree(lens, x, y);
      assert false;
    }
  }

  lemma ReadSymIs(s: Bits, p: nat, lens: Lens, sym: nat)
    requires Decodable(lens) && SymAt(s, p, lens, sym)
    ensures ReadSym(s, p, lens) == Got(sym, p + lens[sym])
  {
    SymUnique(s, p, lens, sym, ReadSym(s, p, lens).val);
  }

  lemma ReadSymBack(s: Bits, p: nat, lens: Lens, sym: nat)
    requires Decodable(lens) && HasCode(lens, sym) && At(s, p, EncSym(lens, sym))
    ensures ReadSym(s, p, lens) == Got(sym, p + lens[sym])
  {
    EncSymVal(lens, sym);
    ReadSymIs(s, p, lens, sym);
  }

  // The encoder's symbol tables, as the closed forms they list.

  /** Length symbol for a match of length m + 3. */
  function LenSym(m: nat): nat
    requires m < 256
  {
    if m < 8 then 257 + m
    else if m < 16 then 265 + (m - 8) / 2
    else if m < 32 then 269 + (m - 16) / 4
    else if m < 64 then 273 + (m - 32) / 8
    else if m < 128 then 277 + (m - 64) / 16
    else if m < 255 then 281 + (m - 128) / 32
    else 285
  }

  function LenXBits(m: nat): nat
    requires m < 256
  {
    if m < 8 then 0
    else if m < 16 then 1
    else if m < 32 then 2
    else if m < 64 then 3
    else if m < 128 then 4
    else if m < 255 then 5
    else 0
  }

  /** Distance symbol for a distance of d + 1. */
  function DistSym(d: nat): nat
    requires d < 32768
  {
    if d < 4 then d
    else if d < 8 then 4 + (d - 4) / 2
    else if d < 16 then 6 + (d - 8) / 4
    else if d < 32 then 8 + (d - 16) / 8
    else if d < 64 then 10 + (d - 32) / 16
    else if d < 128 then 12 + (d - 64) / 32
    else if d < 256 then 14 + (d - 128) / 64
    else if d < 512 then 16 + (d - 256) / 128
    else if d < 1024 then 18 + (d - 512) / 256
    else if d < 2048 then 20 + (d - 1024) / 512
    else if d < 4096 then 22 + (d - 2048) / 1024
    else if d < 8192 then 24 + (d - 4096) / 2048
    else if d < 16384 then 26 + (d - 8192) / 4096
    else 28 + (d - 16384) / 8192
  }

  function DistXBits(d: nat): nat
    requires d < 32768
  {
    if d < 4 then 0
    else if d < 8 then 1
    else if d < 16 then 2
    else if d < 32 then 3
    else if d < 64 then 4
    else if d < 128 then 5
    else if d < 256 then 6
    else if d < 512 then 7
    else if d < 1024 then 8
    else if d < 2048 then 9
    else if d < 4096 then 10
    else if d < 8192 then 11
    else if d < 16384 then 12
    else 13
  }

  /** The encoder's length tables invert the decoder's. */
  lemma LenCodes(m: nat)
    requires m < 256
    ensures 257 <= LenSym(m) <= 285 && LenExtra(LenSym(m)) == LenXBits(m)
    ensures LenBase(LenSym(m)) + m % Pow2(LenXBits(m)) == m + 3
  {
    Pow2Table();
  }

  lemma DistCodes(d: nat)
    requires d < 32768
    ensures DistSym(d) <= 29 && DistExtra(DistSym(d)) == DistXBits(d)
    ensures DistBase(DistSym(d)) + d % Pow2(DistXBits(d)) == d + 1
  {
    Pow2Table();
  }

  /** A token an encoder may record. */
  predicate Legal(t: Token) {
    t.Match? ==> 3 <= t.len <= 258 && 1 <= t.dist <= 32768
  }

  /** The two tables have a code for everything the token needs. */
  predicate Coded(ll: Lens, dl: Lens, t: Token) {
    match t
    case Literal(b) => HasCode(ll, b)
    case Match(len, dist) => Legal(t) && HasCode(ll, LenSym(len - 3)) && HasCode(dl, DistSym(dist - 1))
  }

  function EncDist(dl: Lens, d: nat): Bits
    requires d < 32768 && HasCode(dl, DistSym(d))
  {
    EncSym(dl, DistSym(d)) + ToBits(d % Pow2(DistXBits(d)), DistXBits(d))
  }

  function EncLen(ll: Lens, m: nat): Bits
    requires m < 256 && HasCode(ll, LenSym(m))
  {
    EncSym(ll, LenSym(m)) + ToBits(m % Pow2(LenXBits(m)), LenXBits(m))
  }

  function EncToken(ll: Lens, dl: Lens, t: Token): Bits
    requires Coded(ll, dl, t)
  {
    match t
    case Literal(b) => EncSym(ll, b)
    case Match(len, dist) => EncLen(ll, len - 3) + EncDist(dl, dist - 1)
  }

  lemma ReadDistBack(s: Bits, p: nat, dl: Lens, len: nat, d: nat)
    requires d < 32768 && HasCode(dl, DistSym(d)) && Decodable(dl) && At(s, p, EncDist(dl, d))
    ensures ReadDist(s, p, dl, len) == Got(Tok(Match(len, d + 1)), p + |EncDist(dl, d)|)
  {
    var sym, n := DistSym(d), DistXBits(d);
    var x := d % Pow2(n);
    DistCodes(d);
    AtConcat(s, p, EncSym(dl, sym), ToBits(x, n));
    ReadSymBack(s, p, dl, sym);
    ReadBitsBack(s, p + dl[sym], x, n);
  }

  lemma ReadItemBack(s: Bits, p: nat, ll: Lens, dl: Lens, t: Token)
    requires Decodable(ll) && Decodable(dl) && Coded(ll, dl, t) && At(s, p, EncToken(ll, dl, t))
    ensures ReadItem(s, p, ll, dl) == Got(Tok(t), p + |EncToken(ll, dl, t)|)
  {
    hide At, Decodable, EncSym, ToBits, LenSym, LenXBits, DistSym, DistXBits, LenBase, LenExtra, ReadSym, ReadDist,
         EncDist, Pow2;
    if t.Literal? {
      ReadSymBack(s, p, ll, t.b);
    } else {
      var m := t.len - 3;
      var sym, n := LenSym(m), LenXBits(m);
      var x := m % Pow2(n);
      LenCodes(m);
      AtConcat(s, p, EncLen(ll, m), EncDist(dl, t.dist - 1));
      AtConcat(s, p, EncSym(ll, sym), ToBits(x, n));
      ReadSymBack(s, p, ll, sym);
      ReadBitsBack(s, p + ll[sym], x, n);
      ReadDistBack(s, p + ll[sym] + n, dl, t.len, t.dist - 1);
    }
  }

  // Token sequences, newest last.

  function TokenLength(t: Token): nat {
    match t
    case Literal(_) => 1
    case Match(len, _) => len
  }

  function TokensLength(ts: seq<Token>): nat {
    if ts == [] then 0 else TokensLength(ts[..|ts| - 1]) + TokenLength(ts[|ts| - 1])
  }

  predicate AllFit(n: nat, ts: seq<Token>) {
    ts != [] ==> AllFit(n, ts[..|ts| - 1]) && Fits(n + TokensLength(ts[..|ts| - 1]), ts[|ts| - 1])
  }

  predicate AllCoded(ll: Lens, dl: Lens, ts: seq<Token>) {
    forall i :: 0 <= i < |ts| ==> Coded(ll, dl, ts[i])
  }

  /** What a token sequence expands to after the given output. */
  function Replay(out: Bytes, ts: seq<Token>): (r: Bytes)
    requires AllFit(|out|, ts)
    ensures |r| == |out| + TokensLength(ts)
  {
    if ts == [] then out
    else Apply(Replay(out, ts[..|ts| - 1]), ts[|ts| - 1])
  }

  function EncTokens(ll: Lens, dl: Lens, ts: seq<Token>): Bits
    requires AllCoded(ll, dl, ts)
  {
    if ts == [] then []
    else EncTokens(ll, dl, ts[..|ts| - 1]) + EncToken(ll, dl, ts[|ts| - 1])
  }

  lemma {:induction false} ReadBodyTokens(s: Bits, p: nat, ll: Lens, dl: Lens, ts: seq<Token>, out: Bytes)
    requires Decodable(ll) && Decodable(dl) && AllCoded(ll, dl, ts) && AllFit(|out|, ts)
    requires At(s, p, EncTokens(ll, dl, ts))
    ensures ReadBody(s, p, ll, dl, out) == ReadBody(s, p + |EncTokens(ll, dl, ts)|, ll, dl, Replay(out, ts))
  {
    hide At, Decodable, ReadItem, EncToken, Apply, CopyBack, Legal, HasCode, TokenLength;
    if ts != [] {
      var ts', t := ts[..|ts| - 1], ts[|ts| - 1];
      AtConcat(s, p, EncTokens(ll, dl, ts'), EncToken(ll, dl, t));
      ReadBodyTokens(s, p, ll, dl, ts', out);
      ReadItemBack(s, p + |EncTokens(ll, dl, ts')|, ll, dl, t);
    }
  }

  function EncBody(ll: Lens, dl: Lens, ts: seq<Token>): Bits
    requires AllCoded(ll, dl, ts) && HasCode(ll, 256)
  {
    EncTokens(ll, dl, ts) + EncSym(ll, 256)
  }

  /** A coded block body reads back as the expansion of its tokens. */
  lemma ReadBodyBack(s: Bits, p: nat, ll: Lens, dl: Lens, ts: seq<Token>, out: Bytes)
    requires Decodable(ll) && Decodable(dl) && AllCoded(ll, dl, ts) && AllFit(|out|, ts) && HasCode(ll, 256)
    requires At(s, p, EncBody(ll, dl, ts))
    ensures ReadBody(s, p, ll, dl, out) == Got(Replay(out, ts), p + |EncBody(ll, dl, ts)|)
  {
    hide At, Decodable, EncTokens, ReadSym, ToBits, AllCoded, Coded, AllFit, Replay;
    AtConcat(s, p, EncTokens(ll, dl, ts), EncSym(ll, 256));
    ReadBodyTokens(s, p, ll, dl, ts, out);
    ReadSymBack(s, p + |EncTokens(ll, dl, ts)|, ll, 256);
  }

  // Code length sequences.

  /** One code length symbol and, for a repeat, its count above the base. */
  datatype ClOp = ClOp(sym: nat, extra: nat)

  predicate OpOk(acc: Lens, op: ClOp) {
    && op.sym <= 18
    && (op.sym == 16 ==> acc != [])
    && (op.sym >= 16 ==> op.extra < Pow2(RepeatBits(op.sym)))
  }

  function ApplyOp(acc: Lens, op: ClOp): (r: Lens)
    requires OpOk(acc, op)
    ensures |r| > |acc|
  {
    if op.sym < 16 then acc + [op.sym]
    else acc + Rep(if op.sym == 16 then acc[|acc| - 1] else 0, RepeatBase(op.sym) + op.extra)
  }

  /** The code lengths a sequence of operations spells, if each may stand where it does. */
  function ExpandOps(ops: seq<ClOp>): Parsed<Lens> {
    if ops == [] then Got([], 0)
    else
      var (acc, k) :- ExpandOps(ops[..|ops| - 1]);
      if OpOk(acc, ops[|ops| - 1]) then Got(ApplyOp(acc, ops[|ops| - 1]), k + 1) else Fail
  }

  function EncOp(cl: Lens, op: ClOp): Bits
    requires HasCode(cl, op.sym)
  {
    EncSym(cl, op.sym) + (if op.sym >= 16 then ToBits(op.extra, RepeatBits(op.sym)) else [])
  }

  predicate OpsCoded(cl: Lens, ops: seq<ClOp>) {
    forall i :: 0 <= i < |ops| ==> HasCode(cl, ops[i].sym)
  }

  function EncOps(cl: Lens, ops: seq<ClOp>): Bits
    requires OpsCoded(cl, ops)
  {
    if ops == [] then [] else EncOps(cl, ops[..|ops| - 1]) + EncOp(cl, ops[|ops| - 1])
  }

  lemma ReadLensStep(s: Bits, p: nat, cl: Lens, n: nat, acc: Lens, op: ClOp)
    requires Decodable(cl) && HasCode(cl, op.sym) && At(s, p, EncOp(cl, op))
    requires OpOk(acc, op) && |ApplyOp(acc, op)| <= n
    ensures ReadLens(s, p, cl, n, acc) == ReadLens(s, p + |EncOp(cl, op)|, cl, n, ApplyOp(acc, op))
  {
    hide At, Decodable, EncSym, ToBits, ReadSym, ReadBits, Rep, Pow2, RepeatBits;
    if op.sym >= 16 {
      AtConcat(s, p, EncSym(cl, op.sym), ToBits(op.extra, RepeatBits(op.sym)));
      ReadBitsBack(s, p + cl[op.sym], op.extra, RepeatBits(op.sym));
    } else {
      assert EncOp(cl, op) == EncSym(cl, op.sym);
    }
    ReadSymBack(s, p, cl, op.sym);
  }

  lemma {:induction false} ReadLensOps(s: Bits, p: nat, cl: Lens, n: nat, ops: seq<ClOp>)
    requires Decodable(cl) && OpsCoded(cl, ops) && At(s, p, EncOps(cl, ops))
    requires ExpandOps(ops).Got? && |ExpandOps(ops).val| <= n
    ensures ReadLens(s, p, cl, n, []) == ReadLens(s, p + |EncOps(cl, ops)|, cl, n, ExpandOps(ops).val)
  {
    hide At, Decodable, EncOp, ReadLens, ApplyOp;
    if ops != [] {
      var ops', op := ops[..|ops| - 1], ops[|ops| - 1];
      AtConcat(s, p, EncOps(cl, ops'), EncOp(cl, op));
      ReadLensOps(s, p, cl, n, ops');
      ReadLensStep(s, p + |EncOps(cl, ops')|, cl, n, ExpandOps(ops').val, op);
    }
  }

  /** Run-length coded code lengths read back exactly (section 3.2.7). */
  lemma ReadLensBack(s: Bits, p: nat, cl: Lens, ops: seq<ClOp>)
    requires Decodable(cl) && OpsCoded(cl, ops) && At(s, p, EncOps(cl, ops)) && ExpandOps(ops).Got?
    ensures ReadLens(s, p, cl, |ExpandOps(ops).val|, []) == Got(ExpandOps(ops).val, p + |EncOps(cl, ops)|)
  {
    ReadLensOps(s, p, cl, |ExpandOps(ops).val|, ops);
  }

  /** The first n code length code lengths in their stored order. */
  function EncClens(cl: Lens, n: nat): (b: Bits)
    requires |cl| == 19 && n <= 19
    ensures |b| == 3 * n
  {
    if n == 0 then [] else EncClens(cl, n - 1) + ToBits(cl[ClOrder(n - 1)], 3)
  }

  /** cl with everything from stored position i on cleared. */
  function ClearFrom(cl: Lens, i: nat): (r: Lens)
    requires |cl| == 19 && i <= 19
    ensures |r| == 19
    ensures forall k :: 0 <= k < 19 ==> r[ClOrder(k)] == if k < i then cl[ClOrder(k)] else 0
  {
    if i == 0 then Rep(0, 19) else ClearFrom(cl, i - 1)[ClOrder(i - 1) := cl[ClOrder(i - 1)]]
  }

  lemma {:induction false} ReadClensFrom(s: Bits, p: nat, cl: Lens, n: nat, i: nat)
    requires |cl| == 19 && i <= n <= 19 && (forall k :: 0 <= k < 19 ==> cl[k] < 8)
    requires At(s, p, EncClens(cl, n))
    ensures ReadClens(s, p, n, 0, Rep(0, 19)) == ReadClens(s, p + 3 * i, n, i, ClearFrom(cl, i))
  {
    hide At, ToBits, Rep, ClOrder;
    if i > 0 {
      ReadClensFrom(s, p, cl, n, i - 1);
      EncClensAt(s, p, cl, n, i - 1);
      Pow2Table();
      ReadBitsBack(s, p + 3 * (i - 1), cl[ClOrder(i - 1)], 3);
    }
  }

  lemma {:induction false} EncClensAt(s: Bits, p: nat, cl: Lens, n: nat, i: nat)
    requires |cl| == 19 && i < n <= 19 && At(s, p, EncClens(cl, n))
    ensures At(s, p + 3 * i, ToBits(cl[ClOrder(i)], 3))
  {
    AtConcat(s, p, EncClens(cl, n - 1), ToBits(cl[ClOrder(n - 1)], 3));
    if i < n - 1 {
      EncClensAt(s, p, cl, n - 1, i);
    }
  }

  lemma ReadClensBack(s: Bits, p: nat, cl: Lens, n: nat)
    requires |cl| == 19 && n <= 19 && (forall k :: 0 <= k < 19 ==> cl[k] < 8)
    requires forall k :: n <= k < 19 ==> cl[ClOrder(k)] == 0
    requires At(s, p, EncClens(cl, n))
    ensures ReadClens(s, p, n, 0, Rep(0, 19)) == Got(cl, p + 3 * n)
  {
    ReadClensFrom(s, p, cl, n, n);
    ClOrderOnto(ClearFrom(cl, n), cl);
  }

  /** The stored order visits every code length symbol. */
  lemma ClOrderOnto(a: Lens, b: Lens)
    requires |a| == |b| == 19 && forall k :: 0 <= k < 19 ==> a[ClOrder(k)] == b[ClOrder(k)]
    ensures a == b
  {
    forall j | 0 <= j < 19
      ensures a[j] == b[j]
    {
      var k := if j >= 16 then j - 16 else if j == 0 then 3 else if j >= 8 then 2 * j - 12 else 19 - 2 * j;
      assert ClOrder(k) == j;
    }
  }

  /** The header of a dynamic block. */
  function EncTables(nl: nat, nd: nat, cl: Lens, n: nat, ops: seq<ClOp>): Bits
    requires nl >= 257 && nd >= 1 && 4 <= n <= 19 && |cl| == 19 && OpsCoded(cl, ops)
  {
    ToBits(nl - 257, 5) + (ToBits(nd - 1, 5) + (ToBits(n - 4, 4) + (EncClens(cl, n) + EncOps(cl, ops))))
  }

  /** What makes a dynamic header legal: the operations spell both length vectors, and every code is usable. */
  predicate TablesOk(ll: Lens, dl: Lens, cl: Lens, n: nat, ops: seq<ClOp>) {
    && 257 <= |ll| < 289 && 1 <= |dl| < 33
    && Decodable(ll) && Decodable(dl) && Decodable(cl)
    && 4 <= n <= 19 && |cl| == 19 && OpsCoded(cl, ops)
    && (forall k :: 0 <= k < 19 ==> cl[k] < 8)
    && (forall k :: n <= k < 19 ==> cl[ClOrder(k)] == 0)
    && ExpandOps(ops).Got? && ExpandOps(ops).val == ll + dl
  }

  lemma ReadTablesBack(s: Bits, p: nat, ll: Lens, dl: Lens, cl: Lens, n: nat, ops: seq<ClOp>)
    requires TablesOk(ll, dl, cl, n, ops) && At(s, p, EncTables(|ll|, |dl|, cl, n, ops))
    ensures ReadTables(s, p) == Got((ll, dl), p + |EncTables(|ll|, |dl|, cl, n, ops)|)
  {
    hide At, ToBits, Decodable, EncClens, EncOps, ReadClens, ReadLens, ExpandOps, ReadBits, ClOrder;
    Pow2Table();
    var e5 := EncOps(cl, ops);
    var e4 := EncClens(cl, n) + e5;
    var e3 := ToBits(n - 4, 4) + e4;
    var e2 := ToBits(|dl| - 1, 5) + e3;
    AtConcat(s, p, ToBits(|ll| - 257, 5), e2);
    AtConcat(s, p + 5, ToBits(|dl| - 1, 5), e3);
    AtConcat(s, p + 10, ToBits(n - 4, 4), e4);
    AtConcat(s, p + 14, EncClens(cl, n), e5);
    ReadBitsBack(s, p, |ll| - 257, 5);
    ReadBitsBack(s, p + 5, |dl| - 1, 5);
    ReadBitsBack(s, p + 10, n - 4, 4);
    ReadClensBack(s, p + 14, cl, n);
    ReadLensBack(s, p + 14 + 3 * n, cl, ops);
    assert (ll + dl)[..|ll|] == ll && (ll + dl)[|ll|..] == dl;
  }
}
