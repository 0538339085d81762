/** What a DEFLATE stream means: section 3.2 of RFC 1951, as functions that read a bit string from a position. */
module Format {
  import opened Arith
  import opened Bits
  import opened Canonical

  /** The result of reading something: its value and the position after it. */
  datatype Parsed<+T> = Fail | Got(val: T, next: nat) {
    predicate IsFailure() {
      Fail?
    }

    function PropagateFailure<U>(): Parsed<U>
      requires Fail?
    {
      Fail
    }

    function Extract(): (T, nat)
      requires Got?
    {
      (val, next)
    }
  }

  datatype Token = Literal(b: byte) | Match(len: nat, dist: nat)

  datatype Item = Tok(t: Token) | EndOfBlock

  function ReadBits(s: Bits, p: nat, n: nat): Parsed<nat> {
    if p + n <= |s| then Got(Val(s[p..p + n]), p + n) else Fail
  }

  /** Symbol sym's code stands at position p. */
  ghost predicate SymAt(s: Bits, p: nat, lens: Lens, sym: nat) {
    && sym < |lens| && lens[sym] > 0 && p + lens[sym] <= |s|
    && Val(s[p..p + lens[sym]]) == RevCode(lens, sym)
  }

  ghost function ReadSym(s: Bits, p: nat, lens: Lens): (r: Parsed<nat>)
    ensures r.Got? ==> SymAt(s, p, lens, r.val) && r.next == p + lens[r.val]
  {
    if sym: nat :| SymAt(s, p, lens, sym) then Got(sym, p + lens[sym]) else Fail
  }

  // Length and distance codes (section 3.2.5), as the closed forms the tables list.

  function LenExtra(sym: nat): nat
    requires 257 <= sym <= 285
  {
    if sym < 265 || sym == 285 then 0 else (sym - 261) / 4
  }

  function LenBase(sym: nat): nat
    requires 257 <= sym <= 285
  {
    if sym < 265 then sym - 254
    else if sym == 285 then 258
    else 3 + (4 + (sym - 265) % 4) * Pow2((sym - 261) / 4)
  }

  function DistExtra(sym: nat): nat
    requires sym <= 29
  {
    if sym < 4 then 0 else sym / 2 - 1
  }

  function DistBase(sym: nat): nat
    requires sym <= 29
  {
    if sym < 4 then sym + 1 else 1 + (2 + sym % 2) * Pow2(sym / 2 - 1)
  }

  ghost function ReadDist(s: Bits, p: nat, dl: Lens, len: nat): (r: Parsed<Item>)
    ensures r.Got? ==> p < r.next <= |s|
  {
    var (sym, p1) :- ReadSym(s, p, dl);
    if sym > 29 then Fail
    else
      var (x, p2) :- ReadBits(s, p1, DistExtra(sym));
      Got(Tok(Match(len, DistBase(sym) + x)), p2)
  }

  ghost function ReadItem(s: Bits, p: nat, ll: Lens, dl: Lens): (r: Parsed<Item>)
    ensures r.Got? ==> p < r.next <= |s|
  {
    var (sym, p1) :- ReadSym(s, p, ll);
    if sym < 256 then Got(Tok(Literal(sym)), p1)
    else if sym == 256 then Got(EndOfBlock, p1)
    else if sym > 285 then Fail
    else
      var (x, p2) :- ReadBits(s, p1, LenExtra(sym));
      ReadDist(s, p2, dl, LenBase(sym) + x)
  }

  /** The output after copying len bytes from dist back, one at a time so that a copy may overlap itself. */
  function CopyBack(out: Bytes, dist: nat, len: nat): (r: Bytes)
    requires 1 <= dist <= |out|
    ensures |r| == |out| + len
    decreases len
  {
    if len == 0 then out else CopyBack(out + [out[|out| - dist]], dist, len - 1)
  }

  /** A token can be replayed onto n bytes of output. */
  predicate Fits(n: nat, t: Token) {
    t.Match? ==> 1 <= t.dist <= n
  }

  function Apply(out: Bytes, t: Token): Bytes
    requires Fits(|out|, t)
  {
    match t
    case Literal(b) => out + [b]
    case Match(len, dist) => CopyBack(out, dist, len)
  }

  /** The tokens of one block, up to its end marker. */
  ghost function ReadBody(s: Bits, p: nat, ll: Lens, dl: Lens, out: Bytes): (r: Parsed<Bytes>)
    ensures r.Got? ==> p < r.next <= |s|
    decreases |s| - p
  {
    var (item, p1) :- ReadItem(s, p, ll, dl);
    if item.EndOfBlock? then Got(out, p1)
    else if !Fits(|out|, item.t) then Fail
    else ReadBody(s, p1, ll, dl, Apply(out, item.t))
  }

  /** The order in which code length code lengths are stored (section 3.2.7). */
  function ClOrder(i: nat): (r: nat)
    requires i < 19
    ensures r < 19
  {
    if i < 3 then 16 + i
    else if i == 3 then 0
    else if i % 2 == 0 then 6 + i / 2
    else 9 - i / 2
  }

  function ReadClens(s: Bits, p: nat, n: nat, i: nat, acc: Lens): (r: Parsed<Lens>)
    requires i <= n <= 19 && |acc| == 19
    ensures r.Got? ==> p <= r.next && |r.val| == 19
    decreases n - i
  {
    if i == n then Got(acc, p)
    else
      var (v, p1) :- ReadBits(s, p, 3);
      ReadClens(s, p1, n, i + 1, acc[ClOrder(i) := v])
  }

  function RepeatBits(sym: nat): nat {
    if sym == 16 then 2 else if sym == 17 then 3 else 7
  }

  function RepeatBase(sym: nat): nat {
    if sym == 18 then 11 else 3
  }

  /** The run-length coded code lengths: exactly n of them. */
  ghost function ReadLens(s: Bits, p: nat, cl: Lens, n: nat, acc: Lens): (r: Parsed<Lens>)
    ensures r.Got? ==> |r.val| == n && p <= r.next
    decreases n - |acc|
  {
    if |acc| == n then Got(acc, p)
    else if |acc| > n then Fail
    else
      var (sym, p1) :- ReadSym(s, p, cl);
      if sym < 16 then ReadLens(s, p1, cl, n, acc + [sym])
      else if sym > 18 || (sym == 16 && acc == []) then Fail
      else
        var (x, p2) :- ReadBits(s, p1, RepeatBits(sym));
        ReadLens(s, p2, cl, n, acc + Rep(if sym == 16 then acc[|acc| - 1] else 0, RepeatBase(sym) + x))
  }

  /** The code lengths that head a dynamic block, literal/length and distance. */
  ghost function ReadTables(s: Bits, p: nat): (r: Parsed<(Lens, Lens)>)
    ensures r.Got? ==> p < r.next
  {
    var (hlit, p1) :- ReadBits(s, p, 5);
    var (hdist, p2) :- ReadBits(s, p1, 5);
    var (hclen, p3) :- ReadBits(s, p2, 4);
    if hclen + 4 > 19 then Fail
    else
      var (cl, p4) :- ReadClens(s, p3, hclen + 4, 0, Rep(0, 19));
      if !Decodable(cl) then Fail
      else
        var (lens, p5) :- ReadLens(s, p4, cl, hlit + 257 + hdist + 1, []);
        var ll, dl := lens[..hlit + 257], lens[hlit + 257..];
        if Decodable(ll) && Decodable(dl) then Got((ll, dl), p5) else Fail
  }

  function FixedLit(): Lens {
    Rep(8, 144) + Rep(9, 112) + Rep(7, 24) + Rep(8, 8)
  }

  function FixedDist(): Lens {
    Rep(5, 32)
  }

  function Align(p: nat): (q: nat)
    ensures p <= q < p + 8 && q % 8 == 0
  {
    (p + 7) / 8 * 8
  }

  function ReadBytes(s: Bits, p: nat, n: nat): (r: Bytes)
    requires p + 8 * n <= |s|
    ensures |r| == n
  {
    if n == 0 then []
    else
      ValBound(s[p + 8 * (n - 1)..p + 8 * n]);
      ReadBytes(s, p, n - 1) + [Val(s[p + 8 * (n - 1)..p + 8 * n])]
  }

  /** A stored block: align, length and its complement, then the bytes (section 3.2.4). */
  function ReadStored(s: Bits, p: nat, out: Bytes): (r: Parsed<Bytes>)
    ensures r.Got? ==> p < r.next <= |s|
  {
    var (n, p1) :- ReadBits(s, Align(p), 16);
    var (m, p2) :- ReadBits(s, p1, 16);
    if n + m != 65535 || p2 + 8 * n > |s| then Fail
    else Got(out + ReadBytes(s, p2, n), p2 + 8 * n)
  }

  /** One block after its final-block bit: the output extended by what the block holds. */
  ghost function ReadBlock(s: Bits, p: nat, out: Bytes): (r: Parsed<Bytes>)
    ensures r.Got? ==> p < r.next <= |s|
  {
    var (kind, p1) :- ReadBits(s, p, 2);
    if kind == 0 then ReadStored(s, p1, out)
    else if kind == 1 then ReadBody(s, p1, FixedLit(), FixedDist(), out)
    else if kind == 3 then Fail
    else
      var (t, p2) :- ReadTables(s, p1);
      ReadBody(s, p2, t.0, t.1, out)
  }

  /** Blocks up to and including the final one. */
  ghost function Inflate(s: Bits, p: nat, out: Bytes): (r: Parsed<Bytes>)
    ensures r.Got? ==> p < r.next <= |s|
    decreases |s| - p
  {
    var (final, p1) :- ReadBits(s, p, 1);
    var (out', p2) :- ReadBlock(s, p1, out);
    if final == 1 then Got(out', p2) else Inflate(s, p2, out')
  }
}
