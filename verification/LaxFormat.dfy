/** What the decompressor makes of any bits whatever: the format where the format has a reading; the same tables read
    on where it has none; and otherwise what stopped it. */
module LaxFormat {
  import opened Arith
  import opened Bits
  import opened Canonical
  import opened Format

  /** Something read, and the position after it; or what was out already when the bits ended, were refused, or had more
      to give than there was room for. Stuck is a literal with no bits: refused, or repeated until there is no room. */
  datatype Answer<+T> = Read(val: T, next: nat) | Short(front: Bytes) | Bad(front: Bytes) | Full(front: Bytes) | Stuck {
    predicate IsFailure() {
      !Read?
    }

    function PropagateFailure<U>(): (r: Answer<U>)
      requires !Read?
      ensures !r.Read?
    {
      match this
      case Short(f) => Short(f)
      case Bad(f) => Bad(f)
      case Full(f) => Full(f)
      case Stuck => Stuck
    }

    function Extract(): (T, nat)
      requires Read?
    {
      (val, next)
    }

    /** The answer when this was to come after the output so far. */
    function After(out: Bytes): Answer<T> {
      match this
      case Short(_) => Short(out)
      case Bad(_) => Bad(out)
      case _ => this
    }
  }

  function LaxBits(s: Bits, p: nat, n: nat): (r: Answer<nat>)
    ensures r.Read? || r.Short?
    ensures r.Read? ==> p + n == r.next <= |s|
  {
    if p + n <= |s| then Read(Val(s[p..p + n]), p + n) else Short([])
  }

  lemma NoBits(s: Bits, p: nat)
    requires p <= |s|
    ensures LaxBits(s, p, 0) == Read(0, p)
  {
    assert s[p..p] == [];
  }

  /** Some code longer than d bits begins as v does. */
  ghost predicate Reaches(lens: Lens, d: nat, v: nat) {
    exists s: nat :: s < |lens| && lens[s] > d && RevCode(lens, s) % Pow2(d) == v % Pow2(d)
  }

  /** How many bits of v lead away from every code: the walk down the tree ends at the first that no code goes on
      with. */
  ghost function StrayFrom(lens: Lens, v: nat, d: nat): (k: nat)
    requires d <= 15
    ensures d <= k <= 15
    decreases 15 - d
  {
    if d == 15 || !Reaches(lens, d, v) then d else StrayFrom(lens, v, d + 1)
  }

  /** Where no code begins as v does, the ten-bit lookup takes no bits, the tree below it takes those it has walked. */
  ghost function Stray(lens: Lens, v: nat): (k: nat)
    ensures k == 0 || 11 <= k <= 15
  {
    if Reaches(lens, 10, v) then StrayFrom(lens, v, 11) else 0
  }

  lemma ReachesLess(lens: Lens, d: nat, e: nat, v: nat)
    requires Reaches(lens, e, v) && d <= e
    ensures Reaches(lens, d, v)
  {
    hide RevCode;
    var s: nat :| s < |lens| && lens[s] > e && RevCode(lens, s) % Pow2(e) == v % Pow2(e);
    ModPow2Mod(RevCode(lens, s), d, e);
    ModPow2Mod(v, d, e);
  }

  /** Bits that a longer code begins with do not lead away from every code. */
  lemma {:induction false} StrayPast(lens: Lens, v: nat, d: nat, n: nat)
    requires d <= 15 && n < 15 && Reaches(lens, n, v)
    ensures StrayFrom(lens, v, d) > n
    decreases 15 - d
  {
    hide Reaches;
    if d <= n {
      ReachesLess(lens, d, n, v);
      StrayPast(lens, v, d + 1, n);
    }
  }

  /** A symbol; with an incomplete code, bits that are no code's read as symbol 0, once fifteen are there or the tree
      has ended. */
  ghost function LaxSym(s: Bits, p: nat, lens: Lens): (r: Answer<nat>)
    ensures r.Read? || r.Short?
    ensures r.Read? ==> p <= r.next <= |s| && (r.val == 0 || (r.val < |lens| && p < r.next))
  {
    var q := ReadSym(s, p, lens);
    if q.Got? then Read(q.val, q.next)
    else if p > |s| then Short([])
    else
      var k := Stray(lens, Val(s[p..]));
      if p + (if k == 0 then 15 else k) <= |s| then Read(0, p + k) else Short([])
  }

  /** The symbols 286 and 287, which the format reserves, are lengths of zero. */
  function LaxLenBase(sym: nat): nat
    requires 257 <= sym <= 287
  {
    if sym <= 285 then LenBase(sym) else 0
  }

  function LaxLenExtra(sym: nat): nat
    requires 257 <= sym <= 287
  {
    if sym <= 285 then LenExtra(sym) else 0
  }

  /** A length and a distance, after the symbol that begins them. */
  ghost function LaxMatch(s: Bits, p: nat, dl: Lens, sym: nat): (r: Answer<Token>)
    requires 257 <= sym <= 287
    ensures r.Read? || r.Short? || r.Bad?
    ensures r.Read? ==> r.val.Match? && p <= r.next
  {
    var (x, p1) :- LaxBits(s, p, LaxLenExtra(sym));
    var (d, p2) :- LaxSym(s, p1, dl);
    if d > 29 then Bad([])
    else
      var (y, p3) :- LaxBits(s, p2, DistExtra(d));
      Read(Match(LaxLenBase(sym) + x, DistBase(d) + y), p3)
  }

  /** The tokens of one block, as far as there is room for what they give. */
  ghost function LaxBody(s: Bits, p: nat, ll: Lens, dl: Lens, out: Bytes, room: nat): (r: Answer<Bytes>)
    requires |out| <= room
    ensures r.Read? ==> p < r.next && |r.val| <= room
    ensures r.Full? ==> |r.front| == room
    decreases |s| - p
  {
    var (sym, p1) :- LaxSym(s, p, ll).After(out);
    if p1 == p then Stuck
    else if sym < 256 then
      if |out| == room then Full(out) else LaxBody(s, p1, ll, dl, out + [sym], room)
    else if sym == 256 then Read(out, p1)
    else if sym > 287 then Bad(out)
    else
      var (t, p2) :- LaxMatch(s, p1, dl, sym).After(out);
      if t.dist == 0 || t.dist > |out| then Bad(out)
      else if t.len > room - |out| then Full(CopyBack(out, t.dist, room - |out|))
      else LaxBody(s, p2, ll, dl, CopyBack(out, t.dist, t.len), room)
  }

  ghost function LaxLens(s: Bits, p: nat, cl: Lens, n: nat, acc: Lens): (r: Answer<Lens>)
    ensures r.Read? || r.Short? || r.Bad?
    ensures r.Read? ==> |r.val| == n && p <= r.next
    decreases n - |acc|
  {
    if |acc| == n then Read(acc, p)
    else if |acc| > n then Bad([])
    else
      var (sym, p1) :- LaxSym(s, p, cl);
      if sym < 16 then LaxLens(s, p1, cl, n, acc + [sym])
      else if sym > 18 || (sym == 16 && acc == []) then Bad([])
      else
        var (x, p2) :- LaxBits(s, p1, RepeatBits(sym));
        LaxLens(s, p2, cl, n, acc + Rep(if sym == 16 then acc[|acc| - 1] else 0, RepeatBase(sym) + x))
  }

  /** How many lengths of each of the three codes follow. */
  function LaxCounts(s: Bits, p: nat): (r: Answer<(nat, nat, nat)>)
    ensures r.Read? || r.Short?
    ensures r.Read? ==> r.val.0 <= 288 && r.val.1 <= 32 && r.val.2 <= 19 && r.next == p + 14 <= |s|
  {
    var (hlit, p1) :- LaxBits(s, p, 5);
    var (hdist, p2) :- LaxBits(s, p1, 5);
    var (hclen, p3) :- LaxBits(s, p2, 4);
    ValBound(s[p..p1]);
    ValBound(s[p1..p2]);
    ValBound(s[p2..p3]);
    Pow2Table();
    Read((hlit + 257, hdist + 1, hclen + 4), p3)
  }

  function LaxClens(s: Bits, p: nat, n: nat): (r: Answer<Lens>)
    requires n <= 19
    ensures r.Read? || r.Short?
    ensures r.Read? ==> p <= r.next && |r.val| == 19
  {
    var q := ReadClens(s, p, n, 0, Rep(0, 19));
    if q.Got? then Read(q.val, q.next) else Short([])
  }

  /** The lengths that head a dynamic block, whatever they are. */
  ghost function LaxSizes(s: Bits, p: nat): (r: Answer<(Lens, Lens)>)
    ensures r.Read? || r.Short? || r.Bad?
    ensures r.Read? ==> p < r.next
  {
    var (n, p1) :- LaxCounts(s, p);
    var (cl, p2) :- LaxClens(s, p1, n.2);
    if !Decodable(cl) then Bad([])
    else
      var (lens, p3) :- LaxLens(s, p2, cl, n.0 + n.1, []);
      Read((lens[..n.0], lens[n.0..]), p3)
  }

  ghost function LaxTables(s: Bits, p: nat): (r: Answer<(Lens, Lens)>)
    ensures r.Read? || r.Short? || r.Bad?
    ensures r.Read? ==> p < r.next && Decodable(r.val.0) && Decodable(r.val.1)
  {
    var (t, p1) :- LaxSizes(s, p);
    if Decodable(t.0) && Decodable(t.1) then Read(t, p1) else Bad([])
  }

  /** n bytes of data, as far as there is room for them. */
  function LaxData(s: Bits, p: nat, n: nat, out: Bytes, room: nat): (r: Answer<Bytes>)
    requires |out| <= room && p <= |s|
    ensures r.Read? ==> p <= r.next <= |s| && |r.val| <= room
    ensures r.Full? ==> |r.front| == room
  {
    var k, there := Min(n, room - |out|), (|s| - p) / 8;
    if k > there then Short(out + ReadBytes(s, p, there))
    else if k == n then Read(out + ReadBytes(s, p, n), p + 8 * n)
    else Full(out + ReadBytes(s, p, k))
  }

  function LaxStored(s: Bits, p: nat, out: Bytes, room: nat): (r: Answer<Bytes>)
    requires |out| <= room
    ensures r.Read? ==> p < r.next && |r.val| <= room
    ensures r.Full? ==> |r.front| == room
  {
    var (n, p1) :- LaxBits(s, Align(p), 16).After(out);
    var (m, p2) :- LaxBits(s, p1, 16).After(out);
    if n + m != 65535 then Bad(out) else LaxData(s, p2, n, out, room)
  }

  /** What a block of the given kind holds. */
  ghost function LaxKind(s: Bits, p: nat, kind: nat, out: Bytes, room: nat): (r: Answer<Bytes>)
    requires |out| <= room
    ensures r.Read? ==> p < r.next && |r.val| <= room
    ensures r.Full? ==> |r.front| == room
  {
    if kind == 0 then LaxStored(s, p, out, room)
    else if kind == 1 then LaxBody(s, p, FixedLit(), FixedDist(), out, room)
    else if kind == 3 then Bad(out)
    else
      var (t, p1) :- LaxTables(s, p).After(out);
      LaxBody(s, p1, t.0, t.1, out, room)
  }

  ghost function LaxBlock(s: Bits, p: nat, out: Bytes, room: nat): (r: Answer<Bytes>)
    requires |out| <= room
    ensures r.Read? ==> p < r.next && |r.val| <= room
    ensures r.Full? ==> |r.front| == room
  {
    var (kind, p1) :- LaxBits(s, p, 2).After(out);
    LaxKind(s, p1, kind, out, room)
  }

  ghost function LaxInflate(s: Bits, p: nat, out: Bytes, room: nat): (r: Answer<Bytes>)
    requires |out| <= room
    ensures r.Read? ==> p < r.next && |r.val| <= room
    ensures r.Full? ==> |r.front| == room
    decreases |s| - p
  {
    var (final, p1) :- LaxBits(s, p, 1).After(out);
    var (out', p2) :- LaxBlock(s, p1, out, room);
    if final == 1 then Read(out', p2) else LaxInflate(s, p2, out', room)
  }
}
