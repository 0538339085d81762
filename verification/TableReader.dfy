/** The decompressor's block headers: fixed or transmitted code lengths, and the tables built from them. */
module TableReader {
  import opened Arith
  import opened Bits
  import opened Canonical
  import opened Format
  import opened LaxFormat
  import opened FixedCodes
  import opened PrefixTree
  import opened LookupTable
  import opened BitReader
  import opened SymbolReader
  import opened StoredReader

  /** s_length_dezigzag. */
  const DEZIGZAG: seq<nat> := [16, 17, 18, 0, 8, 7, 9, 6, 10, 5, 11, 4, 12, 3, 13, 2, 14, 1, 15]

  /** The table lists the order of section 3.2.7. */
  lemma OrderTable(i: nat)
    requires i < 19
    ensures DEZIGZAG[i] == ClOrder(i)
  {
  }

  /** The fixed literal/length code's lengths, symbol by symbol (section 3.2.6). */
  function FixedLength(k: nat): nat {
    if k <= 143 then 8 else if k <= 255 then 9 else if k <= 279 then 7 else 8
  }

  lemma FixedLengths()
    ensures |FixedLit()| == 288 && forall k :: 0 <= k < 288 ==> FixedLit()[k] == FixedLength(k)
  {
  }

  /** How the answer q shows when it is no output: the status, and where the reader has got to. */
  ghost predicate Came<T>(q: Answer<T>, st: Outcome, r: Reader)
    requires r.numBits <= 8 * r.pos
    reads r
  {
    match q
    case Read(_, e) => st == Running && r.Here() == e
    case Short(_) => st == Starved && r.pos == |r.input|
    case Bad(_) => st == Failed
    case _ => false
  }

  /** Reading on leads to q, and the symbol that stood at p was a repeat. */
  ghost predicate Repeats(q: Answer<Lens>, input: Bytes, p: nat, cl: Lens, total: nat, acc: Lens, sym: nat, next: nat) {
    LaxLens(BytesBits(input), p, cl, total, acc) == q && LaxSym(BytesBits(input), p, cl) == Read(sym, next)
  }

  /** What lengths go on with: one of them, or a repeat. */
  lemma LensLiteral(input: Bytes, p: nat, cl: Lens, total: nat, acc: Lens)
    requires |acc| < total
    ensures var sym, q := LaxSym(BytesBits(input), p, cl), LaxLens(BytesBits(input), p, cl, total, acc);
            && (sym.Short? ==> q.Short?)
            && (sym.Read? && sym.val < 16 ==>
                  q == LaxLens(BytesBits(input), sym.next, cl, total, acc + [sym.val]))
  {
    hide LaxSym, BytesBits, LaxBits;
  }

  /** What a repeat goes on with. */
  lemma LensRepeat(q: Answer<Lens>, input: Bytes, p: nat, cl: Lens, total: nat, acc: Lens, sym: nat, next: nat)
    requires |acc| < total && 16 <= sym < 19 && Repeats(q, input, p, cl, total, acc, sym, next)
    ensures var x := LaxBits(BytesBits(input), next, [2, 3, 7][sym - 16]);
            if sym == 16 && acc == [] then q.Bad?
            else if x.Short? then q.Short?
            else
              var last := if sym == 16 then acc[|acc| - 1] else 0;
              q == LaxLens(BytesBits(input), x.next, cl, total, acc + Rep(last, [3, 3, 11][sym - 16] + x.val))
  {
    hide LaxSym, BytesBits, LaxBits;
  }

  class Tables {
    const lit: Lookup
    const dist: Lookup
    const cl: Lookup
    const litSizes: array<nat>
    const distSizes: array<nat>
    const clSizes: array<nat>
    const lenCodes: array<nat>
    var litCount: nat
    var distCount: nat

    ghost predicate Shape() {
      && lit.Shape() && dist.Shape() && cl.Shape()
      && lit != dist && lit != cl && dist != cl
      && lit.tree.Length == 2 * 288 && dist.tree.Length == 2 * 32 && cl.tree.Length == 2 * 19
      && lit.look != dist.look && lit.look != dist.tree && lit.tree != dist.look && lit.tree != dist.tree
      && cl.look != lit.look && cl.look != lit.tree && cl.tree != lit.look && cl.tree != lit.tree
      && cl.look != dist.look && cl.look != dist.tree && cl.tree != dist.look && cl.tree != dist.tree
      && litSizes.Length == 288 && distSizes.Length == 32 && clSizes.Length == 19 && lenCodes.Length == 288 + 32 + 137
      && litSizes != distSizes && litSizes != clSizes && litSizes != lenCodes
      && distSizes != clSizes && distSizes != lenCodes && clSizes != lenCodes
    }

    constructor ()
      ensures Shape() && fresh(Parts())
    {
      lit := new Lookup(288);
      dist := new Lookup(32);
      cl := new Lookup(19);
      litSizes := new nat[288];
      distSizes := new nat[32];
      clSizes := new nat[19];
      lenCodes := new nat[288 + 32 + 137];
      litCount, distCount := 0, 0;
    }

    ghost function Parts(): set<object> {
      {this, lit, dist, cl, litSizes, distSizes, clSizes, lenCodes, lit.look, lit.tree, dist.look, dist.tree, cl.look,
          cl.tree}
    }

    /** Lengths that fit the arrays and the tables' bound. */
    ghost predicate Sized()
      reads this, litSizes, distSizes
    {
      && Shape() && litCount <= 288 && distCount <= 32
      && (forall i :: 0 <= i < litCount ==> litSizes[i] <= 15)
      && (forall i :: 0 <= i < distCount ==> distSizes[i] <= 15)
    }

    /** Both tables are built and small enough for the symbols they decode. */
    ghost predicate Built()
      reads lit, lit.look, lit.tree, dist, dist.look, dist.tree
    {
      Shape() && lit.Ready() && dist.Ready() && |lit.lens| <= 288 && |dist.lens| <= 32
    }

    /** The lengths of a fixed block. */
    method FixedSizes()
      requires Shape()
      modifies this, litSizes, distSizes
      ensures Sized() && litSizes[..litCount] == FixedLit() && distSizes[..distCount] == FixedDist()
    {
      hide FixedLit, Rep;
      litCount, distCount := 288, 32;
      for i := 0 to 32
        modifies distSizes
        invariant forall k :: 0 <= k < i ==> distSizes[k] == 5
      {
        distSizes[i] := 5;
      }
      for i := 0 to 288
        modifies litSizes
        invariant forall k :: 0 <= k < i ==> litSizes[k] == FixedLength(k)
      {
        litSizes[i] := if i <= 143 then 8 else if i <= 255 then 9 else if i <= 279 then 7 else 8;
      }
      FixedLengths();
      assert litSizes[..288] == FixedLit() && distSizes[..32] == FixedDist();
    }

    /** The code length code's lengths. */
    method ReadClSizes(r: Reader, n: nat) returns (ok: bool)
      requires Shape() && r.Valid() && n <= 19
      modifies r, clSizes
      ensures r.Valid() && old(r.Here()) <= r.Here() && forall i :: 0 <= i < 19 ==> clSizes[i] <= 7
      ensures var q := LaxClens(BytesBits(r.input), old(r.Here()), n);
              if ok then q == Read(clSizes[..], r.Here()) else q.Short? && r.pos == |r.input|
    {
      hide Span, BytesBits, Val;
      ghost var q := ReadClens(BytesBits(r.input), r.Here(), n, 0, Rep(0, 19));
      for i := 0 to 19
        modifies clSizes
        invariant forall k :: 0 <= k < i ==> clSizes[k] == 0
      {
        clSizes[i] := 0;
      }
      assert clSizes[..] == Rep(0, 19);
      Pow2Table();
      ok := true;
      for i: nat := 0 to n
        invariant r.Valid() && old(r.Here()) <= r.Here() && forall k :: 0 <= k < 19 ==> clSizes[k] <= 7
        invariant ReadClens(BytesBits(r.input), r.Here(), n, i, clSizes[..]) == q
      {
        var s;
        ok, s := r.GetBits(3);
        if !ok {
          return;
        }
        OrderTable(i);
        ghost var prior := clSizes[..];
        clSizes[DEZIGZAG[i]] := s;
        assert clSizes[..] == prior[ClOrder(i) := s];
      }
    }

    /** The parts of a repeat: the symbol's extra bits and what they repeat. */
    method ExpandRepeat(r: Reader, total: nat, counter: nat, sym: nat, ghost q: Answer<Lens>, ghost p: nat)
      returns (st: Outcome, counter': nat)
      requires Shape() && r.Valid() && 16 <= sym < 19 && counter < total <= 320
      requires forall i :: 0 <= i < counter ==> lenCodes[i] <= 15
      requires Repeats(q, r.input, p, cl.lens, total, lenCodes[..counter], sym, r.Here())
      modifies r, lenCodes
      ensures r.Valid() && old(r.Here()) <= r.Here() && (st != Running ==> Came(q, st, r))
      ensures st == Running ==> counter < counter' <= counter + 138 && forall i :: 0 <= i < counter' ==>
          lenCodes[i] <= 15
      ensures st == Running ==> LaxLens(BytesBits(r.input), r.Here(), cl.lens, total, lenCodes[..counter']) == q
    {
      hide Span, BytesBits, Val, LaxSym, LaxLens, Lookup.Shape;
      ghost var acc := lenCodes[..counter];
      LensRepeat(q, r.input, p, cl.lens, total, acc, sym, r.Here());
      counter' := counter;
      if sym == 16 && counter == 0 {
        return Failed, counter;
      }
      var extra := [2, 3, 7][sym - 16];
      var ok, s := r.GetBits(extra);
      if !ok {
        return Starved, counter;
      }
      Pow2Table();
      s := s + [3, 3, 11][sym - 16];
      var v := if sym == 16 then lenCodes[counter - 1] else 0;
      Repeat(counter, v, s);
      return Running, counter + s;
    }

    /** One step of the expansion: a length, or a repeat of the last one or of zero. */
    method ExpandOne(r: Reader, total: nat, counter: nat, ghost q: Answer<Lens>) returns (st: Outcome, counter': nat)
      requires Shape() && r.Valid() && cl.Ready() && |cl.lens| <= 19 && counter < total <= 320
      requires forall i :: 0 <= i < counter ==> lenCodes[i] <= 15
      requires q == LaxLens(BytesBits(r.input), r.Here(), cl.lens, total, lenCodes[..counter])
      modifies r, lenCodes
      ensures r.Valid() && old(r.Here()) <= r.Here() && (st != Running ==> Came(q, st, r))
      ensures st == Running ==> counter < counter' <= counter + 138 && forall i :: 0 <= i < counter' ==>
          lenCodes[i] <= 15
      ensures st == Running ==> LaxLens(BytesBits(r.input), r.Here(), cl.lens, total, lenCodes[..counter']) == q
    {
      hide Span, BytesBits, Val, Lookup.Ready, LaxSym, LaxLens, LaxBits;
      ghost var acc, p := lenCodes[..counter], r.Here();
      LensLiteral(r.input, p, cl.lens, total, acc);
      var ok, sym := Decode(r, cl);
      if !ok {
        return Starved, counter;
      }
      if sym < 16 {
        lenCodes[counter] := sym;
        assert lenCodes[..counter + 1] == acc + [sym];
        return Running, counter + 1;
      }
      st, counter' := ExpandRepeat(r, total, counter, sym, q, p);
    }

    /** s copies of v from slot counter on. */
    method Repeat(counter: nat, v: nat, s: nat)
      requires counter + s <= lenCodes.Length
      modifies lenCodes
      ensures lenCodes[..counter + s] == old(lenCodes[..counter]) + Rep(v, s)
    {
      for i := 0 to s
        invariant lenCodes[..counter + i] == old(lenCodes[..counter]) + Rep(v, i)
      {
        lenCodes[counter + i] := v;
      }
    }

    /** Expands the run-length coded code lengths. */
    method Expand(r: Reader, total: nat) returns (st: Outcome)
      requires Shape() && r.Valid() && cl.Ready() && |cl.lens| <= 19 && total <= 320
      modifies r, lenCodes
      ensures r.Valid() && old(r.Here()) <= r.Here()
      ensures st == Running ==> forall i :: 0 <= i < total ==> lenCodes[i] <= 15
      ensures var q := LaxLens(BytesBits(r.input), old(r.Here()), cl.lens, total, []);
              Came(q, st, r) && (st == Running ==> lenCodes[..total] == q.val)
    {
      hide Span, BytesBits, Val, Lookup.Ready, LaxSym;
      ghost var q := LaxLens(BytesBits(r.input), r.Here(), cl.lens, total, []);
      st := Running;
      var counter := 0;
      assert lenCodes[..0] == [];
      while counter < total
        invariant counter <= 457 && r.Valid() && old(r.Here()) <= r.Here() && cl.Ready() && st == Running
        invariant forall i :: 0 <= i < counter ==> lenCodes[i] <= 15
        invariant LaxLens(BytesBits(r.input), r.Here(), cl.lens, total, lenCodes[..counter]) == q
        decreases total - counter
      {
        st, counter := ExpandOne(r, total, counter, q);
        if st != Running {
          return;
        }
      }
      if counter != total {
        st := Failed;
      }
    }

    /** How many lengths of each of the three codes follow. */
    method ReadCounts(r: Reader) returns (ok: bool, clCount: nat)
      requires r.Valid()
      modifies `litCount, `distCount, r
      ensures r.Valid() && old(r.Here()) <= r.Here()
      ensures ok ==> litCount <= 288 && distCount <= 32 && clCount <= 19
      ensures var q := LaxCounts(BytesBits(r.input), old(r.Here()));
              if ok then q == Read((litCount, distCount, clCount), r.Here()) else q.Short? && r.pos == |r.input|
    {
      hide Span, BytesBits, Val;
      clCount := 0;
      Pow2Table();
      var hlit, hdist, hclen;
      ok, hlit := r.GetBits(5);
      if !ok { return; }
      ok, hdist := r.GetBits(5);
      if !ok { return; }
      ok, hclen := r.GetBits(4);
      if !ok { return; }
      litCount, distCount, clCount := hlit + 257, hdist + 1, hclen + 4;
    }

    /** The lengths that head the dynamic block at p, before they are checked. */
    ghost predicate SizesAnswer(s: Bits, p: nat, st: Outcome, r: Reader)
      requires r.numBits <= 8 * r.pos && (st == Running ==> Sized())
      reads this, r, litSizes, distSizes
    {
      var q := LaxSizes(s, p);
      Came(q, st, r) && (st == Running ==> q.val == (litSizes[..litCount], distSizes[..distCount]))
    }

    /** The lengths that head a dynamic block. */
    method DynamicSizes(r: Reader) returns (st: Outcome)
      requires Shape() && r.Valid()
      modifies this, r, clSizes, lenCodes, litSizes, distSizes, cl, cl.look, cl.tree
      ensures r.Valid() && old(r.Here()) <= r.Here()
      ensures st == Running ==> Sized()
      ensures SizesAnswer(BytesBits(r.input), old(r.Here()), st, r)
    {
      hide Span, BytesBits, Val, Decodable, Lookup.Ready, LaxLens, LaxClens, LaxBits, LaxCounts;
      st := Starved;
      var ok, clCount := ReadCounts(r);
      if !ok { return; }
      ok := ReadClSizes(r, clCount);
      if !ok { return; }
      assert clSizes[..19] == clSizes[..];
      ok := cl.Build(clSizes, 19);
      if !ok { return Failed; }
      st := Expand(r, litCount + distCount);
      if st == Running {
        SplitLengths();
      }
    }

    /** Copies the expanded lengths to the two codes they belong to. */
    method SplitLengths()
      requires Shape() && litCount <= 288 && distCount <= 32
      requires forall i :: 0 <= i < litCount + distCount ==> lenCodes[i] <= 15
      modifies litSizes, distSizes
      ensures Sized() && litSizes[..litCount] == lenCodes[..litCount + distCount][..litCount]
      ensures distSizes[..distCount] == lenCodes[..litCount + distCount][litCount..]
    {
      for i := 0 to litCount
        modifies litSizes
        invariant forall k :: 0 <= k < i ==> litSizes[k] == lenCodes[k]
      {
        litSizes[i] := lenCodes[i];
      }
      for i := 0 to distCount
        modifies distSizes
        invariant forall k :: 0 <= k < i ==> distSizes[k] == lenCodes[litCount + k]
      {
        distSizes[i] := lenCodes[litCount + i];
      }
    }

    /** Builds the distance table, then the literal/length table. */
    method BuildBoth() returns (ok: bool)
      requires Sized()
      modifies lit, lit.look, lit.tree, dist, dist.look, dist.tree
      ensures ok <==> Decodable(litSizes[..litCount]) && Decodable(distSizes[..distCount])
      ensures ok ==> Built() && lit.lens == litSizes[..litCount] && dist.lens == distSizes[..distCount]
    {
      hide Decodable, TreeWalk.Ready;
      ok := dist.Build(distSizes, distCount);
      if ok {
        ok := lit.Build(litSizes, litCount);
      }
    }

    /** The tables of a block: fixed for kind 1, transmitted for kind 2. */
    method Prepare(r: Reader, kind: nat) returns (st: Outcome)
      requires Shape() && r.Valid() && (kind == 1 || kind == 2)
      modifies this, r, clSizes, lenCodes, litSizes, distSizes, cl, cl.look, cl.tree
      modifies lit, lit.look, lit.tree, dist, dist.look, dist.tree
      ensures r.Valid() && old(r.Here()) <= r.Here()
      ensures st == Running ==> Built()
      ensures kind == 1 ==>
          st == Running && r.Here() == old(r.Here()) && lit.lens == FixedLit() && dist.lens == FixedDist()
      ensures kind == 2 ==>
                var q := LaxTables(BytesBits(r.input), old(r.Here()));
                Came(q, st, r) && (st == Running ==> q.val == (lit.lens, dist.lens))
    {
      hide Span, BytesBits, Val, Decodable, Lookup.Ready, FixedLit, FixedDist, Lookup.Shape;
      st := Running;
      if kind == 1 {
        FixedSizes();
        FixedDecodable();
      } else {
        st := DynamicSizes(r);
        if st != Running { return; }
      }
      var ok := BuildBoth();
      if !ok {
        st := Failed;
      }
    }
  }
}
