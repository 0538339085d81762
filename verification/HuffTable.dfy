/** Building one of the compressor's Huffman tables from symbol counts (tdefl_optimize_huffman_table). */
module HuffTable {
  import opened Arith
  import opened Bits
  import opened Canonical
  import opened CodeCost
  import opened RadixSort
  import opened SymbolCounts
  import opened HuffmanTree
  import opened MinRedundancy
  import opened LengthLimit
  import opened LimitCost

  // ---- Lengths handed back to symbols.

  lemma {:induction false} CountUpdate(lens: Lens, s: nat, v: nat, l: nat)
    requires s < |lens|
    ensures Count(lens[s := v], l) ==
            Count(lens, l) - (if lens[s] == l then 1 else 0) + (if v == l then 1 else 0)
    decreases |lens|
  {
    var last := |lens| - 1;
    if s < last {
      CountUpdate(lens[..last], s, v, l);
      assert lens[s := v][..last] == lens[..last][s := v];
    } else {
      assert lens[s := v][..last] == lens[..last];
    }
  }

  lemma {:induction false} UsedUpdate(lens: Lens, s: nat, v: nat)
    requires s < |lens| && lens[s] == 0 && v > 0
    ensures Used(lens[s := v]) == Used(lens) + 1
    decreases |lens|
  {
    var last := |lens| - 1;
    if s < last {
      UsedUpdate(lens[..last], s, v);
      assert lens[s := v][..last] == lens[..last][s := v];
    } else {
      assert lens[s := v][..last] == lens[..last];
    }
  }

  lemma {:induction false} AllZero(lens: Lens, l: nat)
    requires l > 0 && forall i :: 0 <= i < |lens| ==> lens[i] == 0
    ensures Count(lens, l) == 0 && Used(lens) == 0
  {
    if lens != [] {
      AllZero(lens[..|lens| - 1], l);
    }
  }

  /** Code assignment walks the same sum as the Kraft weight. */
  lemma {:induction false} NextCodeWeight(lens: Lens, num: seq<nat>, m: nat, k: nat)
    requires k <= m && k < |num| && forall l :: 1 <= l <= k ==> Count(lens, l) == num[l]
    ensures NextCode(lens, k + 1) * Pow2(m - k) == 2 * Weight(num, m, k)
    decreases k
  {
    if k > 0 {
      NextCodeWeight(lens, num, m, k - 1);
      DoubleStep(NextCode(lens, k), num[k], Pow2(m - k), Weight(num, m, k - 1));
    }
  }

  lemma DoubleStep(c: nat, x: nat, p: nat, w: nat)
    requires c * (2 * p) == 2 * w
    ensures 2 * (c + x) * p == 2 * (w + x * p)
  {
    assert 2 * (c + x) * p == c * (2 * p) + 2 * (x * p);
  }

  /** Of two or more used symbols, exactly the lengths that a full histogram counts make a decodable code. */
  lemma FullIsDecodable(lens: Lens, num: seq<nat>, n: nat, limit: nat)
    requires 1 <= limit <= 15 && |num| == 33 && Total(num, limit) == n == Used(lens) && n > 1
    requires forall l :: 1 <= l <= limit ==> Count(lens, l) == num[l]
    requires forall i :: 0 <= i < |lens| ==> lens[i] <= limit
    ensures Decodable(lens) <==> Full(num, n, limit)
  {
    hide NextCode, Count, Used, Pow2, Weight, Total;
    Pow2Table();
    Pow2Add(limit, 15 - limit);
    NextCodeWeight(lens, num, limit, limit);
    NextCodeDoubles(lens, limit, 15);
    SameScale(Weight(num, limit, limit), Pow2(limit), Pow2(15 - limit));
  }

  lemma SameScale(a: nat, b: nat, c: nat)
    requires c > 0
    ensures 2 * a * c == 2 * (b * c) <==> a == b
  {
    if 2 * a * c == 2 * (b * c) {
      MulCancelLe(a, b, c);
      MulCancelLe(b, a, c);
    }
  }

  /** The used symbols with their counts, lightest first. */
  ghost predicate Ranked(t: seq<SymFreq>, counts: seq<nat>) {
    multiset(t) == multiset(Gather(counts)) && Ascending(Keys(t))
  }

  /** The used symbols in symbol order. */
  method GatherUsed(counts: array<nat>) returns (syms: array<SymFreq>, n: nat)
    ensures n <= counts.Length && syms.Length == counts.Length && fresh(syms)
    ensures syms[..n] == Gather(counts[..])
  {
    hide Gather;
    syms := new SymFreq[counts.Length](_ => SymFreq(0, 0));
    n := 0;
    GatherStart(counts[..0]);
    for i := 0 to counts.Length
      invariant n <= i && syms[..n] == Gather(counts[..i])
    {
      GatherStep(counts[..i + 1]);
      assert counts[..i + 1][..i] == counts[..i];
      if counts[i] != 0 {
        syms[n] := SymFreq(counts[i], i);
        n := n + 1;
      }
    }
    assert counts[..counts.Length] == counts[..];
  }

  /** The used symbols in ascending order of count, each key replaced by the length of a cheapest code,
      longest first. */
  method SortAndMeasure(counts: array<nat>) returns (syms: array<SymFreq>, n: nat, ghost t: seq<SymFreq>)
    requires Sum(counts[..]) < 65536
    ensures n <= counts.Length && syms.Length == counts.Length && fresh(syms) && |t| == n && Ranked(t, counts[..])
    ensures forall i :: 0 <= i < n ==> syms[i].sym == t[i].sym
    ensures Lengths(Keys(syms[..n]))
    ensures n >= 2 ==> FillsSpace(Keys(syms[..n]), 32) && Minimal(Keys(t), Keys(syms[..n]))
    ensures n == 1 ==> syms[0].key == 1
  {
    hide Uses, Lengths, FillsSpace, Sum, Gather, Sorted, Ascending, Minimal;
    var syms0;
    syms0, n := GatherUsed(counts);
    var syms1 := new SymFreq[counts.Length](_ => SymFreq(0, 0));
    ghost var g := Gather(counts[..]);
    SameSum(counts[..], g);
    SmallKeys(g);
    syms := RadixSortSyms(n, syms0, syms1);
    t := syms[..n];
    SortedUses(counts[..], t);
    SameSum(counts[..], t);
    SortedAscending(t);
    if n > 0 {
      UsesPositive(t, counts[..]);
      assert syms[0] == t[0];
    }
    CalculateMinimumRedundancy(syms, n);
    if n == 1 {
      assert Keys(syms[..n])[0] == syms[0].key;
    }
  }

  lemma GatherStart(c: seq<nat>)
    requires c == []
    ensures Gather(c) == []
  {
  }

  lemma GatherStep(c: seq<nat>)
    requires c != []
    ensures var last := |c| - 1;
            Gather(c) == Gather(c[..last]) + (if c[last] != 0 then [SymFreq(c[last], last)] else [])
  {
  }

  lemma SmallKeys(g: seq<SymFreq>)
    requires Sum(Keys(g)) < 65536
    ensures Keys16(g)
  {
    forall i | 0 <= i < |g|
      ensures g[i].key < 65536
    {
      SumPart(Keys(g), i);
    }
  }

  lemma SortedAscending(t: seq<SymFreq>)
    requires Sorted(t)
    ensures Ascending(Keys(t))
  {
  }

  lemma UsesPositive(t: seq<SymFreq>, counts: seq<nat>)
    requires Uses(t, counts) && forall i :: 0 <= i < |t| ==> t[i].key == counts[t[i].sym]
    ensures forall i :: 0 <= i < |t| ==> t[i].key >= 1
  {
  }

  /** The histogram of measured lengths. */
  method TallyLengths(syms: array<SymFreq>, n: nat) returns (num: array<nat>)
    requires n <= syms.Length && Lengths(Keys(syms[..n]))
    requires n >= 2 ==> FillsSpace(Keys(syms[..n]), 32)
    ensures fresh(num) && num.Length == 33
    ensures Keys(syms[..n]) == Spread(num[..], 32)
    ensures n >= 2 ==> Full(num[..], n, 32)
  {
    hide Total, Weight, Kraft, FillsSpace, Full, Spread;
    num := new nat[33](_ => 0);
    SpreadNone(num[..], 32);
    ghost var lens: seq<nat> := Keys(syms[..n]);
    for i := 0 to n
      invariant syms[..n] == old(syms[..n])
      invariant lens[..i] == Spread(num[..], 32)
      invariant forall l :: 1 <= l <= 32 && (i == 0 || l < lens[i - 1]) ==> num[l] == 0
    {
      SpreadAppend(num[..], lens[i], 32);
      assert lens[..i + 1] == lens[..i] + [lens[i]];
      num[syms[i].key] := num[syms[i].key] + 1;
    }
    assert lens[..n] == lens;
    if n >= 2 {
      TallyFull(num[..], lens, n);
    }
  }

  lemma TallyFull(num: seq<nat>, lens: seq<nat>, n: nat)
    requires |num| == 33 && lens == Spread(num, 32) && FillsSpace(lens, 32) && n == |lens|
    ensures Full(num, n, 32)
  {
    SpreadSize(num, 32);
    SpreadKraft(num, 32, 32);
  }

  /** While lengths are handed out: j symbols still have none, and lengths below l are used up. */
  ghost predicate HandingOut(sizes: seq<nat>, syms: seq<SymFreq>, num: seq<nat>, l: nat, placed: nat, j: nat,
      limit: nat)
    requires |num| == 33 && limit < 33
  {
    && 1 <= l <= limit + 1 && j <= |syms|
    && (forall i :: 0 <= i < |syms| ==> syms[i].sym < |sizes|)
    && (forall i :: 0 <= i < j ==> sizes[syms[i].sym] == 0)
    && (forall i :: j <= i < |syms| ==> 1 <= sizes[syms[i].sym] <= limit)
    && (forall s :: 0 <= s < |sizes| && sizes[s] != 0 ==> exists i :: j <= i < |syms| && syms[i].sym == s)
    && (forall s :: 0 <= s < |sizes| ==> sizes[s] <= limit)
    && (forall k :: 1 <= k <= limit ==>
          Count(sizes, k) == if k < l then num[k] else if k == l then placed else 0)
    && Used(sizes) == |syms| - j
  }

  /** And the symbols that have theirs have the histogram's, longest first. */
  ghost predicate Assigning(sizes: seq<nat>, syms: seq<SymFreq>, num: seq<nat>, l: nat, placed: nat, j: nat, limit: nat)
    requires |num| == 33 && limit < 33
  {
    && HandingOut(sizes, syms, num, l, placed, j, limit)
    && Picked(sizes, syms[j..]) == Rep(l, placed) + Spread(num, l - 1)
  }

  lemma HandOut(sizes: seq<nat>, syms: seq<SymFreq>, num: seq<nat>, l: nat, placed: nat, j: nat, limit: nat)
    requires |num| == 33 && 1 <= l <= limit < 33
    requires HandingOut(sizes, syms, num, l, placed, j, limit) && j > 0
    requires forall i, k :: 0 <= i < k < |syms| ==> syms[i].sym != syms[k].sym
    ensures HandingOut(sizes[syms[j - 1].sym := l], syms, num, l, placed + 1, j - 1, limit)
  {
    hide Count, Used;
    var s := syms[j - 1].sym;
    UsedUpdate(sizes, s, l);
    forall k | 1 <= k <= limit
      ensures Count(sizes[s := l], k) == if k < l then num[k] else if k == l then placed + 1 else 0
    {
      CountUpdate(sizes, s, l, k);
    }
    var t := sizes[s := l];
    forall x | 0 <= x < |t| && t[x] != 0
      ensures exists i :: j - 1 <= i < |syms| && syms[i].sym == x
    {
      if x == s {
        assert syms[j - 1].sym == x;
      } else {
        assert sizes[x] != 0;
      }
    }
  }

  lemma AssignOne(sizes: seq<nat>, syms: seq<SymFreq>, num: seq<nat>, l: nat, placed: nat, j: nat, limit: nat)
    requires |num| == 33 && 1 <= l <= limit < 33
    requires Assigning(sizes, syms, num, l, placed, j, limit) && j > 0
    requires forall i, k :: 0 <= i < k < |syms| ==> syms[i].sym != syms[k].sym
    ensures syms[j - 1].sym < |sizes|
    ensures Assigning(sizes[syms[j - 1].sym := l], syms, num, l, placed + 1, j - 1, limit)
  {
    AssignBounds(sizes, syms, num, l, placed, j, limit);
    HandOut(sizes, syms, num, l, placed, j, limit);
    hide HandingOut, Count, Used, Spread, Picked, Rep;
    PickedMore(sizes, syms, j, l);
    RepMore(l, placed, Spread(num, l - 1));
  }

  lemma RepMore(l: nat, placed: nat, rest: seq<nat>)
    ensures [l] + (Rep(l, placed) + rest) == Rep(l, placed + 1) + rest
  {
  }

  lemma SpreadNext(num: seq<nat>, l: nat)
    requires 0 < l < |num|
    ensures Rep(l + 1, 0) + Spread(num, l) == Rep(l, num[l]) + Spread(num, l - 1)
  {
  }

  lemma PickedMore(sizes: seq<nat>, syms: seq<SymFreq>, j: nat, l: nat)
    requires 0 < j <= |syms| && forall i :: 0 <= i < |syms| ==> syms[i].sym < |sizes|
    requires forall i, k :: 0 <= i < k < |syms| ==> syms[i].sym != syms[k].sym
    ensures Picked(sizes[syms[j - 1].sym := l], syms[j - 1..]) == [l] + Picked(sizes, syms[j..])
  {
    var t := sizes[syms[j - 1].sym := l];
    forall i | 0 <= i < |syms| - (j - 1)
      ensures Picked(t, syms[j - 1..])[i] == ([l] + Picked(sizes, syms[j..]))[i]
    {
      assert syms[j - 1..][i] == syms[j - 1 + i];
      if i > 0 {
        assert syms[j..][i - 1] == syms[j - 1 + i];
      }
    }
  }

  /** Shortest lengths go to the most frequent symbols. */
  method AssignLengths(sizes: array<nat>, syms: array<SymFreq>, n: nat, num: array<nat>, limit: nat,
      ghost counts: seq<nat>)
    requires n <= syms.Length && sizes.Length == |counts| && num.Length == 33 && 1 <= limit < 33 && sizes != num
    requires Uses(syms[..n], counts) && Total(num[..], limit) == n
    modifies sizes
    ensures forall s :: 0 <= s < sizes.Length ==> sizes[s] <= limit && (sizes[s] > 0 <==> counts[s] > 0)
    ensures forall l :: 1 <= l <= limit ==> Count(sizes[..], l) == num[l]
    ensures Used(sizes[..]) == n
    ensures Picked(sizes[..], syms[..n]) == Spread(num[..], limit)
  {
    hide Assigning, Uses, Total, Count, Used, Spread;
    for i := 0 to sizes.Length
      invariant forall k :: 0 <= k < i ==> sizes[k] == 0
    {
      sizes[i] := 0;
    }
    ghost var ss := syms[..n];
    ghost var nn: seq<nat> := num[..];
    AssignStart(sizes[..], ss, nn, limit, counts);
    var j := n;
    TotalStart(nn);
    for i: nat := 1 to limit + 1
      invariant syms[..n] == ss && num[..] == nn
      invariant 0 <= j <= n && j + Total(nn, i - 1) == n
      invariant Assigning(sizes[..], ss, nn, i, 0, j, limit)
    {
      TotalStep(nn, i);
      TotalMono(nn, i, limit);
      var l: nat := num[i];
      while l > 0
        invariant 0 <= l <= nn[i] && syms[..n] == ss && num[..] == nn
        invariant 0 <= j <= n && j + Total(nn, i) == n + l
        invariant Assigning(sizes[..], ss, nn, i, nn[i] - l, j, limit)
        decreases l
      {
        UsesDistinct(ss, counts);
        AssignBounds(sizes[..], ss, nn, i, nn[i] - l, j, limit);
        AssignOne(sizes[..], ss, nn, i, nn[i] - l, j, limit);
        j := j - 1;
        assert syms[j] == ss[j];
        sizes[syms[j].sym] := i;
        l := l - 1;
      }
      AssignNext(sizes[..], ss, nn, i, j, limit);
    }
    AssignDone(sizes[..], ss, nn, limit, counts);
  }

  lemma TotalStart(num: seq<nat>)
    requires |num| > 0
    ensures Total(num, 0) == 0
  {
  }

  lemma {:induction false} TotalMono(num: seq<nat>, a: nat, b: nat)
    requires a <= b < |num|
    ensures Total(num, a) <= Total(num, b)
    decreases b
  {
    if a < b {
      TotalMono(num, a, b - 1);
    }
  }

  lemma UsesDistinct(syms: seq<SymFreq>, counts: seq<nat>)
    requires Uses(syms, counts)
    ensures forall i, k :: 0 <= i < k < |syms| ==> syms[i].sym != syms[k].sym
  {
  }

  lemma AssignStart(sizes: seq<nat>, syms: seq<SymFreq>, num: seq<nat>, limit: nat, counts: seq<nat>)
    requires |num| == 33 && 1 <= limit < 33 && |sizes| == |counts| && Uses(syms, counts)
    requires forall i :: 0 <= i < |sizes| ==> sizes[i] == 0
    ensures Assigning(sizes, syms, num, 1, 0, |syms|, limit)
  {
    forall k | 1 <= k <= limit
      ensures Count(sizes, k) == 0
    {
      AllZero(sizes, k);
    }
    AllZero(sizes, 1);
    assert Picked(sizes, syms[|syms|..]) == Rep(1, 0) + Spread(num, 0);
  }

  lemma AssignBounds(sizes: seq<nat>, syms: seq<SymFreq>, num: seq<nat>, l: nat, placed: nat, j: nat, limit: nat)
    requires |num| == 33 && limit < 33 && Assigning(sizes, syms, num, l, placed, j, limit)
    ensures forall i :: 0 <= i < |syms| ==> syms[i].sym < |sizes|
  {
  }

  lemma AssignNext(sizes: seq<nat>, syms: seq<SymFreq>, num: seq<nat>, l: nat, j: nat, limit: nat)
    requires |num| == 33 && limit < 33 && 1 <= l <= limit && Assigning(sizes, syms, num, l, num[l], j, limit)
    ensures Assigning(sizes, syms, num, l + 1, 0, j, limit)
  {
    hide Count, Used, Spread, Picked, Rep;
    SpreadNext(num, l);
  }

  lemma AssignDone(sizes: seq<nat>, syms: seq<SymFreq>, num: seq<nat>, limit: nat, counts: seq<nat>)
    requires |num| == 33 && limit < 33 && |sizes| == |counts| && Uses(syms, counts)
    requires Assigning(sizes, syms, num, limit + 1, 0, 0, limit)
    ensures forall s :: 0 <= s < |sizes| ==> sizes[s] <= limit && (sizes[s] > 0 <==> counts[s] > 0)
    ensures forall l :: 1 <= l <= limit ==> Count(sizes, l) == num[l]
    ensures Used(sizes) == |syms| && Picked(sizes, syms) == Spread(num, limit)
  {
    assert syms[0..] == syms && Rep(limit + 1, 0) + Spread(num, limit) == Spread(num, limit);
    forall s | 0 <= s < |sizes|
      ensures sizes[s] > 0 <==> counts[s] > 0
    {
      if counts[s] > 0 {
        var i :| 0 <= i < |syms| && syms[i].sym == s;
        assert sizes[syms[i].sym] >= 1;
      }
    }
  }

  // ---- Canonical codes from lengths.

  /** The low size bits of code, mirrored. */
  method ReverseBits(code: nat, size: nat) returns (rev: nat)
    ensures rev == Reverse(code, size)
  {
    rev := 0;
    var c, l := code, size;
    while l > 0
      invariant 0 <= l <= size && 0 <= c
      invariant Reverse(code, size) == rev * Pow2(l) + Reverse(c, l)
    {
      ReverseStep(rev, c, l);
      rev := rev * 2 + c % 2;
      c := c / 2;
      l := l - 1;
    }
  }

  lemma ReverseStep(rev: nat, c: nat, l: nat)
    requires l > 0
    ensures rev * Pow2(l) + Reverse(c, l) == (rev * 2 + c % 2) * Pow2(l - 1) + Reverse(c / 2, l - 1)
  {
    var p := Pow2(l - 1);
    assert rev * (2 * p) + c % 2 * p == (rev * 2 + c % 2) * p;
  }

  /** next_code[l] is the first code of length l, plus the codes of that length handed out to symbols below i. */
  ghost predicate Handed(next: seq<nat>, lens: Lens, i: nat, limit: nat)
    requires i <= |lens| && limit < |next|
  {
    forall l :: 1 <= l <= limit ==> next[l] == NextCode(lens, l) + Count(lens[..i], l)
  }

  lemma HandOne(next: seq<nat>, lens: Lens, i: nat, limit: nat)
    requires i < |lens| && limit < |next| && lens[i] <= limit && Handed(next, lens, i, limit)
    ensures lens[i] > 0 ==> next[lens[i]] == Code(lens, i)
    ensures Handed(if lens[i] > 0 then next[lens[i] := next[lens[i]] + 1] else next, lens, i + 1, limit)
  {
    assert lens[..i + 1][..i] == lens[..i];
  }

  lemma HandStart(next: seq<nat>, lens: Lens, limit: nat)
    requires limit < |next| && forall l :: 1 <= l <= limit ==> next[l] == NextCode(lens, l)
    ensures Handed(next, lens, 0, limit)
  {
    assert lens[..0] == [];
  }

  /** The first code of each length. */
  method NextCodes(num: array<nat>, limit: nat, ghost lens: Lens) returns (next: array<nat>)
    requires num.Length == 33 && 1 <= limit < 33
    requires forall l :: 1 <= l <= limit ==> Count(lens, l) == num[l]
    ensures fresh(next) && next.Length == 33 && forall l :: 1 <= l <= limit ==> next[l] == NextCode(lens, l)
  {
    hide Count;
    next := new nat[33](_ => 0);
    var j := 0;
    for i: nat := 2 to limit + 1
      invariant forall l :: 1 <= l < i ==> next[l] == NextCode(lens, l)
      invariant j == NextCode(lens, i - 1)
    {
      j := (j + num[i - 1]) * 2;
      next[i] := j;
    }
  }

  method AssignCodes(sizes: array<nat>, codes: array<nat>, num: array<nat>, limit: nat)
    requires codes.Length == sizes.Length && num.Length == 33 && 1 <= limit < 33 && codes != sizes && codes != num
    requires forall l :: 1 <= l <= limit ==> Count(sizes[..], l) == num[l]
    requires forall s :: 0 <= s < sizes.Length ==> sizes[s] <= limit
    modifies codes
    ensures forall s :: 0 <= s < sizes.Length && sizes[s] > 0 ==> codes[s] == RevCode(sizes[..], s)
  {
    hide Count, Handed, Reverse, RevCode, NextCode, Code;
    ghost var lens: Lens := sizes[..];
    var next := NextCodes(num, limit, lens);
    HandStart(next[..], lens, limit);
    for i := 0 to sizes.Length
      invariant sizes[..] == lens
      invariant Handed(next[..], lens, i, limit)
      invariant forall s :: 0 <= s < i && lens[s] > 0 ==> codes[s] == RevCode(lens, s)
    {
      HandOne(next[..], lens, i, limit);
      var size: nat := sizes[i];
      if size != 0 {
        var code := next[size];
        next[size] := next[size] + 1;
        var rev := ReverseBits(code, size);
        codes[i] := rev;
        RevCodeIs(lens, i);
      }
    }
  }

  lemma RevCodeIs(lens: Lens, s: nat)
    requires s < |lens|
    ensures RevCode(lens, s) == Reverse(Code(lens, s), lens[s])
  {
  }

  /** One table of the compressor: symbol counts, and the code lengths and bit-reversed codes made from them. */
  class Table {
    const counts: array<nat>
    const sizes: array<nat>
    const codes: array<nat>

    ghost function Parts(): set<array<nat>> {
      {counts, sizes, codes}
    }

    constructor (n: nat)
      ensures Valid() && counts.Length == n && fresh(Parts())
      ensures forall i :: 0 <= i < n ==> counts[i] == 0
    {
      counts := new nat[n](_ => 0);
      sizes := new nat[n](_ => 0);
      codes := new nat[n](_ => 0);
    }

    predicate Valid() {
      && counts != sizes && counts != codes && sizes != codes
      && sizes.Length == counts.Length && codes.Length == counts.Length
    }

    /** Every symbol with a length has its canonical code, and the lengths are ones a decoder accepts. */
    predicate Ready()
      reads sizes, codes
      requires Valid()
    {
      && Decodable(sizes[..])
      && forall s :: 0 <= s < sizes.Length && sizes[s] > 0 ==> codes[s] == RevCode(sizes[..], s)
    }

    /** Dynamic tables get lengths from the counts; static ones keep the lengths they hold. */
    method Optimize(limit: nat, staticTable: bool)
      requires Valid() && 1 <= limit <= 15
      requires staticTable ==> Decodable(sizes[..]) && forall s :: 0 <= s < sizes.Length ==> sizes[s] <= limit
      requires !staticTable ==> Sum(counts[..]) < 65536 && counts.Length <= Pow2(limit)
      modifies sizes, codes
      ensures Ready()
      ensures staticTable ==> sizes[..] == old(sizes[..])
      ensures !staticTable ==>
                forall s :: 0 <= s < sizes.Length ==> sizes[s] <= limit && (sizes[s] > 0 <==> counts[s] > 0)
      ensures !staticTable && limit == 15 && (forall s :: 286 <= s < counts.Length ==> counts[s] == 0) ==>
                NearlyMinimal(counts[..], sizes[..])
    {
      hide Decodable, Count, RevCode, NearlyMinimal, Sum;
      var num: array<nat>;
      if staticTable {
        num := CountSizes(sizes);
      } else {
        num := MeasureSizes(limit);
      }
      AssignCodes(sizes, codes, num, limit);
    }

    /** Lengths from the counts: sorted, measured, limited and handed out. */
    method MeasureSizes(limit: nat) returns (num: array<nat>)
      requires Valid() && 1 <= limit <= 15 && Sum(counts[..]) < 65536 && counts.Length <= Pow2(limit)
      modifies sizes
      ensures fresh(num) && num.Length == 33 && forall l :: 1 <= l <= limit ==> Count(sizes[..], l) == num[l]
      ensures Decodable(sizes[..])
      ensures forall s :: 0 <= s < sizes.Length ==> sizes[s] <= limit && (sizes[s] > 0 <==> counts[s] > 0)
      ensures limit == 15 && (forall s :: 286 <= s < counts.Length ==> counts[s] == 0) ==>
          NearlyMinimal(counts[..], sizes[..])
    {
      hide Decodable, Sum, Uses, Lengths, FillsSpace, Full, Total, Count, Used, Minimal, Ranked, Spread, Repaired,
           NearlyMinimal;
      var syms, n;
      ghost var t: seq<SymFreq>;
      syms, n, t := SortAndMeasure(counts);
      RankedUses(t, counts[..]);
      UsesSameSyms(t, syms[..n], counts[..]);
      num := TallyLengths(syms, n);
      ghost var num0: seq<nat>, lens: seq<nat> := num[..], Keys(syms[..n]);
      EnforceMaxCodeSize(num, n, limit);
      HistogramTotal(num0, num[..], n, lens, limit);
      AssignLengths(sizes, syms, n, num, limit, counts[..]);
      AssignedDecodable(sizes[..], num[..], n, limit);
      if limit == 15 && forall s :: 286 <= s < counts.Length ==> counts[s] == 0 {
        assert Picked(sizes[..], syms[..n]) == Picked(sizes[..], t);
        SizesCost(counts[..], sizes[..], t, lens, num0, num[..]);
      }
    }
  }

  lemma RankedUses(t: seq<SymFreq>, counts: seq<nat>)
    requires Ranked(t, counts)
    ensures Uses(t, counts) && |t| <= |counts|
  {
    SortedUses(counts, t);
  }

  /** The lengths cost at most one bit a symbol more than any prefix code's. */
  ghost predicate NearlyMinimal(counts: seq<nat>, sizes: seq<nat>) {
    && |sizes| == |counts|
    && forall ls: seq<nat>, m: nat :: |ls| == |counts| && KraftFits(ls, m) ==>
        Cost(counts, sizes) <= Cost(counts, ls) + Sum(counts)
  }

  lemma SizesCost(counts: seq<nat>, sizes: seq<nat>, t: seq<SymFreq>, lens: seq<nat>, num0: seq<nat>, num: seq<nat>)
    requires |sizes| == |counts| && Ranked(t, counts) && |num0| == |num| == 33 && |lens| == |t|
    requires Picked(sizes, t) == Spread(num, 15) && lens == Spread(num0, 32) && Total(num, 15) == |t|
    requires |t| >= 2 ==> Minimal(Keys(t), lens) && Repaired(num0, num, |t|, 15)
    requires |t| == 1 ==> Spread(num, 15) == [1]
    requires forall s :: 286 <= s < |counts| ==> counts[s] == 0
    ensures NearlyMinimal(counts, sizes)
  {
    hide Sum, Cost, Gather, KraftFits, Total, Spread, Repaired, Ascending, Picked, Keys;
    SameSum(counts, t);
    SameCost(counts, t, sizes);
    GatherBound(counts, 286);
    assert |multiset(t)| == |multiset(Gather(counts))|;
    if |t| >= 2 {
      LimitedCost(Keys(t), lens, num0, num, |t|);
      forall ls: seq<nat>, m: nat | |ls| == |counts| && KraftFits(ls, m)
        ensures Cost(counts, sizes) <= Cost(counts, ls) + Sum(counts)
      {
        UsedFit(counts, t, ls, m);
        SameCost(counts, t, ls);
        assert Cost(Keys(t), lens) <= Cost(Keys(t), Picked(ls, t));
      }
    } else {
      AtMostOne(Keys(t), Picked(sizes, t));
    }
  }

  lemma AtMostOne(w: seq<nat>, lens: seq<nat>)
    requires |w| == |lens| <= 1 && (|w| == 1 ==> lens == [1])
    ensures Cost(w, lens) == Sum(w)
  {
    if |w| == 1 {
      assert w == [w[0]];
      CostOne(w[0], 1);
      SumOne(w[0]);
    }
  }

  lemma NoFront(f: seq<nat>, rest: seq<nat>, lens: seq<nat>)
    requires lens == f + rest && |lens| > 0 && lens[0] == 1 && forall i :: 0 <= i < |f| ==> f[i] > 1
    ensures f == []
  {
    if f != [] {
      assert false;
    }
  }

  /** The limited histogram still counts every symbol; a lone symbol keeps its one bit. */
  lemma HistogramTotal(num0: seq<nat>, num: seq<nat>, n: nat, lens: seq<nat>, limit: nat)
    requires |num0| == |num| == 33 && 1 <= limit < 33 && |lens| == n && lens == Spread(num0, 32)
    requires n <= 1 ==> num == num0
    requires n == 1 ==> lens[0] == 1
    requires n > 1 ==> Full(num, n, limit)
    ensures Total(num, limit) == n
    ensures n == 1 ==> Spread(num, limit) == [1]
  {
    hide Spread, Total;
    if n <= 1 {
      SpreadSize(num, 32);
      TotalMono(num, limit, 32);
      if n == 1 {
        var f := SpreadTail(num, 32, 1);
        NoFront(f, Spread(num, 1), lens);
        TotalMono(num, 1, limit);
        var h := SpreadTail(num, limit, 1);
        assert h == [] && f == [];
      }
    } else {
      FullTotal(num, n, limit);
    }
  }

  lemma FullTotal(num: seq<nat>, n: nat, limit: nat)
    requires Full(num, n, limit)
    ensures limit < |num| && Total(num, limit) == n
  {
  }

  lemma AssignedDecodable(lens: Lens, num: seq<nat>, n: nat, limit: nat)
    requires 1 <= limit <= 15 && |num| == 33 && (n > 1 ==> Full(num, n, limit)) && Used(lens) == n
    requires forall l :: 1 <= l <= limit ==> Count(lens, l) == num[l]
    requires forall i :: 0 <= i < |lens| ==> lens[i] <= limit
    ensures Decodable(lens)
  {
    if n > 1 {
      FullTotal(num, n, limit);
      FullIsDecodable(lens, num, n, limit);
    }
  }

  /** The histogram of given lengths. */
  method CountSizes(sizes: array<nat>) returns (num: array<nat>)
    requires forall s :: 0 <= s < sizes.Length ==> sizes[s] <= 32
    ensures fresh(num) && num.Length == 33
    ensures forall l :: 0 <= l <= 32 ==> num[l] == Count(sizes[..], l)
  {
    num := new nat[33](_ => 0);
    for i := 0 to sizes.Length
      invariant forall l :: 0 <= l <= 32 ==> num[l] == Count(sizes[..i], l)
    {
      assert sizes[..i + 1][..i] == sizes[..i];
      num[sizes[i]] := num[sizes[i]] + 1;
    }
    assert sizes[..sizes.Length] == sizes[..];
  }
}
