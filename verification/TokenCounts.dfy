/** How often each symbol is needed, and what coding the tokens with lengths made from those counts takes. */
module TokenCounts {
  import opened Arith
  import opened Bits
  import opened Canonical
  import opened Format
  import opened Encoding
  import opened CodeCost
  import opened HuffTable

  predicate AllLegal(ts: seq<Token>) {
    forall i :: 0 <= i < |ts| ==> Legal(ts[i])
  }

  /** The literal/length symbol that a token needs. */
  function LitSymOf(t: Token): (s: nat)
    requires Legal(t)
    ensures s <= 285 && s != 256
  {
    match t
    case Literal(b) => b
    case Match(len, _) => LenCodes(len - 3); LenSym(len - 3)
  }

  /** The distance symbol that a match needs. */
  function DistSymOf(t: Token): (s: nat)
    requires Legal(t) && t.Match?
    ensures s <= 29
  {
    DistCodes(t.dist - 1);
    DistSym(t.dist - 1)
  }

  function Bump(c: seq<nat>, s: nat): (r: seq<nat>)
    requires s < |c|
    ensures |r| == |c|
  {
    c[s := c[s] + 1]
  }

  /** How many tokens need each literal/length symbol. */
  function LitCounts(ts: seq<Token>): (r: seq<nat>)
    requires AllLegal(ts)
    ensures |r| == 288
  {
    if ts == [] then Rep(0, 288) else Bump(LitCounts(ts[..|ts| - 1]), LitSymOf(ts[|ts| - 1]))
  }

  /** How many tokens need each distance symbol. */
  function DistCounts(ts: seq<Token>): (r: seq<nat>)
    requires AllLegal(ts)
    ensures |r| == 32
  {
    if ts == [] then Rep(0, 32)
    else
      var c, t := DistCounts(ts[..|ts| - 1]), ts[|ts| - 1];
      if t.Match? then Bump(c, DistSymOf(t)) else c
  }

  function Matches(ts: seq<Token>): (n: nat)
    ensures n <= |ts|
  {
    if ts == [] then 0 else Matches(ts[..|ts| - 1]) + (if ts[|ts| - 1].Match? then 1 else 0)
  }

  /** The two histograms count exactly the symbols the tokens need. */
  ghost predicate Tallied(ts: seq<Token>, lit: seq<nat>, dist: seq<nat>) {
    AllLegal(ts) && lit == LitCounts(ts) && dist == DistCounts(ts)
  }

  lemma TallyNone()
    ensures Tallied([], Rep(0, 288), Rep(0, 32))
  {
  }

  lemma TallyToken(ts: seq<Token>, lit: seq<nat>, dist: seq<nat>, t: Token)
    requires Tallied(ts, lit, dist) && Legal(t) && |lit| == 288 && |dist| == 32
    ensures Tallied(ts + [t], Bump(lit, LitSymOf(t)), if t.Match? then Bump(dist, DistSymOf(t)) else dist)
  {
    assert (ts + [t])[..|ts|] == ts;
  }

  lemma {:induction false} SumBump(s: seq<nat>, i: nat)
    requires i < |s|
    ensures Sum(Bump(s, i)) == Sum(s) + 1
  {
    if i > 0 {
      SumBump(s[1..], i - 1);
      assert Bump(s, i)[1..] == Bump(s[1..], i - 1);
    } else {
      assert Bump(s, i)[1..] == s[1..];
    }
  }

  lemma {:induction false} SumZero(s: seq<nat>)
    requires forall i :: 0 <= i < |s| ==> s[i] == 0
    ensures Sum(s) == 0
  {
    if s != [] {
      SumZero(s[1..]);
    }
  }

  lemma {:induction false} CostZero(w: seq<nat>, lens: seq<nat>)
    requires |w| == |lens| && forall i :: 0 <= i < |w| ==> w[i] == 0
    ensures Cost(w, lens) == 0
  {
    if w != [] {
      CostZero(w[1..], lens[1..]);
    }
  }

  lemma {:induction false} CostBump(w: seq<nat>, lens: seq<nat>, i: nat)
    requires |w| == |lens| && i < |w|
    ensures Cost(Bump(w, i), lens) == Cost(w, lens) + lens[i]
  {
    if i > 0 {
      CostBump(w[1..], lens[1..], i - 1);
      assert Bump(w, i)[1..] == Bump(w[1..], i - 1);
    } else {
      assert Bump(w, i)[1..] == w[1..];
    }
  }

  /** One count for each token, one more for each match; the end of block and the reserved symbols are never needed. */
  lemma {:induction false} CountTotals(ts: seq<Token>)
    requires AllLegal(ts)
    ensures Sum(LitCounts(ts)) == |ts| && Sum(DistCounts(ts)) == Matches(ts)
    ensures LitCounts(ts)[256] == 0 && forall s :: 286 <= s < 288 ==> LitCounts(ts)[s] == 0
    ensures forall s :: 30 <= s < 32 ==> DistCounts(ts)[s] == 0
  {
    hide Sum, LitSymOf, DistSymOf;
    if ts == [] {
      SumZero(Rep(0, 288));
      SumZero(Rep(0, 32));
    } else {
      var ts', t := ts[..|ts| - 1], ts[|ts| - 1];
      CountTotals(ts');
      SumBump(LitCounts(ts'), LitSymOf(t));
      if t.Match? {
        SumBump(DistCounts(ts'), DistSymOf(t));
      }
    }
  }

  /** What a token needs has been counted. */
  lemma {:induction false} Counted(ts: seq<Token>, i: nat)
    requires AllLegal(ts) && i < |ts|
    ensures LitCounts(ts)[LitSymOf(ts[i])] > 0
    ensures ts[i].Match? ==> DistCounts(ts)[DistSymOf(ts[i])] > 0
  {
    hide LitSymOf, DistSymOf;
    if i < |ts| - 1 {
      Counted(ts[..|ts| - 1], i);
    }
  }

  /** Tables with a code for every counted symbol code every token. */
  lemma CountedCoded(ts: seq<Token>, ll: Lens, dl: Lens)
    requires AllLegal(ts) && |ll| == 288 && |dl| == 32
    requires forall s :: 0 <= s < 288 && LitCounts(ts)[s] > 0 ==> ll[s] > 0
    requires forall s :: 0 <= s < 32 && DistCounts(ts)[s] > 0 ==> dl[s] > 0
    ensures AllCoded(ll, dl, ts)
  {
    hide LitCounts, DistCounts, LenSym, DistSym;
    forall i | 0 <= i < |ts|
      ensures Coded(ll, dl, ts[i])
    {
      Counted(ts, i);
    }
  }

  // ---- How much a coded block takes.

  lemma TokenSize(ll: Lens, dl: Lens, t: Token)
    requires Coded(ll, dl, t)
    ensures Legal(t) && LitSymOf(t) < |ll| && (t.Match? ==> DistSymOf(t) < |dl|)
    ensures |EncToken(ll, dl, t)| <= ll[LitSymOf(t)] + (if t.Match? then dl[DistSymOf(t)] + 18 else 0)
  {
    hide LenSym, DistSym, ToBits, RevCode;
  }

  /** The tokens take what their symbols cost, and at most 5 and 13 extra bits a match. */
  lemma {:induction false} TokensSize(ll: Lens, dl: Lens, ts: seq<Token>)
    requires |ll| == 288 && |dl| == 32 && AllCoded(ll, dl, ts) && AllLegal(ts)
    ensures |EncTokens(ll, dl, ts)| <= Cost(LitCounts(ts), ll) + Cost(DistCounts(ts), dl) + 18 * Matches(ts)
  {
    hide Cost, LitSymOf, DistSymOf, EncToken, Coded;
    if ts == [] {
      CostZero(Rep(0, 288), ll);
      CostZero(Rep(0, 32), dl);
    } else {
      var ts', t := ts[..|ts| - 1], ts[|ts| - 1];
      TokensSize(ll, dl, ts');
      assert Coded(ll, dl, t);
      TokenSize(ll, dl, t);
      CostBump(LitCounts(ts'), ll, LitSymOf(t));
      if t.Match? {
        CostBump(DistCounts(ts'), dl, DistSymOf(t));
      }
    }
  }

  /** A plain code: nine bits for a literal, six for a length or the end of block. */
  function PlainLit(): (r: seq<nat>)
    ensures |r| == 288 && forall s :: 0 <= s < 288 ==> r[s] == if s < 256 then 9 else 6
  {
    Rep(9, 256) + Rep(6, 32)
  }

  /** And five bits for a distance. */
  function PlainDist(): (r: seq<nat>)
    ensures |r| == 32 && forall s :: 0 <= s < 32 ==> r[s] == 5
  {
    Rep(5, 32)
  }

  lemma PlainFits()
    ensures KraftFits(PlainLit(), 9) && KraftFits(PlainDist(), 5)
  {
    hide Kraft;
    Pow2Table();
    KraftConcat(Rep(9, 256), Rep(6, 32), 9);
    KraftRep(9, 256, 9);
    KraftRep(6, 32, 9);
    KraftRep(5, 32, 5);
  }

  lemma {:induction false} PlainCost(ts: seq<Token>)
    requires AllLegal(ts)
    ensures Cost(LitCounts(ts), PlainLit()) == 9 * |ts| - 3 * Matches(ts)
    ensures Cost(DistCounts(ts), PlainDist()) == 5 * Matches(ts)
  {
    hide Cost, PlainLit, PlainDist, DistSymOf, LenSym;
    if ts == [] {
      CostZero(Rep(0, 288), PlainLit());
      CostZero(Rep(0, 32), PlainDist());
    } else {
      var ts', t := ts[..|ts| - 1], ts[|ts| - 1];
      PlainCost(ts');
      if t.Match? {
        LenCodes(t.len - 3);
        CostBump(DistCounts(ts'), PlainDist(), DistSymOf(t));
      }
      CostBump(LitCounts(ts'), PlainLit(), LitSymOf(t));
    }
  }

  /** Lengths made from the counts: at most ten bits a literal and 31 a match. */
  lemma DynamicSize(ts: seq<Token>, lit: seq<nat>, ll: Lens, dl: Lens)
    requires AllLegal(ts) && lit == LitCounts(ts)[256 := 1] && NearlyMinimal(lit, ll) &&
        NearlyMinimal(DistCounts(ts), dl)
    requires AllCoded(ll, dl, ts) && HasCode(ll, 256)
    ensures |EncBody(ll, dl, ts)| <= 10 * |ts| + 21 * Matches(ts) + 7
  {
    hide Cost, Sum, LitCounts, DistCounts, KraftFits, Coded, EncToken, PlainLit, PlainDist, Matches;
    var c, d := LitCounts(ts), DistCounts(ts);
    CountTotals(ts);
    assert lit == Bump(c, 256);
    SumBump(c, 256);
    CostBump(c, ll, 256);
    CostBump(c, PlainLit(), 256);
    TokensSize(ll, dl, ts);
    PlainCost(ts);
    PlainFits();
    assert Cost(lit, ll) <= Cost(lit, PlainLit()) + Sum(lit);
    assert Cost(d, dl) <= Cost(d, PlainDist()) + Sum(d);
    EndSize(ll);
  }

  lemma EndSize(ll: Lens)
    requires HasCode(ll, 256)
    ensures |EncSym(ll, 256)| == ll[256]
  {
  }
}
