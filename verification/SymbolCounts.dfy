/** The used symbols and their counts, as sorting and measuring reorder them. */
module SymbolCounts {
  import opened Arith
  import opened CodeCost
  import opened RadixSort
  import opened MinRedundancy

  /** The used symbols among the first i, with their counts. */
  function Gather(counts: seq<nat>): seq<SymFreq> {
    if counts == [] then []
    else
      var last := |counts| - 1;
      Gather(counts[..last]) + (if counts[last] != 0 then [SymFreq(counts[last], last)] else [])
  }

  /** Exactly the used symbols are gathered, in symbol order. */
  lemma {:induction false} GatherExact(counts: seq<nat>)
    ensures |Gather(counts)| <= |counts|
    ensures forall i :: 0 <= i < |Gather(counts)| ==>
              var f := Gather(counts)[i]; f.sym < |counts| && f.key == counts[f.sym] > 0
    ensures forall i, j :: 0 <= i < j < |Gather(counts)| ==> Gather(counts)[i].sym < Gather(counts)[j].sym
  {
    if counts != [] {
      GatherExact(counts[..|counts| - 1]);
    }
  }

  lemma {:induction false} GatherAll(counts: seq<nat>, s: nat)
    requires s < |counts| && counts[s] > 0
    ensures SymFreq(counts[s], s) in Gather(counts)
  {
    var last := |counts| - 1;
    if s < last {
      GatherAll(counts[..last], s);
    }
  }

  // ---- Sums over the entries do not depend on their order.

  function SumOf(f: SymFreq -> nat, s: seq<SymFreq>): nat {
    if s == [] then 0 else f(s[0]) + SumOf(f, s[1..])
  }

  lemma {:induction false} SumOfConcat(f: SymFreq -> nat, a: seq<SymFreq>, b: seq<SymFreq>)
    ensures SumOf(f, a + b) == SumOf(f, a) + SumOf(f, b)
  {
    if a == [] {
      assert a + b == b;
    } else {
      SumOfConcat(f, a[1..], b);
      assert (a + b)[1..] == a[1..] + b;
    }
  }

  lemma SumOfOne(f: SymFreq -> nat, x: SymFreq)
    ensures SumOf(f, [x]) == f(x)
  {
    assert [x][1..] == [];
  }

  lemma MultisetCancel<T>(a: multiset<T>, b: multiset<T>, c: multiset<T>)
    requires a + c == b + c
    ensures a == b
  {
    forall e
      ensures a[e] == b[e]
    {
      assert (a + c)[e] == (b + c)[e];
    }
  }

  lemma {:induction false} SumPermuted(f: SymFreq -> nat, s: seq<SymFreq>, t: seq<SymFreq>)
    requires multiset(s) == multiset(t)
    ensures SumOf(f, s) == SumOf(f, t)
    decreases |s|
  {
    if s == [] {
      assert |multiset(t)| == 0;
      assert t == [];
    } else {
      assert s[0] in multiset(t);
      var i :| 0 <= i < |t| && t[i] == s[0];
      var t' := t[..i] + t[i + 1..];
      assert s == [s[0]] + s[1..];
      assert t == t[..i] + ([t[i]] + t[i + 1..]);
      assert multiset(s) == multiset(s[1..]) + multiset{s[0]};
      assert multiset(t) == multiset(t') + multiset{t[i]};
      MultisetCancel(multiset(s[1..]), multiset(t'), multiset{s[0]});
      SumPermuted(f, s[1..], t');
      SumOfConcat(f, t[..i], [t[i]] + t[i + 1..]);
      SumOfConcat(f, [t[i]], t[i + 1..]);
      SumOfConcat(f, t[..i], t[i + 1..]);
      SumOfOne(f, t[i]);
    }
  }

  function KeyOf(x: SymFreq): nat {
    x.key
  }

  lemma {:induction false} SumKeys(s: seq<SymFreq>)
    ensures Sum(Keys(s)) == SumOf(KeyOf, s)
  {
    if s != [] {
      SumKeys(s[1..]);
      assert Keys(s)[1..] == Keys(s[1..]);
    }
  }

  lemma {:induction false} GatherSum(counts: seq<nat>)
    ensures SumOf(KeyOf, Gather(counts)) == Sum(counts)
  {
    if counts != [] {
      var last := |counts| - 1;
      GatherSum(counts[..last]);
      SumAppend(counts[..last], counts[last]);
      assert counts == counts[..last] + [counts[last]];
      SumOfConcat(KeyOf, Gather(counts[..last]), if counts[last] != 0 then [SymFreq(counts[last], last)] else []);
      SumOfOne(KeyOf, SymFreq(counts[last], last));
    }
  }

  /** The entries' keys add up to the counts. */
  lemma SameSum(counts: seq<nat>, t: seq<SymFreq>)
    requires multiset(t) == multiset(Gather(counts))
    ensures Sum(Keys(t)) == Sum(counts)
  {
    SumKeys(t);
    SumPermuted(KeyOf, t, Gather(counts));
    GatherSum(counts);
  }

  /** What lens gives the symbol of each entry. */
  function Picked(lens: seq<nat>, t: seq<SymFreq>): (r: seq<nat>)
    ensures |r| == |t|
    ensures forall i :: 0 <= i < |t| && t[i].sym < |lens| ==> r[i] == lens[t[i].sym]
  {
    seq(|t|, i requires 0 <= i < |t| => LenOf(lens, t[i]))
  }

  function LenOf(lens: seq<nat>, x: SymFreq): nat {
    if x.sym < |lens| then lens[x.sym] else 0
  }

  /** What an entry costs. */
  function Bill(lens: seq<nat>): SymFreq -> nat {
    (x: SymFreq) => x.key * LenOf(lens, x)
  }

  lemma {:induction false} CostOf(lens: seq<nat>, t: seq<SymFreq>)
    ensures Cost(Keys(t), Picked(lens, t)) == SumOf(Bill(lens), t)
  {
    if t != [] {
      CostOf(lens, t[1..]);
      assert Keys(t)[1..] == Keys(t[1..]) && Picked(lens, t)[1..] == Picked(lens, t[1..]);
    }
  }

  lemma {:induction false} GatherCost(counts: seq<nat>, lens: seq<nat>)
    requires |counts| <= |lens|
    ensures SumOf(Bill(lens), Gather(counts)) == Cost(counts, lens[..|counts|])
  {
    if counts != [] {
      var f := Bill(lens);
      var last := |counts| - 1;
      GatherCost(counts[..last], lens);
      CostConcat(counts[..last], [counts[last]], lens[..last], [lens[last]]);
      CostOne(counts[last], lens[last]);
      assert counts == counts[..last] + [counts[last]] && lens[..last + 1] == lens[..last] + [lens[last]];
      SumOfConcat(f, Gather(counts[..last]), if counts[last] != 0 then [SymFreq(counts[last], last)] else []);
      SumOfOne(f, SymFreq(counts[last], last));
    }
  }

  /** Symbols with their counts cost what the entries do. */
  lemma SameCost(counts: seq<nat>, t: seq<SymFreq>, lens: seq<nat>)
    requires multiset(t) == multiset(Gather(counts)) && |lens| == |counts|
    ensures Cost(Keys(t), Picked(lens, t)) == Cost(counts, lens)
  {
    CostOf(lens, t);
    SumPermuted(Bill(lens), t, Gather(counts));
    GatherCost(counts, lens);
    assert lens[..|counts|] == lens;
  }

  /** What an entry's code takes of the code space. */
  function Space(lens: seq<nat>, m: nat): SymFreq -> nat {
    (x: SymFreq) => if LenOf(lens, x) <= m then Pow2(m - LenOf(lens, x)) else 0
  }

  lemma {:induction false} KraftOf(lens: seq<nat>, m: nat, t: seq<SymFreq>)
    ensures Kraft(Picked(lens, t), m) == SumOf(Space(lens, m), t)
  {
    if t != [] {
      KraftOf(lens, m, t[1..]);
      assert Picked(lens, t)[1..] == Picked(lens, t[1..]);
    }
  }

  lemma {:induction false} GatherKraft(counts: seq<nat>, lens: seq<nat>, m: nat)
    requires |counts| <= |lens|
    ensures SumOf(Space(lens, m), Gather(counts)) <= Kraft(lens[..|counts|], m)
  {
    hide Pow2;
    if counts != [] {
      var f := Space(lens, m);
      var last := |counts| - 1;
      GatherKraft(counts[..last], lens, m);
      KraftConcat(lens[..last], [lens[last]], m);
      KraftOne(lens[last], m);
      assert lens[..last + 1] == lens[..last] + [lens[last]];
      SumOfConcat(f, Gather(counts[..last]), if counts[last] != 0 then [SymFreq(counts[last], last)] else []);
      SumOfOne(f, SymFreq(counts[last], last));
    }
  }

  /** Lengths that fit for all symbols fit for the used ones. */
  lemma UsedFit(counts: seq<nat>, t: seq<SymFreq>, lens: seq<nat>, m: nat)
    requires multiset(t) == multiset(Gather(counts)) && |lens| == |counts| && KraftFits(lens, m)
    ensures KraftFits(Picked(lens, t), m)
  {
    hide Kraft, Pow2;
    KraftOf(lens, m, t);
    SumPermuted(Space(lens, m), t, Gather(counts));
    GatherKraft(counts, lens, m);
    assert lens[..|counts|] == lens;
  }

  /** Only symbols below k are used: at most k entries. */
  lemma {:induction false} GatherBound(counts: seq<nat>, k: nat)
    requires forall s :: k <= s < |counts| ==> counts[s] == 0
    ensures |Gather(counts)| <= k
  {
    if |counts| > k {
      GatherBound(counts[..|counts| - 1], k);
    } else {
      GatherExact(counts);
    }
  }

  /** The symbols of the entries are the used ones, each once. */
  ghost predicate Uses(syms: seq<SymFreq>, counts: seq<nat>) {
    && (forall i :: 0 <= i < |syms| ==> syms[i].sym < |counts| && counts[syms[i].sym] > 0)
    && (forall i, j :: 0 <= i < j < |syms| ==> syms[i].sym != syms[j].sym)
    && (forall s :: 0 <= s < |counts| && counts[s] > 0 ==> exists i :: 0 <= i < |syms| && syms[i].sym == s)
  }

  lemma {:induction false} OnceOnly(g: seq<SymFreq>, e: SymFreq)
    requires forall i, j :: 0 <= i < j < |g| ==> g[i] != g[j]
    ensures multiset(g)[e] <= 1
  {
    if g != [] {
      OnceOnly(g[1..], e);
      assert g == [g[0]] + g[1..];
      assert multiset(g[1..])[e] > 0 ==> e in g[1..];
    }
  }

  lemma {:induction false} TwiceCounted(t: seq<SymFreq>, i: nat, j: nat)
    requires i < j < |t| && t[i] == t[j]
    ensures multiset(t)[t[i]] >= 2
  {
    assert t == t[..j] + [t[j]] + t[j + 1..];
    assert t[i] in t[..j];
    assert multiset(t)[t[i]] == multiset(t[..j])[t[i]] + 1 + multiset(t[j + 1..])[t[i]];
  }

  lemma SortedUses(counts: seq<nat>, t: seq<SymFreq>)
    requires multiset(t) == multiset(Gather(counts))
    ensures Uses(t, counts) && |t| <= |counts|
    ensures forall i :: 0 <= i < |t| ==> t[i].key == counts[t[i].sym]
  {
    hide Gather;
    var g := Gather(counts);
    GatherExact(counts);
    assert |multiset(t)| == |multiset(g)|;
    forall i | 0 <= i < |t|
      ensures t[i].sym < |counts| && t[i].key == counts[t[i].sym] > 0
    {
      assert t[i] in multiset(g);
    }
    forall i, j | 0 <= i < j < |t|
      ensures t[i].sym != t[j].sym
    {
      if t[i].sym == t[j].sym {
        TwiceCounted(t, i, j);
        OnceOnly(g, t[i]);
        assert false;
      }
    }
    forall s | 0 <= s < |counts| && counts[s] > 0
      ensures exists i :: 0 <= i < |t| && t[i].sym == s
    {
      GatherAll(counts, s);
      assert SymFreq(counts[s], s) in multiset(t);
    }
  }

  lemma UsesSameSyms(s: seq<SymFreq>, t: seq<SymFreq>, counts: seq<nat>)
    requires Uses(s, counts) && |s| == |t| && forall i :: 0 <= i < |s| ==> t[i].sym == s[i].sym
    ensures Uses(t, counts)
  {
    forall c | 0 <= c < |counts| && counts[c] > 0
      ensures exists i :: 0 <= i < |t| && t[i].sym == c
    {
      var i :| 0 <= i < |s| && s[i].sym == c;
      assert t[i].sym == c;
    }
  }
}
