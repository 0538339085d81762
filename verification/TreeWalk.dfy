/** Walking the decoder's tables finds the one code that a bit string starts with, and the tree is large enough. */
module TreeWalk {
  import opened Arith
  import opened Canonical
  import opened PrefixTree
  import opened LaxFormat

  /** Finished tables for a code. */
  ghost predicate Ready(look: seq<int>, tree: seq<int>, paths: seq<Path>, lens: Lens) {
    && Decodable(lens) && |lens| <= 512
    && Built(look, tree, paths, lens, |lens|) && Rooted(paths, lens, |lens|, |lens|)
  }

  /** The bits of v, low first, start with the code of s. */
  ghost predicate Starts(lens: Lens, s: nat, v: nat) {
    s < |lens| && lens[s] > 0 && RevCode(lens, s) == v % Pow2(lens[s])
  }

  ghost predicate NoneStarts(lens: Lens, v: nat) {
    forall s: nat :: !Starts(lens, s, v)
  }

  /** A reference to the node that v's first d bits lead to. */
  ghost predicate AtNode(paths: seq<Path>, d: nat, v: nat, t: int) {
    exists k: nat :: k < |paths| && paths[k] == Path(d, v % Pow2(d)) && t == Link(k)
  }

  /** Every start of a long code that has at least ten bits is a node. */
  lemma {:induction false} StartsIn(paths: seq<Path>, lens: Lens, s: nat, d: nat)
    requires Rooted(paths, lens, |lens|, |lens|) && s < |lens| && FAST_BITS <= d < lens[s]
    ensures Path(d, RevCode(lens, s) % Pow2(d)) in paths
    decreases lens[s] - d
  {
    hide RevCode, Rooted;
    if d == lens[s] - 1 {
      LeafParent(paths, lens, |lens|, |lens|, s);
    } else {
      StartsIn(paths, lens, s, d + 1);
      ParentIn(paths, lens, |lens|, |lens|, Path(d + 1, RevCode(lens, s) % Pow2(d + 1)));
      ModPow2Mod(RevCode(lens, s), d, d + 1);
    }
  }

  /** A code that v starts with, longer than d bits, passes through the node for v's first d bits. */
  lemma StartsThrough(paths: seq<Path>, lens: Lens, s: nat, d: nat, v: nat)
    requires Rooted(paths, lens, |lens|, |lens|) && Starts(lens, s, v) && FAST_BITS <= d < lens[s]
    ensures Path(d, v % Pow2(d)) in paths
  {
    hide RevCode, Rooted;
    StartsIn(paths, lens, s, d);
    ModPow2Mod(v, d, lens[s]);
  }

  /** What a lookup slot says about v. */
  lemma LookMeans(look: seq<int>, tree: seq<int>, paths: seq<Path>, lens: Lens, v: nat)
    requires Ready(look, tree, paths, lens)
    ensures v % FAST_SIZE < |look|
    ensures var t := look[v % FAST_SIZE];
            if t < 0 then AtNode(paths, FAST_BITS, v, t)
            else if t > 0 then Starts(lens, t % 512, v) && t / 512 == lens[t % 512] <= FAST_BITS
            else NoneStarts(lens, v) && !Reaches(lens, FAST_BITS, v)
  {
    hide RevCode, Rooted, Forked, Decodable;
    Pow2Table();
    var r := v % FAST_SIZE;
    assert look[r] == Slot(lens, |lens|, paths, r);
    var s := Match(lens, |lens|, 1, FAST_BITS, r);
    if s < |lens| {
      ModPow2Mod(v, lens[s], FAST_BITS);
      DivModUnique(look[r], 512, lens[s], s);
    } else if look[r] == 0 {
      forall s: nat
        ensures !Starts(lens, s, v)
      {
        if Starts(lens, s, v) {
          if lens[s] <= FAST_BITS {
            ModPow2Mod(v, lens[s], FAST_BITS);
          } else {
            StartsThrough(paths, lens, s, FAST_BITS, v);
          }
        }
      }
      NotReached(paths, lens, FAST_BITS, v);
    }
  }

  /** Off the nodes, no longer code begins as v does. */
  lemma NotReached(paths: seq<Path>, lens: Lens, d: nat, v: nat)
    requires Rooted(paths, lens, |lens|, |lens|) && d >= FAST_BITS && Path(d, v % Pow2(d)) !in paths
    ensures !Reaches(lens, d, v)
  {
    hide RevCode, Rooted;
    forall s: nat | s < |lens| && lens[s] > d
      ensures RevCode(lens, s) % Pow2(d) != v % Pow2(d)
    {
      StartsIn(paths, lens, s, d);
    }
  }

  /** At a node, some longer code does. */
  lemma NodeReached(paths: seq<Path>, lens: Lens, d: nat, v: nat, t: int)
    requires Rooted(paths, lens, |lens|, |lens|) && AtNode(paths, d, v, t)
    ensures Reaches(lens, d, v)
  {
    hide RevCode;
    var k: nat :| k < |paths| && paths[k] == Path(d, v % Pow2(d)) && t == Link(k);
    assert paths[k] in paths;
    var s: nat :| s < |lens| && Below(lens, s, paths[k]);
  }

  /** The walk ends one bit past the last node. */
  lemma StrayEnds(lens: Lens, v: nat, d: nat)
    requires FAST_BITS <= d <= 14 && Reaches(lens, d, v) && !Reaches(lens, d + 1, v)
    ensures Stray(lens, v) == d + 1
  {
    hide Reaches;
    ReachesLess(lens, FAST_BITS, d, v);
    StrayDown(lens, v, FAST_BITS + 1, d);
  }

  lemma {:induction false} StrayDown(lens: Lens, v: nat, c: nat, d: nat)
    requires c <= d + 1 <= 15 && Reaches(lens, d, v) && !Reaches(lens, d + 1, v)
    ensures StrayFrom(lens, v, c) == d + 1
    decreases d + 1 - c
  {
    hide Reaches;
    if c <= d {
      ReachesLess(lens, c, d, v);
      StrayDown(lens, v, c + 1, d);
    }
  }

  /** What leads to a short code leads to no longer one. */
  lemma ShortNotReached(lens: Lens, s: nat, v: nat)
    requires Decodable(lens) && Starts(lens, s, v) && lens[s] <= FAST_BITS
    ensures !Reaches(lens, FAST_BITS, v)
  {
    hide RevCode, Decodable;
    forall t: nat | t < |lens| && lens[t] > FAST_BITS
      ensures RevCode(lens, t) % Pow2(FAST_BITS) != v % Pow2(FAST_BITS)
    {
      if RevCode(lens, t) % Pow2(FAST_BITS) == v % Pow2(FAST_BITS) {
        ModPow2Mod(v, lens[s], FAST_BITS);
        ModPow2Mod(RevCode(lens, t), lens[s], FAST_BITS);
        PrefixFree(lens, s, t);
      }
    }
  }

  /** Where a node's slot for v's next bit leads. */
  lemma StepMeans(look: seq<int>, tree: seq<int>, paths: seq<Path>, lens: Lens, d: nat, v: nat, t: int)
    requires Ready(look, tree, paths, lens) && d >= FAST_BITS && AtNode(paths, d, v, t)
    ensures d <= 14 && v / Pow2(d) >= 0
    ensures t < 0 && 0 <= -t - 1 + v / Pow2(d) % 2 < |tree|
    ensures var u := tree[-t - 1 + v / Pow2(d) % 2];
            if u < 0 then AtNode(paths, d + 1, v, u)
            else (Starts(lens, u, v) && lens[u] == d + 1) || (u == 0 && NoneStarts(lens, v) && Stray(lens, v) == d + 1)
  {
    hide RevCode, Rooted, Filled, Decodable, Starts, Fork, Forked, Pow2, Reaches, Stray;
    NodeReached(paths, lens, d, v, t);
    if d <= 14 && !Reaches(lens, d + 1, v) {
      StrayEnds(lens, v, d);
    }
    var k: nat :| k < |paths| && paths[k] == Path(d, v % Pow2(d)) && t == Link(k);
    NodeDepth(paths, lens, k);
    ForkMeans(paths, lens, d, v);
    ForkAt(tree, paths, lens, |lens|, d, v, k);
  }

  lemma ForkAt(tree: seq<int>, paths: seq<Path>, lens: Lens, n: nat, d: nat, v: nat, k: nat)
    requires Forked(tree, paths, lens, n) && k < |paths| && paths[k] == Path(d, v % Pow2(d))
    ensures v / Pow2(d) >= 0 && 2 * k + 1 < |tree|
    ensures tree[2 * k + v / Pow2(d) % 2] == Fork(lens, n, paths, Path(d + 1, v % Pow2(d + 1)))
  {
    hide RevCode, Fork;
    DivNonNeg(v, Pow2(d));
    ModPow2Succ(v, d);
    var b := v / Pow2(d) % 2;
    assert Path(d + 1, v % Pow2(d + 1)) == Child(paths[k], b);
    assert b == 0 || b == 1;
  }

  lemma NodeDepth(paths: seq<Path>, lens: Lens, k: nat)
    requires Rooted(paths, lens, |lens|, |lens|) && k < |paths|
    ensures FAST_BITS <= paths[k].depth <= 14
  {
    hide RevCode;
    assert paths[k] in paths;
  }

  lemma ForkMeans(paths: seq<Path>, lens: Lens, d: nat, v: nat)
    requires Decodable(lens) && Rooted(paths, lens, |lens|, |lens|) && d >= FAST_BITS && Path(d, v % Pow2(d)) in paths
    ensures var u := Fork(lens, |lens|, paths, Path(d + 1, v % Pow2(d + 1)));
            if u < 0 then AtNode(paths, d + 1, v, u)
            else (Starts(lens, u, v) && lens[u] == d + 1) ||
                 (u == 0 && NoneStarts(lens, v) && !Reaches(lens, d + 1, v))
  {
    hide RevCode, Rooted, Decodable, Reaches;
    var p := Path(d + 1, v % Pow2(d + 1));
    var s := Match(lens, |lens|, d + 1, d + 1, p.bits);
    DivModOf(v, Pow2(d + 1));
    ModSmall(p.bits, d + 1);
    if p !in paths && s == |lens| {
      forall s: nat
        ensures !Starts(lens, s, v)
      {
        if Starts(lens, s, v) {
          if lens[s] <= d {
            ModPow2Mod(v, lens[s], d);
            NoNode(paths, lens, |lens|, |lens|, s, d, v % Pow2(d));
          } else if lens[s] > d + 1 {
            StartsThrough(paths, lens, s, d + 1, v);
          }
        }
      }
      NotReached(paths, lens, d + 1, v);
    }
  }
}
