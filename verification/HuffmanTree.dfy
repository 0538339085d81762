/** The tree that greedy merging builds, and what its code lengths cost. */
module HuffmanTree {
  import opened Arith
  import opened CodeCost

  predicate Ascending(s: seq<nat>) {
    forall i, j :: 0 <= i <= j < |s| ==> s[i] <= s[j]
  }

  /** Of the 2k nodes joined before node k, cut[k] are leaves and these are internal. */
  function Inner(cut: seq<nat>, k: nat): int
    requires k < |cut|
  {
    2 * k - cut[k]
  }

  /** Node k weighs what its two children weigh, and nothing joined so far outweighs anything waiting. */
  ghost predicate Joined(orig: seq<nat>, w: seq<nat>, cut: seq<nat>, k: nat)
    requires k < |w| && k + 1 < |cut|
  {
    var c, d, r, q := cut[k], cut[k + 1], Inner(cut, k), Inner(cut, k + 1);
    && c <= d <= |orig| && 0 <= r <= q <= k
    && w[k] == Sum(orig[c..d]) + Sum(w[r..q])
    && (forall p, i :: 0 <= p < d && q <= i <= k ==> orig[p] <= w[i])
    && (forall i, p :: 0 <= i < q && d <= p < |orig| ==> w[i] <= orig[p])
  }

  /** Internal nodes of weights w, each made from the two lightest nodes then waiting. */
  ghost predicate Greedy(orig: seq<nat>, w: seq<nat>, cut: seq<nat>) {
    && Ascending(orig) && Ascending(w)
    && |cut| == |w| + 1 && cut[0] == 0
    && forall k :: 0 <= k < |w| ==> Joined(orig, w, cut, k)
  }

  /** Internal node i has been joined into node par[i]. */
  ghost predicate Parented(par: seq<nat>, cut: seq<nat>) {
    && (forall k :: 0 <= k < |cut| ==> 0 <= Inner(cut, k) <= |par|)
    && (forall i, k :: 0 <= i < |par| && 0 <= k < |cut| ==> (i < Inner(cut, k) <==> par[i] < k))
  }

  // ---- No code is cheaper.

  /** The weights that wait to be joined when node k is made. */
  function Waiting(orig: seq<nat>, w: seq<nat>, cut: seq<nat>, k: nat): seq<nat>
    requires k < |cut| && k <= |w| && cut[k] <= |orig| && 0 <= Inner(cut, k) <= k
  {
    w[Inner(cut, k)..k] + orig[cut[k]..]
  }

  lemma WaitingOk(orig: seq<nat>, w: seq<nat>, cut: seq<nat>, k: nat)
    requires Greedy(orig, w, cut) && k <= |w|
    ensures cut[k] <= |orig| && 0 <= Inner(cut, k) <= k
  {
    if k < |w| {
      assert Joined(orig, w, cut, k);
    } else if k > 0 {
      assert Joined(orig, w, cut, k - 1);
    }
  }

  lemma Lighter(v0: seq<nat>, v1: seq<nat>, w0: seq<nat>, w1: seq<nat>)
    requires forall p, q :: 0 <= p < |v0| && 0 <= q < |v1| ==> v0[p] <= v1[q]
    requires forall p, q :: 0 <= p < |v0| && 0 <= q < |w1| ==> v0[p] <= w1[q]
    requires forall p, q :: 0 <= p < |w0| && 0 <= q < |v1| ==> w0[p] <= v1[q]
    requires forall p, q :: 0 <= p < |w0| && 0 <= q < |w1| ==> w0[p] <= w1[q]
    ensures forall p, q :: 0 <= p < |v0 + w0| && 0 <= q < |v1 + w1| ==> (v0 + w0)[p] <= (v1 + w1)[q]
  {
  }

  /** The nodes joined into node k are the lightest of those waiting. */
  lemma LightestFirst(orig: seq<nat>, w: seq<nat>, cut: seq<nat>, k: nat)
    requires Greedy(orig, w, cut) && k < |w| && Joined(orig, w, cut, k)
    ensures var v0, v1 := w[Inner(cut, k)..Inner(cut, k + 1)], w[Inner(cut, k + 1)..k];
            var w0, w1 := orig[cut[k]..cut[k + 1]], orig[cut[k + 1]..];
            forall p, q :: 0 <= p < |v0 + w0| && 0 <= q < |v1 + w1| ==> (v0 + w0)[p] <= (v1 + w1)[q]
  {
    hide Sum;
    Lighter(w[Inner(cut, k)..Inner(cut, k + 1)], w[Inner(cut, k + 1)..k], orig[cut[k]..cut[k + 1]], orig[cut[k + 1]..]);
  }

  lemma MergedShape(orig: seq<nat>, w: seq<nat>, cut: seq<nat>, k: nat)
    requires Greedy(orig, w, cut) && k < |w|
    ensures |cut| == |w| + 1 && Joined(orig, w, cut, k)
  {
  }

  /** Making node k saves its weight. */
  lemma JoinWaiting(orig: seq<nat>, w: seq<nat>, cut: seq<nat>, k: nat, lens: seq<nat>, m: nat) returns (t: seq<nat>)
    requires Greedy(orig, w, cut) && k < |w|
    requires cut[k] <= |orig| && 0 <= Inner(cut, k) <= k && |lens| == |Waiting(orig, w, cut, k)| && KraftFits(lens, m)
    ensures cut[k + 1] <= |orig| && 0 <= Inner(cut, k + 1) <= k + 1
    ensures |t| == |Waiting(orig, w, cut, k + 1)| && KraftFits(t, m)
    ensures Cost(Waiting(orig, w, cut, k + 1), t) + w[k] <= Cost(Waiting(orig, w, cut, k), lens)
  {
    hide KraftFits, Cost, Sum, Greedy;
    MergedShape(orig, w, cut, k);
    LightestFirst(orig, w, cut, k);
    var c, d, r, q := cut[k], cut[k + 1], Inner(cut, k), Inner(cut, k + 1);
    var v0, v1, w0, w1 := w[r..q], w[q..k], orig[c..d], orig[d..];
    assert w[r..k] == v0 + v1 && orig[c..] == w0 + w1;
    var b0, b1, b2, b3 := lens[..q - r], lens[q - r..k - r], lens[k - r..k - r + (d - c)], lens[k - r + (d - c)..];
    assert lens == b0 + b1 + (b2 + b3);
    t := JoinParts(v0, v1, w0, w1, w[k], b0, b1, b2, b3, m);
    assert w[q..k + 1] == v1 + [w[k]];
  }

  /** Whatever lengths the waiting nodes get, they cost at least what the nodes still to be made weigh. */
  lemma {:induction false} NoCheaper(orig: seq<nat>, w: seq<nat>, cut: seq<nat>, k: nat, lens: seq<nat>, m: nat)
    requires Greedy(orig, w, cut) && k <= |w|
    requires cut[k] <= |orig| && 0 <= Inner(cut, k) <= k && |lens| == |Waiting(orig, w, cut, k)| && KraftFits(lens, m)
    ensures Sum(w[k..]) <= Cost(Waiting(orig, w, cut, k), lens)
    decreases |w| - k
  {
    hide KraftFits, Cost, Greedy, Waiting;
    if k < |w| {
      var t := JoinWaiting(orig, w, cut, k, lens, m);
      NoCheaper(orig, w, cut, k + 1, t, m);
      SumTail(w, k);
    }
  }

  /** So the internal nodes' weights bound the cost of every prefix code for the leaves. */
  lemma MergesBound(orig: seq<nat>, w: seq<nat>, cut: seq<nat>, lens: seq<nat>, m: nat)
    requires Greedy(orig, w, cut) && |lens| == |orig| && KraftFits(lens, m)
    ensures Sum(w) <= Cost(orig, lens)
  {
    hide KraftFits, Cost, Sum;
    assert Waiting(orig, w, cut, 0) == orig && w[0..] == w;
    NoCheaper(orig, w, cut, 0, lens, m);
  }

  // ---- Depths.

  /** Parents come later, in order, each at most twice. */
  ghost predicate ParentsOk(par: seq<nat>, limit: nat) {
    && (forall i :: 0 <= i < |par| ==> i < par[i] <= limit)
    && (forall i, j :: 0 <= i <= j < |par| ==> par[i] <= par[j])
    && (forall i :: 0 <= i && i + 2 < |par| ==> par[i] < par[i + 2])
  }

  ghost function Depth(par: seq<nat>, i: nat): nat
    requires ParentsOk(par, |par|)
    decreases |par| + 1 - Min(i, |par| + 1)
  {
    if i >= |par| then 0 else 1 + Depth(par, par[i])
  }

  ghost function DepthsOf(par: seq<nat>, k: nat): (r: seq<nat>)
    requires ParentsOk(par, |par|)
    ensures |r| == k && forall i :: 0 <= i < k ==> r[i] == Depth(par, i)
  {
    seq(k, i requires 0 <= i < k => Depth(par, i))
  }

  /** Leaf p is a child of node k. */
  predicate LeafOf(cut: seq<nat>, p: nat, k: nat) {
    k + 1 < |cut| && cut[k] <= p < cut[k + 1]
  }

  /** Each leaf of a node is one level below it. */
  ghost predicate LeavesBelow(par: seq<nat>, cut: seq<nat>, lens: seq<nat>)
    requires ParentsOk(par, |par|)
  {
    forall p: nat, k: nat :: LeafOf(cut, p, k) ==> p < |lens| && lens[p] == Depth(par, k) + 1
  }

  lemma DepthStep(par: seq<nat>, i: nat)
    requires ParentsOk(par, |par|) && i < |par|
    ensures Depth(par, i) == Depth(par, par[i]) + 1
  {
  }

  lemma CostArith(u: nat, s: nat, t: nat, d: nat, a: nat, b: nat, c: nat, e: nat)
    requires a + b == c + e && u == s + t
    ensures a + s * (d + 1) + (b + t * (d + 1)) == c + u * d + (e + u)
  {
    assert s * (d + 1) + t * (d + 1) == (s + t) * d + s + t;
  }

  /** What the children of the first k nodes cost is what those nodes cost one level up and weigh. */
  lemma {:induction false} CostSoFar(orig: seq<nat>, w: seq<nat>, par: seq<nat>, cut: seq<nat>, lens: seq<nat>, k: nat)
    requires Greedy(orig, w, cut) && Parented(par, cut) && ParentsOk(par, |par|) && LeavesBelow(par, cut, lens)
    requires |lens| == |orig| && k <= |w| && |par| <= |w|
    ensures cut[k] <= |orig| && 0 <= Inner(cut, k) <= |w|
    ensures Cost(orig[..cut[k]], lens[..cut[k]]) + Cost(w[..Inner(cut, k)], DepthsOf(par, Inner(cut, k))) ==
            Cost(w[..k], DepthsOf(par, k)) + Sum(w[..k])
  {
    hide Cost, Sum, Depth, Greedy, ParentsOk;
    if k > 0 {
      CostSoFar(orig, w, par, cut, lens, k - 1);
      MergedShape(orig, w, cut, k - 1);
      var c, d, r, q, u := cut[k - 1], cut[k], Inner(cut, k - 1), Inner(cut, k), Depth(par, k - 1);
      forall p: nat | c <= p < d
        ensures lens[p] == u + 1
      {
        assert LeafOf(cut, p, k - 1);
      }
      CostRange(orig, lens, c, d, u + 1);
      CostInner(w, par, cut, k - 1);
      CostNode(w, par, k - 1);
      CostArith(w[k - 1], Sum(orig[c..d]), Sum(w[r..q]), u, Cost(orig[..c], lens[..c]), Cost(w[..r], DepthsOf(par, r)),
                Cost(w[..k - 1], DepthsOf(par, k - 1)), Sum(w[..k - 1]));
    } else {
      CutStart(orig, w, cut);
      NothingCosts(orig[..0], lens[..0]);
      NothingCosts(w[..0], DepthsOf(par, 0));
    }
  }

  lemma CutStart(orig: seq<nat>, w: seq<nat>, cut: seq<nat>)
    requires Greedy(orig, w, cut)
    ensures |cut| > 0 && cut[0] == 0
  {
  }

  /** The internal children of node k, one level below it. */
  lemma CostInner(w: seq<nat>, par: seq<nat>, cut: seq<nat>, k: nat)
    requires Parented(par, cut) && ParentsOk(par, |par|) && k + 1 < |cut|
    requires 0 <= Inner(cut, k) <= Inner(cut, k + 1) <= |w|
    ensures var r, q := Inner(cut, k), Inner(cut, k + 1);
            Cost(w[..q], DepthsOf(par, q)) == Cost(w[..r], DepthsOf(par, r)) + Sum(w[r..q]) * (Depth(par, k) + 1)
  {
    hide Cost, Sum, Depth, ParentsOk;
    var r, q := Inner(cut, k), Inner(cut, k + 1);
    var s := DepthsOf(par, q);
    forall i | r <= i < q
      ensures s[i] == Depth(par, k) + 1
    {
      DepthStep(par, i);
    }
    CostRange(w, s, r, q, Depth(par, k) + 1);
    assert s[..r] == DepthsOf(par, r) && s[..q] == s;
  }

  /** One more node. */
  lemma CostNode(w: seq<nat>, par: seq<nat>, k: nat)
    requires ParentsOk(par, |par|) && k < |w|
    ensures Cost(w[..k + 1], DepthsOf(par, k + 1)) == Cost(w[..k], DepthsOf(par, k)) + w[k] * Depth(par, k)
    ensures Sum(w[..k + 1]) == Sum(w[..k]) + w[k]
  {
    hide Cost, Sum, Depth, ParentsOk;
    var u := Depth(par, k);
    assert w[..k + 1] == w[..k] + [w[k]] && DepthsOf(par, k + 1) == DepthsOf(par, k) + [u];
    CostConcat(w[..k], [w[k]], DepthsOf(par, k), [u]);
    CostOne(w[k], u);
    SumAppend(w[..k], w[k]);
  }

  lemma NothingCosts(w: seq<nat>, lens: seq<nat>)
    requires w == [] && lens == []
    ensures Cost(w, lens) == 0 && Sum(w) == 0
  {
  }

  /** All nodes but the last joined, all leaves one level below theirs: the leaves cost what the internal nodes
      weigh. */
  lemma TreeCost(orig: seq<nat>, w: seq<nat>, par: seq<nat>, cut: seq<nat>, lens: seq<nat>)
    requires Greedy(orig, w, cut) && Parented(par, cut) && ParentsOk(par, |par|) && LeavesBelow(par, cut, lens)
    requires |lens| == |orig| == |w| + 1 && |w| == |par| + 1 && cut[|w|] == |orig|
    ensures Cost(orig, lens) == Sum(w)
  {
    hide Cost, Sum, Greedy, Parented, LeavesBelow;
    CostSoFar(orig, w, par, cut, lens, |w|);
    assert orig[..|orig|] == orig && lens[..|lens|] == lens && w[..|w|] == w;
    CostNode(w, par, |par|);
  }

  // ---- The parents that merging leaves behind.

  /** One more node: what was joined into it becomes its children. */
  lemma GrowTree(orig: seq<nat>, w: seq<nat>, par: seq<nat>, cut: seq<nat>, par': seq<nat>, leaf': nat, x: nat)
    requires Greedy(orig, w, cut) && Parented(par, cut) && |par| == Inner(cut, |w|)
    requires cut[|w|] <= leaf' <= |orig| && |par| <= |par'| <= |w| && |par'| + leaf' == 2 * |w| + 2
    requires par <= par' && forall i :: |par| <= i < |par'| ==> par'[i] == |w|
    requires x == Sum(orig[cut[|w|]..leaf']) + Sum(w[|par|..|par'|]) && Ascending(w + [x])
    requires forall p, i :: 0 <= p < leaf' && |par'| <= i < |w| ==> orig[p] <= w[i]
    requires forall p :: 0 <= p < leaf' ==> orig[p] <= x
    requires forall i, p :: 0 <= i < |par'| && leaf' <= p < |orig| ==> w[i] <= orig[p]
    ensures Greedy(orig, w + [x], cut + [leaf']) && Parented(par', cut + [leaf'])
  {
    hide Sum;
    var w', cut' := w + [x], cut + [leaf'];
    forall k | 0 <= k < |w'|
      ensures Joined(orig, w', cut', k)
    {
      if k < |w| {
        StillJoined(orig, w, cut, k, x, leaf');
      } else {
        assert w'[|par|..|par'|] == w[|par|..|par'|];
      }
    }
    forall i, k | 0 <= i < |par'| && 0 <= k < |cut'|
      ensures i < Inner(cut', k) <==> par'[i] < k
    {
      if k < |cut| {
        assert Inner(cut', k) == Inner(cut, k);
        assert i < |par| ==> par'[i] == par[i];
      }
    }
    forall k | 0 <= k < |cut'|
      ensures 0 <= Inner(cut', k) <= |par'|
    {
      if k < |cut| {
        assert Inner(cut', k) == Inner(cut, k);
      }
    }
  }

  lemma StillJoined(orig: seq<nat>, w: seq<nat>, cut: seq<nat>, k: nat, x: nat, leaf: nat)
    requires k < |w| && k + 1 < |cut| && Joined(orig, w, cut, k)
    ensures Joined(orig, w + [x], cut + [leaf], k)
  {
    hide Sum;
    assert (w + [x])[Inner(cut, k)..Inner(cut, k + 1)] == w[Inner(cut, k)..Inner(cut, k + 1)];
  }

  /** Parents come later and in order, two children each. */
  lemma ParentsInOrder(orig: seq<nat>, w: seq<nat>, par: seq<nat>, cut: seq<nat>)
    requires Greedy(orig, w, cut) && Parented(par, cut) && |par| == Inner(cut, |w|) && |w| > 0
    ensures ParentsOk(par, |w| - 1)
  {
    hide Sum;
    forall i | 0 <= i < |par|
      ensures i < par[i] < |w|
    {
      assert par[i] < |w|;
      assert Joined(orig, w, cut, par[i]);
    }
    forall i, j | 0 <= i <= j < |par|
      ensures par[i] <= par[j]
    {
      assert j < Inner(cut, par[j] + 1);
    }
    forall i | 0 <= i && i + 2 < |par|
      ensures par[i] < par[i + 2]
    {
      assert i + 2 < Inner(cut, par[i + 2] + 1);
      assert Joined(orig, w, cut, par[i]);
      assert i >= Inner(cut, par[i]);
    }
  }

  /** A node outweighs each internal child by any node joined before. */
  lemma Outweighs(orig: seq<nat>, w: seq<nat>, par: seq<nat>, cut: seq<nat>, i: nat)
    requires Greedy(orig, w, cut) && Parented(par, cut) && i < |par| && par[i] < |w|
    ensures i < |w| && cut[par[i]] <= |orig|
    ensures forall j :: 0 <= j < |par| && par[j] < par[i] ==> j < |w| && w[par[i]] >= w[i] + w[j]
    ensures forall p :: 0 <= p < cut[par[i]] ==> w[par[i]] >= w[i] + orig[p]
  {
    hide Sum;
    var g := par[i];
    MergedShape(orig, w, cut, g);
    MergedShape(orig, w, cut, g - 1);
    var c, d, r, q := cut[g], cut[g + 1], Inner(cut, g), Inner(cut, g + 1);
    assert r <= i < q;
    if c == d {
      SumPair(w[r..q]);
      assert orig[c..d] == [];
      NothingSums(orig[c..d]);
    } else {
      SumOne(orig[c]);
      SumOne(w[r]);
      assert orig[c..d] == [orig[c]] && w[r..q] == [w[r]];
    }
  }

  lemma NothingSums(s: seq<nat>)
    requires s == []
    ensures Sum(s) == 0
  {
  }

  // ---- Weights along a path to the root grow like Fibonacci numbers.

  /** The least weight of the root above a node of weight x, with a child of weight y, d levels down. */
  function RootWeight(d: nat, x: nat, y: nat): nat {
    if d == 0 then x else RootWeight(d - 1, x + y, x)
  }

  lemma {:induction false} RootWeightMono(d: nat, x: nat, y: nat, x': nat, y': nat)
    requires x <= x' && y <= y'
    ensures RootWeight(d, x, y) <= RootWeight(d, x', y')
    decreases d
  {
    if d > 0 {
      RootWeightMono(d - 1, x + y, x, x' + y', x');
    }
  }

  lemma {:induction false} RootWeightScale(d: nat, x: nat, y: nat, z: nat)
    ensures RootWeight(d, x * z, y * z) == RootWeight(d, x, y) * z
    decreases d
  {
    if d > 0 {
      assert x * z + y * z == (x + y) * z;
      RootWeightScale(d - 1, x + y, x, z);
    }
  }

  /** A whole tree: every leaf joined, every internal node but the last. */
  ghost predicate Whole(orig: seq<nat>, w: seq<nat>, par: seq<nat>, cut: seq<nat>) {
    && Greedy(orig, w, cut) && Parented(par, cut) && ParentsOk(par, |par|)
    && |orig| == |w| + 1 == |cut| && |w| == |par| + 1 && cut[|w|] == |orig|
    && w[|par|] == Sum(orig)
  }

  lemma {:induction false} PathWeight(orig: seq<nat>, w: seq<nat>, par: seq<nat>, cut: seq<nat>, i: nat, j: nat)
    requires Whole(orig, w, par, cut) && j < |par| && par[j] == i
    ensures RootWeight(Depth(par, i), w[i], w[j]) <= Sum(orig)
    decreases |w| - i
  {
    hide Sum, Greedy, Parented;
    if i < |par| {
      PathWeight(orig, w, par, cut, par[i], i);
      Outweighs(orig, w, par, cut, i);
      RootWeightMono(Depth(par, i) - 1, w[i] + w[j], w[i], w[par[i]], w[i]);
    }
  }

  /** The node that a leaf was joined into is no lighter, and that node's parent outweighs both together. */
  lemma LeafFacts(orig: seq<nat>, w: seq<nat>, par: seq<nat>, cut: seq<nat>, p: nat, k: nat)
    requires Whole(orig, w, par, cut) && LeafOf(cut, p, k)
    ensures p < |orig| && k < |w| && orig[p] <= w[k] &&
        (k < |par| ==> k < par[k] <= |par| && w[k] + orig[p] <= w[par[k]])
  {
    hide Sum, Greedy;
    MergedShape(orig, w, cut, k);
    CutsRise(orig, w, cut, k + 1, |w|);
    SumPart(orig[cut[k]..cut[k + 1]], p - cut[k]);
    if k < |par| {
      Outweighs(orig, w, par, cut, k);
      CutsRise(orig, w, cut, k + 1, par[k]);
    }
  }

  /** A leaf's weight, times the Fibonacci number of its depth, is no more than the total. */
  lemma LeafWeight(orig: seq<nat>, w: seq<nat>, par: seq<nat>, cut: seq<nat>, p: nat, k: nat)
    requires Whole(orig, w, par, cut) && LeafOf(cut, p, k)
    ensures p < |orig| && RootWeight(Depth(par, k), 1, 1) * orig[p] <= Sum(orig)
  {
    hide Sum, Greedy, Parented, ParentsOk, LeafOf;
    LeafFacts(orig, w, par, cut, p, k);
    var x, d := orig[p], Depth(par, k);
    if k < |par| {
      PathWeight(orig, w, par, cut, par[k], k);
      RootWeightMono(d - 1, w[k] + x, w[k], w[par[k]], w[k]);
    }
    RootWeightMono(d, x, x, w[k], x);
    RootWeightScale(d, 1, 1, x);
  }

  lemma {:induction false} CutsRise(orig: seq<nat>, w: seq<nat>, cut: seq<nat>, a: nat, b: nat)
    requires Greedy(orig, w, cut) && a <= b <= |w|
    ensures cut[a] <= cut[b] <= |orig|
    decreases b
  {
    if a < b {
      CutsRise(orig, w, cut, a, b - 1);
      MergedShape(orig, w, cut, b - 1);
    } else {
      WaitingOk(orig, w, cut, a);
    }
  }

  lemma {:induction false} SumPart(s: seq<nat>, i: nat)
    requires i < |s|
    ensures s[i] <= Sum(s)
  {
    if i > 0 {
      SumPart(s[1..], i - 1);
    }
  }

  lemma {:induction false} RootWeightGrows(d: nat, e: nat, x: nat, y: nat)
    requires d <= e && y <= x
    ensures RootWeight(d, x, y) <= RootWeight(e, x, y)
    decreases d
  {
    if d == 0 {
      RootWeightAtLeast(e, x, y);
    } else {
      RootWeightGrows(d - 1, e - 1, x + y, x);
    }
  }

  lemma {:induction false} RootWeightAtLeast(d: nat, x: nat, y: nat)
    ensures RootWeight(d, x, y) >= x
    decreases d
  {
    if d > 0 {
      RootWeightAtLeast(d - 1, x + y, x);
    }
  }

  lemma Fibonacci23()
    ensures RootWeight(23, 1, 1) == 75025
  {
    assert RootWeight(23, 1, 1) == RootWeight(19, 8, 5);
    assert RootWeight(19, 8, 5) == RootWeight(15, 55, 34);
    assert RootWeight(15, 55, 34) == RootWeight(11, 377, 233);
    assert RootWeight(11, 377, 233) == RootWeight(7, 2584, 1597);
    assert RootWeight(7, 2584, 1597) == RootWeight(3, 17711, 10946);
    assert RootWeight(3, 17711, 10946) == 75025;
  }

  /** Counts that sum below 2^16 never reach depth 24: every code length fits the 33-entry histogram. */
  lemma DepthBound(orig: seq<nat>, w: seq<nat>, par: seq<nat>, cut: seq<nat>, i: nat)
    requires Whole(orig, w, par, cut) && Sum(orig) < 65536 && (|orig| > 0 ==> orig[0] >= 1)
    ensures Depth(par, i) <= 23
  {
    hide Sum;
    if i < |par| && Depth(par, i) >= 24 {
      PathWeight(orig, w, par, cut, par[i], i);
      NodesWeigh(orig, w, cut);
      RootWeightMono(Depth(par, i) - 1, 1, 1, w[par[i]], w[i]);
      RootWeightGrows(23, Depth(par, i) - 1, 1, 1);
      Fibonacci23();
      assert false;
    }
  }

  lemma NodesWeigh(orig: seq<nat>, w: seq<nat>, cut: seq<nat>)
    requires Greedy(orig, w, cut) && |w| > 0 && |orig| > 0 && orig[0] >= 1
    ensures forall i :: 0 <= i < |w| ==> w[i] >= 1
  {
    hide Sum;
    assert Joined(orig, w, cut, 0);
  }
}
