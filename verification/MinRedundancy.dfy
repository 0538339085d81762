/** In-place Huffman code lengths after Moffat and Katajainen (tdefl_calculate_minimum_redundancy). */
module MinRedundancy {
  import opened Arith
  import opened CodeCost
  import opened HuffmanTree
  import opened RadixSort

  function Keys(s: seq<SymFreq>): (r: seq<nat>)
    ensures |r| == |s|
    ensures forall i :: 0 <= i < |s| ==> r[i] == s[i].key
  {
    seq(|s|, i requires 0 <= i < |s| => s[i].key)
  }

  // ---- Phase 1: merging. Internal node i has weight w[i]; once merged, parent par[i].

  /** Everything merged so far weighs at most lw, everything still waiting at least lw. */
  ghost predicate Split(w: seq<nat>, merged: nat, orig: seq<nat>, leaf: nat, lw: nat)
    requires merged <= |w| && leaf <= |orig|
  {
    && Ascending(w)
    && (forall i :: 0 <= i < merged ==> w[i] <= lw)
    && (forall i :: merged <= i < |w| ==> lw <= w[i])
    && (forall i :: 0 <= i < leaf ==> orig[i] <= lw)
    && (forall i :: leaf <= i < |orig| ==> lw <= orig[i])
    && (forall i :: 0 <= i < |w| ==> w[i] <= 2 * lw)
  }

  /** The array during merging: parents, then waiting internal weights, then, from leaf on, waiting leaves. */
  ghost predicate Layout(keys: seq<nat>, orig: seq<nat>, w: seq<nat>, par: seq<nat>, leaf: nat) {
    && |par| <= |w| <= leaf <= |orig| == |keys|
    && (forall i :: 0 <= i < |par| ==> keys[i] == par[i])
    && (forall i :: |par| <= i < |w| ==> keys[i] == w[i])
    && (forall i :: leaf <= i < |orig| ==> keys[i] == orig[i])
  }

  ghost predicate Merging(keys: seq<nat>, orig: seq<nat>, w: seq<nat>, par: seq<nat>, leaf: nat, lw: nat) {
    && Layout(keys, orig, w, par, leaf)
    && Split(w, |par|, orig, leaf, lw)
    && Ascending(orig)
  }

  /** All weight is in the waiting nodes and what the current merge has taken. */
  ghost predicate Conserved(orig: seq<nat>, w: seq<nat>, merged: nat, leaf: nat, taken: nat)
    requires merged <= |w| && leaf <= |orig|
  {
    Sum(w[merged..]) + Sum(orig[leaf..]) + taken == Sum(orig)
  }

  /** Taking the lightest waiting internal node as a child of node |w|, whose slot holds x. */
  lemma TakeInternal(keys: seq<nat>, orig: seq<nat>, w: seq<nat>, par: seq<nat>, leaf: nat, lw: nat, taken: nat, x: nat)
    requires Merging(keys, orig, w, par, leaf, lw) && Conserved(orig, w, |par|, leaf, taken)
    requires |par| < |w| < leaf && (leaf < |orig| ==> w[|par|] <= orig[leaf])
    ensures Merging(keys[|w| := x][|par| := |w|], orig, w, par + [|w|], leaf, w[|par|])
    ensures Conserved(orig, w, |par| + 1, leaf, taken + w[|par|])
  {
    SumTail(w, |par|);
  }

  /** Taking the lightest waiting leaf as a child of node |w|. */
  lemma TakeLeaf(keys: seq<nat>, orig: seq<nat>, w: seq<nat>, par: seq<nat>, leaf: nat, lw: nat, taken: nat, x: nat)
    requires Merging(keys, orig, w, par, leaf, lw) && Conserved(orig, w, |par|, leaf, taken)
    requires |w| < leaf < |orig| && (|par| < |w| ==> orig[leaf] <= w[|par|])
    ensures Merging(keys[|w| := x], orig, w, par, leaf + 1, orig[leaf])
    ensures Conserved(orig, w, |par|, leaf + 1, taken + orig[leaf])
  {
    SumTail(orig, leaf);
  }

  /** Completing the merge: node |w| gets the weight of its two children, a then b. */
  lemma Complete(keys: seq<nat>, orig: seq<nat>, w: seq<nat>, par: seq<nat>, leaf: nat, lw: nat, a: nat, b: nat)
    requires Merging(keys, orig, w, par, leaf, b) && Conserved(orig, w, |par|, leaf, a + b)
    requires |w| < leaf && lw <= a <= b && keys[|w|] == a + b
    requires forall i :: 0 <= i < |w| ==> w[i] <= 2 * lw
    ensures Merging(keys, orig, w + [a + b], par, leaf, b)
    ensures Conserved(orig, w + [a + b], |par|, leaf, 0)
  {
    hide Sum;
    assert (w + [a + b])[|par|..] == w[|par|..] + [a + b];
    SumAppend(w[|par|..], a + b);
  }

  /** What the loop reads off the array, and the bounds that keep 16-bit keys exact. */
  lemma MergingFacts(keys: seq<nat>, orig: seq<nat>, w: seq<nat>, par: seq<nat>, leaf: nat, lw: nat, taken: nat)
    requires Merging(keys, orig, w, par, leaf, lw) && Conserved(orig, w, |par|, leaf, taken)
    ensures forall i :: |par| <= i < |w| ==> keys[i] == w[i] && lw <= w[i]
    ensures forall i :: leaf <= i < |orig| ==> keys[i] == orig[i] && lw <= orig[i]
    ensures forall i :: 0 <= i < |w| ==> w[i] <= 2 * lw
    ensures forall i :: 0 <= i < |par| ==> keys[i] == par[i]
    ensures taken <= Sum(orig)
  {
  }

  /** The first merge joins the two lightest leaves. */
  lemma FirstMerge(orig: seq<nat>)
    requires |orig| >= 2 && Ascending(orig)
    ensures var x := orig[0] + orig[1];
            && Merging(orig[0 := x], orig, [x], [], 2, orig[1]) && Conserved(orig, [x], 0, 2, 0)
            && Greedy(orig, [x], [0, 2]) && Parented([], [0, 2])
  {
    var x := orig[0] + orig[1];
    SumTail(orig, 0);
    SumTail(orig, 1);
    SumPair(orig[..2]);
    assert orig[0..] == orig && orig[0..2] == orig[..2];
    SumOne(x);
    NothingSums([x][0..0]);
    assert [x][0..] == [x];
    assert Joined(orig, [x], [0, 2], 0);
  }

  lemma AllMerged(keys: seq<nat>, orig: seq<nat>, w: seq<nat>, par: seq<nat>, cut: seq<nat>, leaf: nat, lw: nat)
    requires Merging(keys, orig, w, par, leaf, lw) && Conserved(orig, w, |par|, leaf, 0)
    requires Greedy(orig, w, cut) && Parented(par, cut) && cut[|w|] == leaf
    requires |orig| >= 2 && |w| == |orig| - 1 && |par| < |w| && |par| + leaf == 2 * |w|
    ensures Whole(orig, w, par, cut)
  {
    ParentsInOrder(orig, w, par, cut);
    SumTail(w, |par|);
    assert w[|par| + 1..] == [] && orig[leaf..] == [];
  }

  /** The first child of node next moves into its slot. */
  method FirstChild(a: array<SymFreq>, n: nat, next: nat, root: nat, leaf: nat,
                    ghost orig: seq<nat>, ghost w: seq<nat>, ghost par: seq<nat>, ghost lw: nat)
    returns (root': nat, leaf': nat, ghost par': seq<nat>, ghost lw': nat)
    requires |par| == root < next == |w| < leaf <= n <= a.Length && |orig| == n && root + leaf == 2 * next
    requires Merging(Keys(a[..n]), orig, w, par, leaf, lw) && Conserved(orig, w, root, leaf, 0)
    modifies a
    ensures |par'| == root' <= next && leaf <= leaf' <= n && root' + leaf' == 2 * next + 1
    ensures Merging(Keys(a[..n]), orig, w, par', leaf', lw') && Conserved(orig, w, root', leaf', lw')
    ensures a[next].key == lw' && lw <= lw'
    ensures par' == par || par' == par + [next]
    ensures forall i :: 0 <= i < a.Length ==> a[i].sym == old(a[i].sym)
  {
    hide Merging, Conserved, Sum, Keys;
    ghost var k: seq<nat> := Keys(a[..n]);
    MergingFacts(k, orig, w, par, leaf, lw, 0);
    root', leaf', par' := root, leaf, par;
    if leaf >= n || a[root].key < a[leaf].key {
      TakeInternal(k, orig, w, par, leaf, lw, 0, a[root].key);
      lw', par' := w[root], par + [next];
      a[next] := a[next].(key := a[root].key);
      a[root] := a[root].(key := next);
      root' := root + 1;
      assert Keys(a[..n]) == k[next := lw'][root := next];
    } else {
      TakeLeaf(k, orig, w, par, leaf, lw, 0, a[leaf].key);
      lw' := orig[leaf];
      a[next] := a[next].(key := a[leaf].key);
      leaf' := leaf + 1;
      assert Keys(a[..n]) == k[next := lw'];
    }
  }

  /** The second child of node next is added to its slot. */
  method SecondChild(a: array<SymFreq>, n: nat, next: nat, root: nat, leaf: nat,
                     ghost orig: seq<nat>, ghost w: seq<nat>, ghost par: seq<nat>, ghost lw: nat)
    returns (root': nat, leaf': nat, ghost par': seq<nat>, ghost lw': nat)
    requires |par| == root <= next == |w| && leaf <= n <= a.Length && |orig| == n && root + leaf == 2 * next + 1
    requires next < n - 1
    requires Merging(Keys(a[..n]), orig, w, par, leaf, lw) && Conserved(orig, w, root, leaf, lw)
    requires a[next].key == lw
    modifies a
    ensures |par'| == root' <= next && leaf <= leaf' <= n && root' + leaf' == 2 * next + 2
    ensures Merging(Keys(a[..n]), orig, w, par', leaf', lw') && Conserved(orig, w, root', leaf', lw + lw')
    ensures a[next].key == lw + lw' && lw <= lw'
    ensures par' == par || par' == par + [next]
    ensures forall i :: 0 <= i < a.Length ==> a[i].sym == old(a[i].sym)
  {
    hide Merging, Conserved, Sum, Keys;
    ghost var k: seq<nat> := Keys(a[..n]);
    MergingFacts(k, orig, w, par, leaf, lw, lw);
    root', leaf', par' := root, leaf, par;
    if leaf >= n || (root < next && a[root].key < a[leaf].key) {
      TakeInternal(k, orig, w, par, leaf, lw, lw, lw + w[root]);
      lw', par' := w[root], par + [next];
      a[next] := a[next].(key := a[next].key + a[root].key);
      a[root] := a[root].(key := next);
      root' := root + 1;
      assert Keys(a[..n]) == k[next := lw + lw'][root := next];
    } else {
      TakeLeaf(k, orig, w, par, leaf, lw, lw, lw + orig[leaf]);
      lw' := orig[leaf];
      a[next] := a[next].(key := a[next].key + a[leaf].key);
      leaf' := leaf + 1;
      assert Keys(a[..n]) == k[next := lw + lw'];
    }
  }

  /** What the merge took weighs as much as the new node, and was the lightest there was. */
  lemma JoinedNext(keys: seq<nat>, orig: seq<nat>, w: seq<nat>, par: seq<nat>, cut: seq<nat>, par': seq<nat>,
      leaf': nat, lw: nat, x: nat)
    requires Greedy(orig, w, cut) && Parented(par, cut) && cut[|w|] <= |orig| && |par| == Inner(cut, |w|)
    requires |par| <= |par'| <= |w| && Conserved(orig, w, |par|, cut[|w|], 0)
    requires cut[|w|] <= leaf' <= |orig| && |par'| + leaf' == 2 * |w| + 2
    requires par <= par' && forall i :: |par| <= i < |par'| ==> par'[i] == |w|
    requires Merging(keys, orig, w + [x], par', leaf', lw) && lw <= x && Conserved(orig, w + [x], |par'|, leaf', 0)
    ensures Greedy(orig, w + [x], cut + [leaf']) && Parented(par', cut + [leaf'])
  {
    hide Joined, Parented, Sum;
    var leaf, r, q := cut[|w|], |par|, |par'|;
    assert w[r..] == w[r..q] + w[q..] && orig[leaf..] == orig[leaf..leaf'] + orig[leaf'..];
    SumConcat(w[r..q], w[q..]);
    SumConcat(orig[leaf..leaf'], orig[leaf'..]);
    assert (w + [x])[q..] == w[q..] + [x];
    SumAppend(w[q..], x);
    var w' := w + [x];
    assert forall i :: 0 <= i < |w| ==> w'[i] == w[i];
    GrowTree(orig, w, par, cut, par', leaf', x);
  }

  /** One merge: node next is created from the two lightest waiting nodes. */
  method Join(a: array<SymFreq>, n: nat, next: nat, root: nat, leaf: nat,
              ghost orig: seq<nat>, ghost w: seq<nat>, ghost par: seq<nat>, ghost cut: seq<nat>, ghost lw: nat)
    returns (root': nat, leaf': nat, ghost w': seq<nat>, ghost par': seq<nat>, ghost cut': seq<nat>, ghost lw': nat)
    requires |par| == root < next == |w| < leaf <= n <= a.Length && |orig| == n && root + leaf == 2 * next
    requires next < n - 1 && Sum(orig) < 65536
    requires Merging(Keys(a[..n]), orig, w, par, leaf, lw) && Conserved(orig, w, root, leaf, 0)
    requires Greedy(orig, w, cut) && Parented(par, cut) && cut[next] == leaf
    modifies a
    ensures |par'| == root' <= next < leaf' <= n && |w'| == next + 1 && root' + leaf' == 2 * next + 2
    ensures Merging(Keys(a[..n]), orig, w', par', leaf', lw') && Conserved(orig, w', root', leaf', 0)
    ensures Greedy(orig, w', cut') && Parented(par', cut') && cut'[next + 1] == leaf'
    ensures forall i :: 0 <= i < a.Length ==> a[i].sym == old(a[i].sym)
  {
    hide Merging, Conserved, Sum, Parented, Joined, Keys;
    MergingFacts(Keys(a[..n]), orig, w, par, leaf, lw, 0);
    ghost var x: nat;
    root', leaf', par', x := FirstChild(a, n, next, root, leaf, orig, w, par, lw);
    root', leaf', par', lw' := SecondChild(a, n, next, root', leaf', orig, w, par', x);
    MergingFacts(Keys(a[..n]), orig, w, par', leaf', lw', x + lw');
    assert a[next].key < 65536;
    assert Keys(a[..n])[next] == a[next].key;
    Complete(Keys(a[..n]), orig, w, par', leaf', lw, x, lw');
    w' := w + [x + lw'];
    cut' := cut + [leaf'];
    JoinedNext(Keys(a[..n]), orig, w, par, cut, par', leaf', lw', x + lw');
  }

  /** Phase 1 on the keys of a: internal weights replaced by parent indices. */
  method Merge(a: array<SymFreq>, n: nat) returns (ghost w: seq<nat>, ghost par: seq<nat>, ghost cut: seq<nat>)
    requires 2 <= n <= a.Length
    requires Ascending(Keys(a[..n])) && Sum(Keys(a[..n])) < 65536
    modifies a
    ensures Whole(old(Keys(a[..n])), w, par, cut)
    ensures forall i :: 0 <= i < n - 2 ==> a[i].key == par[i]
    ensures forall i :: 0 <= i < a.Length ==> a[i].sym == old(a[i].sym)
  {
    hide Merging, Conserved, Sum, Ascending, Parented, Joined, ParentsOk;
    ghost var orig := Keys(a[..n]);
    FirstMerge(orig);
    w, par, cut := [a[0].key + a[1].key], [], [0, 2];
    ghost var lw: nat := a[1].key;
    a[0] := a[0].(key := a[0].key + a[1].key);
    var root: nat, leaf: nat := 0, 2;
    assert Keys(a[..n]) == orig[0 := orig[0] + orig[1]];
    for next: nat := 1 to n - 1
      invariant |w| == next && |par| == root < next < leaf <= n && root + leaf == 2 * next && |orig| == n
      invariant Merging(Keys(a[..n]), orig, w, par, leaf, lw)
      invariant Conserved(orig, w, root, leaf, 0)
      invariant Greedy(orig, w, cut) && Parented(par, cut) && cut[next] == leaf
      invariant forall i :: 0 <= i < a.Length ==> a[i].sym == old(a[i].sym)
    {
      root, leaf, w, par, cut, lw := Join(a, n, next, root, leaf, orig, w, par, cut, lw);
    }
    MergingFacts(Keys(a[..n]), orig, w, par, leaf, lw, 0);
    AllMerged(Keys(a[..n]), orig, w, par, cut, leaf, lw);
  }

  // ---- Phase 2: parent indices become depths.

  lemma ParentDepth(par: seq<nat>, i: nat)
    requires ParentsOk(par, |par|) && i < |par|
    ensures i < par[i] <= |par| && Depth(par, i) == Depth(par, par[i]) + 1
  {
  }

  lemma RootDepth(par: seq<nat>)
    requires ParentsOk(par, |par|)
    ensures Depth(par, |par|) == 0
  {
  }

  /** Each parent index is replaced by the node's depth, from the root down. */
  method Depths(a: array<SymFreq>, n: nat, ghost par: seq<nat>)
    requires 2 <= n <= a.Length && |par| == n - 2 && ParentsOk(par, |par|)
    requires forall i :: 0 <= i < n - 2 ==> a[i].key == par[i]
    modifies a
    ensures forall i :: 0 <= i < n - 1 ==> a[i].key == Depth(par, i)
    ensures forall i :: 0 <= i < a.Length ==> a[i].sym == old(a[i].sym)
  {
    hide ParentsOk, Depth;
    RootDepth(par);
    a[n - 2] := a[n - 2].(key := 0);
    var next := n - 3;
    while next >= 0
      invariant -1 <= next <= n - 3
      invariant forall i :: 0 <= i <= next ==> a[i].key == par[i]
      invariant forall i :: next < i < n - 1 ==> a[i].key == Depth(par, i)
      invariant forall i :: 0 <= i < a.Length ==> a[i].sym == old(a[i].sym)
    {
      ParentDepth(par, next);
      a[next] := a[next].(key := a[a[next].key].key + 1);
      next := next - 1;
    }
  }

  // ---- Phase 3: leaf depths.

  lemma {:induction false} DepthMono(par: seq<nat>, i: nat, j: nat)
    requires ParentsOk(par, |par|) && i <= j <= |par|
    ensures Depth(par, i) >= Depth(par, j)
    decreases |par| - i
  {
    if j < |par| {
      DepthMono(par, par[i], par[j]);
    }
  }

  /** The code lengths fill the code space exactly. */
  predicate FillsSpace(lens: seq<nat>, m: nat) {
    Kraft(lens, m) == Pow2(m)
  }

  /** Index distance along a level at most doubles the distance between parents. */
  lemma {:induction false} ParentSpread(par: seq<nat>, i: nat, k: nat)
    requires ParentsOk(par, |par|) && i + 2 * k < |par|
    ensures par[i] + k <= par[i + 2 * k]
    decreases k
  {
    if k > 0 {
      ParentSpread(par, i, k - 1);
      assert par[i + 2 * k - 2] < par[i + 2 * k];
    }
  }

  /** A level of internal nodes is at most twice as large as the one above it. */
  lemma LevelAtMostDouble(par: seq<nat>, d: nat, lo: int, mid: int, hi: int)
    requires ParentsOk(par, |par|) && -1 <= lo <= mid <= hi <= |par|
    requires forall i :: lo < i <= mid ==> Depth(par, i) == d + 1
    requires forall i :: hi < i <= |par| ==> Depth(par, i) < d
    requires forall i :: 0 <= i <= mid ==> Depth(par, i) > d
    ensures mid - lo <= 2 * (hi - mid)
  {
    if lo < mid {
      var x, y := lo + 1, mid;
      assert Depth(par, x) == d + 1 && Depth(par, y) == d + 1;
      assert x < |par| && y < |par|;
      assert Depth(par, par[x]) == d && Depth(par, par[y]) == d;
      assert mid < par[x] && par[y] <= hi;
      var k := (y - x) / 2;
      ParentSpread(par, x, k);
      assert par[x + 2 * k] <= par[y];
    }
  }

  /** Internal nodes 0..root are at depth d or below; those just above, up to hi, make up the level before. */
  ghost predicate Level(par: seq<nat>, d: nat, root: int, hi: int, avbl: nat)
    requires ParentsOk(par, |par|)
  {
    && -1 <= root <= hi <= |par|
    && (forall i :: 0 <= i <= root ==> Depth(par, i) >= d)
    && (forall i :: root < i <= |par| ==> Depth(par, i) < d)
    && (forall i :: 0 <= i <= hi ==> Depth(par, i) + 1 >= d)
    && (forall i :: hi < i <= |par| ==> Depth(par, i) + 1 < d)
    && avbl == if d == 0 then 1 else 2 * (hi - root)
  }

  /** Moving past the internal nodes of depth d: no more of them than slots, and they open the next level. */
  lemma NextLevel(par: seq<nat>, d: nat, root: int, hi: int, avbl: nat, root': int)
    requires ParentsOk(par, |par|) && Level(par, d, root, hi, avbl)
    requires -1 <= root' <= root && (forall i :: root' < i <= root ==> Depth(par, i) == d)
    requires root' >= 0 ==> Depth(par, root') != d
    ensures root - root' <= avbl
    ensures Level(par, d + 1, root', root, 2 * (root - root'))
  {
    forall i | 0 <= i <= root'
      ensures Depth(par, i) >= d + 1
    {
      DepthMono(par, i, root');
    }
    if d > 0 {
      LevelAtMostDouble(par, d - 1, root', root, hi);
    } else {
      InnerDepth(par);
    }
  }

  lemma InnerDepth(par: seq<nat>)
    requires ParentsOk(par, |par|)
    ensures Depth(par, |par|) == 0 && (|par| > 0 ==> Depth(par, |par| - 1) >= 1)
  {
  }

  /** Nodes still to come hang from the level just counted: while any remain there are slots for them. */
  lemma SlotsRemain(par: seq<nat>, d: nat, root: int, hi: int, avbl: nat)
    requires ParentsOk(par, |par|) && Level(par, d, root, hi, avbl)
    requires root >= 0
    ensures avbl > 0
  {
    assert Depth(par, |par|) == 0;
    if d > 0 && root < |par| {
      assert Depth(par, par[root]) == Depth(par, root) - 1;
    }
  }

  /** Code lengths from 1 to 24, longest first, filling the code space exactly. */
  predicate Lengths(lens: seq<nat>) {
    && (forall i :: 0 <= i < |lens| ==> 1 <= lens[i] <= 24)
    && (forall i, j :: 0 <= i < j < |lens| ==> lens[i] >= lens[j])
  }

  /** The leaves placed so far, all at depth d or above, leave avbl slots of depth d. */
  ghost predicate Filled(lens: seq<nat>, d: nat, avbl: nat) {
    && Lengths(lens) && (forall i :: 0 <= i < |lens| ==> lens[i] <= d)
    && d <= 32 && Kraft(lens, 32) + avbl * Pow2(32 - d) == Pow2(32)
  }

  lemma FilledPrepend(lens: seq<nat>, d: nat, avbl: nat)
    requires Filled(lens, d, avbl) && 1 <= d <= 24 && avbl > 0
    ensures Filled([d] + lens, d, avbl - 1)
  {
    hide Pow2;
    KraftConcat([d], lens, 32);
    KraftOne(d, 32);
    OneLess(avbl, Pow2(32 - d));
  }

  lemma FilledDeeper(lens: seq<nat>, d: nat, used: nat)
    requires Filled(lens, d, used) && d < 32
    ensures Filled(lens, d + 1, 2 * used)
  {
    hide Kraft, Lengths, Pow2;
    Halves(32 - d, used);
  }

  lemma Halves(e: nat, k: nat)
    requires e >= 1
    ensures k * Pow2(e) == 2 * k * Pow2(e - 1)
  {
  }

  /** Placing leaves of depth d from slot next down until only the internal nodes' slots are left. */
  method PlaceLeaves(a: array<SymFreq>, n: nat, next: int, avbl: nat, used: nat, d: nat)
    returns (next': int)
    requires used <= avbl && avbl - used <= next + 1 && next < n <= a.Length
    requires d <= 24 && (avbl == used || d >= 1)
    requires Filled(Keys(a[next + 1..n]), d, avbl)
    modifies a
    ensures next' == next - (avbl - used)
    ensures forall i :: 0 <= i <= next' || next < i < a.Length ==> a[i] == old(a[i])
    ensures forall i :: next' < i <= next ==> a[i].key == d
    ensures Filled(Keys(a[next' + 1..n]), d, used)
    ensures forall i :: 0 <= i < a.Length ==> a[i].sym == old(a[i].sym)
  {
    hide Filled;
    next' := next;
    var left := avbl;
    while left > used
      invariant used <= left <= avbl && next' == next - (avbl - left)
      invariant forall i :: 0 <= i <= next' || next < i < a.Length ==> a[i] == old(a[i])
      invariant forall i :: next' < i <= next ==> a[i].key == d
      invariant Filled(Keys(a[next' + 1..n]), d, left)
      invariant forall i :: 0 <= i < a.Length ==> a[i].sym == old(a[i].sym)
    {
      ghost var rest := Keys(a[next' + 1..n]);
      FilledPrepend(rest, d, left);
      a[next'] := a[next'].(key := d);
      next' := next' - 1;
      assert Keys(a[next' + 1..n]) == [d] + rest;
      left := left - 1;
    }
  }

  /** Counting off the internal nodes of depth d. */
  method CountLevel(a: array<SymFreq>, top: int, d: nat, ghost par: seq<nat>, ghost hi: int, ghost avbl: nat)
    returns (used: nat, root: int)
    requires ParentsOk(par, |par|) && |par| < a.Length && Level(par, d, top, hi, avbl)
    requires forall i :: 0 <= i <= top ==> a[i].key == Depth(par, i)
    ensures used == top - root && used <= avbl && -1 <= root
    ensures Level(par, d + 1, root, top, 2 * used)
    ensures used > 0 ==> Depth(par, top) == d
    ensures d == 0 ==> used == avbl
  {
    hide ParentsOk;
    used, root := 0, top;
    while root >= 0 && a[root].key == d
      invariant -1 <= root <= top && used == top - root
      invariant forall i :: root < i <= top ==> Depth(par, i) == d
    {
      used := used + 1;
      root := root - 1;
    }
    NextLevel(par, d, top, hi, avbl, root);
    if d == 0 {
      assert Depth(par, |par|) == 0;
    }
  }

  /** The nodes still to come are those whose parents are not above the level before. */
  lemma LevelParents(par: seq<nat>, d: nat, root: int, hi: int, avbl: nat)
    requires ParentsOk(par, |par|) && Level(par, d, root, hi, avbl) && d >= 1
    ensures root < |par| && forall i :: 0 <= i < |par| ==> (i <= root <==> par[i] <= hi)
  {
    RootDepth(par);
    forall i | 0 <= i < |par|
      ensures i <= root <==> par[i] <= hi
    {
      DepthStep(par, i);
    }
  }

  /** The leaves above the level being filled are the children of the nodes above it. */
  lemma CutAt(orig: seq<nat>, w: seq<nat>, par: seq<nat>, cut: seq<nat>, d: nat, root: int, hi: int, avbl: nat)
    requires Whole(orig, w, par, cut) && Level(par, d, root, hi, avbl) && d >= 1
    ensures hi + 1 < |cut| && cut[hi + 1] == 2 * hi + 1 - root
  {
    hide Greedy;
    LevelParents(par, d, root, hi, avbl);
    InnerCount(par, cut, hi + 1, root);
  }

  lemma InnerCount(par: seq<nat>, cut: seq<nat>, k: nat, root: int)
    requires Parented(par, cut) && k < |cut| && -1 <= root < |par|
    requires forall i :: 0 <= i < |par| ==> (i <= root <==> par[i] < k)
    ensures Inner(cut, k) == root + 1
  {
    var r := Inner(cut, k);
    var x := Min(r, root + 1);
    assert x < |par| ==> (x < r <==> par[x] < k) && (x <= root <==> par[x] < k);
  }

  /** The leaves of the nodes beyond hi show their lengths. */
  ghost predicate Placed(lens: seq<nat>, par: seq<nat>, cut: seq<nat>, hi: int)
    requires ParentsOk(par, |par|)
  {
    forall p: nat, k: nat :: LeafOf(cut, p, k) && k > hi ==> p < |lens| && lens[p] == Depth(par, k) + 1
  }

  /** One more level of leaves is in place. */
  lemma PlaceLevel(orig: seq<nat>, w: seq<nat>, par: seq<nat>, cut: seq<nat>, d: nat, root: int, hi: int, avbl: nat,
                   root': int, avbl': nat, was: seq<nat>, lens: seq<nat>)
    requires Whole(orig, w, par, cut) && Level(par, d, root, hi, avbl) && Level(par, d + 1, root', root, avbl')
    requires Placed(was, par, cut, hi) && |was| == |lens| == |orig|
    requires var next := if d == 0 then |par| + 1 else 2 * hi - root;
             var next' := 2 * root - root';
             && (forall p :: next < p < |lens| ==> lens[p] == was[p])
             && (forall p :: 0 <= p && next' < p <= next && p < |lens| ==> lens[p] == d)
    ensures Placed(lens, par, cut, root)
  {
    hide Sum, Depth, ParentsOk;
    CutAt(orig, w, par, cut, d + 1, root', root, avbl');
    if d >= 1 {
      CutAt(orig, w, par, cut, d, root, hi, avbl);
    }
    forall p: nat, k: nat | LeafOf(cut, p, k) && k > root
      ensures p < |lens| && lens[p] == Depth(par, k) + 1
    {
      CutsRise(orig, w, cut, k + 1, |w|);
      CutsRise(orig, w, cut, root + 1, k);
      if k > hi {
        CutsRise(orig, w, cut, hi + 1, k);
      } else {
        CutsRise(orig, w, cut, k + 1, hi + 1);
      }
    }
  }

  /** Phase 3: internal depths become leaf depths, filling the array from the back. */
  method LeafDepths(a: array<SymFreq>, n: nat, ghost orig: seq<nat>, ghost w: seq<nat>, ghost par: seq<nat>,
      ghost cut: seq<nat>)
    requires 2 <= n == |orig| && n <= a.Length && Whole(orig, w, par, cut) && Sum(orig) < 65536 && orig[0] >= 1
    requires forall i :: 0 <= i < n - 1 ==> a[i].key == Depth(par, i)
    modifies a
    ensures Lengths(Keys(a[..n])) && FillsSpace(Keys(a[..n]), 32)
    ensures LeavesBelow(par, cut, Keys(a[..n]))
    ensures forall i :: 0 <= i < a.Length ==> a[i].sym == old(a[i].sym)
  {
    hide Greedy, Parented, Filling, ParentsOk, FillsSpace, Lengths, Depth, Sum, LeafOf;
    var avbl, dpth := 1, 0;
    var root, next := n - 2, n - 1;
    ghost var hi := n - 2;
    StartFilling(Keys(a[..n]), par, cut);
    while avbl > 0
      invariant avbl >= 0 && Filling(Keys(a[..n]), par, cut, root, next, avbl, dpth, hi) && root >= -1 && next >= -1
      invariant forall i :: 0 <= i < a.Length ==> a[i].sym == old(a[i].sym)
      decreases next + root + 2
    {
      var used;
      used, root, next, hi := FillLevel(a, n, root, next, avbl, dpth, orig, w, par, cut, hi);
      avbl := 2 * used;
      dpth := dpth + 1;
    }
    EndFilling(Keys(a[..n]), par, cut, root, next, dpth, hi);
  }

  lemma StartFilling(lens: seq<nat>, par: seq<nat>, cut: seq<nat>)
    requires 2 <= |lens| == |cut| && |par| == |lens| - 2 && ParentsOk(par, |par|)
    requires forall i :: 0 <= i < |lens| - 1 ==> lens[i] == Depth(par, i)
    ensures Filling(lens, par, cut, |lens| - 2, |lens| - 1, 1, 0, |lens| - 2)
  {
    hide Filled, ParentsOk, Depth;
    TopLevel(par);
    FilledNone(lens[|lens|..]);
    NoneBeyond(lens, par, cut, |lens| - 2);
  }

  lemma EndFilling(lens: seq<nat>, par: seq<nat>, cut: seq<nat>, root: int, next: int, d: nat, hi: int)
    requires Filling(lens, par, cut, root, next, 0, d, hi) && |lens| >= 2
    ensures ParentsOk(par, |par|) && Lengths(lens) && FillsSpace(lens, 32)
    ensures LeavesBelow(par, cut, lens)
  {
    hide Filled, ParentsOk, FillsSpace, Lengths, Depth;
    if root >= 0 {
      SlotsRemain(par, d, root, hi, 0);
    }
    FilledDone(lens[next + 1..], d, 0);
    assert lens[next + 1..] == lens;
  }

  lemma NoneBeyond(lens: seq<nat>, par: seq<nat>, cut: seq<nat>, hi: int)
    requires ParentsOk(par, |par|) && hi + 2 >= |cut|
    ensures Placed(lens, par, cut, hi)
  {
  }

  /** Internal nodes up to root still show their depths; the leaves behind next are placed, down to depth d. */
  ghost predicate Filling(lens: seq<nat>, par: seq<nat>, cut: seq<nat>, root: int, next: int, avbl: int, d: nat,
      hi: int) {
    && |par| == |lens| - 2 && ParentsOk(par, |par|)
    && 0 <= avbl == (if d == 0 then 1 else 2 * (hi - root)) && -1 <= root <= |par| && next == root + avbl < |lens|
    && Level(par, d, root, hi, avbl)
    && (forall i :: 0 <= i <= root ==> lens[i] == Depth(par, i))
    && (avbl > 0 ==> d <= 24) && (d == 0 ==> root == |par|)
    && Filled(lens[next + 1..], d, avbl)
    && Placed(lens, par, cut, hi)
  }

  /** What a level needs, without the rest. */
  lemma FillingFacts(lens: seq<nat>, par: seq<nat>, cut: seq<nat>, root: int, next: int, avbl: nat, d: nat, hi: int)
    requires Filling(lens, par, cut, root, next, avbl, d, hi) && avbl > 0
    ensures |par| == |lens| - 2 && ParentsOk(par, |par|) && -1 <= root <= |par| && next == root + avbl < |lens| &&
        d <= 24
    ensures Level(par, d, root, hi, avbl) && Filled(lens[next + 1..], d, avbl)
    ensures forall i :: 0 <= i <= root ==> lens[i] == Depth(par, i)
  {
    hide ParentsOk, Level, Filled, Placed, Depth;
  }

  /** The next level's state from what counting off and placing leave. */
  lemma LevelFilled(orig: seq<nat>, w: seq<nat>, par: seq<nat>, cut: seq<nat>, was: seq<nat>, lens: seq<nat>,
                    root: int, next: int, avbl: nat, d: nat, hi: int, used: nat, root': int, next': int)
    requires Whole(orig, w, par, cut) && |was| == |lens| == |orig| && Filling(was, par, cut, root, next, avbl, d, hi)
    requires used <= avbl && used == root - root' && -1 <= root' && next' == next - (avbl - used)
    requires Level(par, d + 1, root', root, 2 * used) && (used > 0 ==> d <= 23) && (d == 0 ==> used == avbl)
    requires forall i :: 0 <= i <= next' || next < i < |lens| ==> lens[i] == was[i]
    requires forall i :: next' < i <= next ==> lens[i] == d
    requires Filled(lens[next' + 1..], d + 1, 2 * used)
    ensures Filling(lens, par, cut, root', next', 2 * used, d + 1, root)
  {
    hide Filled, Level, ParentsOk, Depth, Placed, Whole;
    PlaceLevel(orig, w, par, cut, d, root, hi, avbl, root', 2 * used, was, lens);
  }

  /** One level: count off its internal nodes, place its leaves, and open two slots for each internal node. */
  method FillLevel(a: array<SymFreq>, n: nat, root: int, next: int, avbl: nat, d: nat,
                   ghost orig: seq<nat>, ghost w: seq<nat>, ghost par: seq<nat>, ghost cut: seq<nat>, ghost hi: int)
    returns (used: nat, root': int, next': int, ghost hi': int)
    requires 2 <= n == |orig| && n <= a.Length && Whole(orig, w, par, cut) && Sum(orig) < 65536 && orig[0] >= 1
    requires Filling(Keys(a[..n]), par, cut, root, next, avbl, d, hi) && avbl > 0
    modifies a
    ensures Filling(Keys(a[..n]), par, cut, root', next', 2 * used, d + 1, hi')
    ensures -1 <= root' && -1 <= next' && next' + root' < next + root
    ensures forall i :: 0 <= i < a.Length ==> a[i].sym == old(a[i].sym)
  {
    hide Filled, Filling, Whole, Level, ParentsOk, Depth, Sum;
    hi' := root;
    ghost var was := Keys(a[..n]);
    FillingFacts(was, par, cut, root, next, avbl, d, hi);
    used, root' := CountLevel(a, root, d, par, hi, avbl);
    assert Keys(a[next + 1..n]) == was[next + 1..];
    next' := PlaceLeaves(a, n, next, avbl, used, d);
    ghost var lens := Keys(a[..n]);
    assert Keys(a[next' + 1..n]) == lens[next' + 1..];
    FilledDeeper(lens[next' + 1..], d, used);
    if used > 0 {
      DepthBound(orig, w, par, cut, root);
    }
    LevelFilled(orig, w, par, cut, was, lens, root, next, avbl, d, hi, used, root', next');
  }

  lemma FilledNone(lens: seq<nat>)
    requires lens == []
    ensures Filled(lens, 0, 1)
  {
  }

  lemma FilledDone(lens: seq<nat>, d: nat, avbl: nat)
    requires Filled(lens, d, avbl) && avbl == 0
    ensures Lengths(lens) && FillsSpace(lens, 32)
  {
  }

  lemma TopLevel(par: seq<nat>)
    requires ParentsOk(par, |par|)
    ensures Level(par, 0, |par|, |par|, 1)
  {
  }

  /** No prefix code costs less than these lengths, and a long code belongs to a light symbol. */
  ghost predicate Minimal(orig: seq<nat>, lens: seq<nat>) {
    && |lens| == |orig|
    && (forall ls: seq<nat>, m: nat :: |ls| == |orig| && KraftFits(ls, m) ==> Cost(orig, lens) <= Cost(orig, ls))
    && (forall p :: 0 <= p < |lens| && lens[p] >= 1 ==> RootWeight(lens[p] - 1, 1, 1) * orig[p] <= Sum(orig))
  }

  lemma TreeMinimal(orig: seq<nat>, w: seq<nat>, par: seq<nat>, cut: seq<nat>, lens: seq<nat>)
    requires Whole(orig, w, par, cut) && LeavesBelow(par, cut, lens) && |lens| == |orig|
    ensures Minimal(orig, lens)
  {
    hide Cost, KraftFits, Sum, Greedy, ParentsOk, RootWeight;
    TreeCost(orig, w, par, cut, lens);
    forall ls: seq<nat>, m: nat | |ls| == |orig| && KraftFits(ls, m)
      ensures Cost(orig, lens) <= Cost(orig, ls)
    {
      MergesBound(orig, w, cut, ls, m);
    }
    forall p | 0 <= p < |lens| && lens[p] >= 1
      ensures RootWeight(lens[p] - 1, 1, 1) * orig[p] <= Sum(orig)
    {
      var k := JoinedInto(orig, w, cut, p, |w|);
      LeafWeight(orig, w, par, cut, p, k);
    }
  }

  /** Every leaf has been joined into some node. */
  lemma {:induction false} JoinedInto(orig: seq<nat>, w: seq<nat>, cut: seq<nat>, p: nat, n: nat) returns (k: nat)
    requires Greedy(orig, w, cut) && n <= |w| && p < cut[n]
    ensures LeafOf(cut, p, k)
  {
    if p < cut[n - 1] {
      k := JoinedInto(orig, w, cut, p, n - 1);
    } else {
      k := n - 1;
    }
  }

  /** Replaces ascending counts by the code lengths of a cheapest prefix code for them. */
  method CalculateMinimumRedundancy(a: array<SymFreq>, n: nat)
    requires n <= a.Length && Ascending(Keys(a[..n])) && (n > 0 ==> a[0].key >= 1) && Sum(Keys(a[..n])) < 65536
    modifies a
    ensures forall i :: 0 <= i < a.Length ==> a[i].sym == old(a[i].sym)
    ensures Lengths(Keys(a[..n]))
    ensures n >= 2 ==> FillsSpace(Keys(a[..n]), 32) && Minimal(old(Keys(a[..n])), Keys(a[..n]))
    ensures n == 1 ==> a[0].key == 1
  {
    hide Minimal, Sum, Whole, Lengths, FillsSpace, Ascending;
    if n <= 1 {
      if n == 1 {
        a[0] := a[0].(key := 1);
      }
      FewLengths(Keys(a[..n]));
      return;
    }
    ghost var orig := Keys(a[..n]);
    assert orig[0] == a[0].key;
    ghost var w, par, cut := Merge(a, n);
    WholeShape(orig, w, par, cut);
    Depths(a, n, par);
    LeafDepths(a, n, orig, w, par, cut);
    TreeMinimal(orig, w, par, cut, Keys(a[..n]));
  }

  lemma FewLengths(lens: seq<nat>)
    requires |lens| <= 1 && (|lens| == 1 ==> lens[0] == 1)
    ensures Lengths(lens)
  {
  }

  lemma WholeShape(orig: seq<nat>, w: seq<nat>, par: seq<nat>, cut: seq<nat>)
    requires Whole(orig, w, par, cut)
    ensures |par| == |orig| - 2 && ParentsOk(par, |par|)
  {
  }
}
