/** What the decoder's tables hold: a 10-bit lookup and, for longer codes, a binary tree of inner nodes. */
module PrefixTree {
  import opened Arith
  import opened Bits
  import opened Canonical

  const FAST_BITS := 10
  const FAST_SIZE := 1024

  /** The first depth bits of a code, as a number in stream order: an inner node of the tree. */
  datatype Path = Path(depth: nat, bits: nat)

  /** The code of s starts with the path and goes on. */
  ghost predicate Below(lens: Lens, s: nat, p: Path) {
    s < |lens| && lens[s] > p.depth && RevCode(lens, s) % Pow2(p.depth) == p.bits
  }

  function Parent(p: Path): (q: Path)
    requires p.depth > 0
  {
    Path(p.depth - 1, p.bits % Pow2(p.depth - 1))
  }

  /** Which of its parent's two slots a path hangs from. */
  function Side(p: Path): (b: nat)
    requires p.depth > 0
  {
    DivNonNeg(p.bits, Pow2(p.depth - 1));
    p.bits / Pow2(p.depth - 1)
  }

  function Child(p: Path, b: nat): Path {
    Path(p.depth + 1, p.bits + b * Pow2(p.depth))
  }

  /** Where p stands among the paths, or their number if it does not. */
  ghost function Index(paths: seq<Path>, p: Path): (k: nat)
    ensures k <= |paths|
    ensures k < |paths| ==> paths[k] == p
    ensures k == |paths| ==> p !in paths
  {
    if paths == [] then 0
    else
      var k := Index(paths[..|paths| - 1], p);
      if k < |paths| - 1 then k else if paths[|paths| - 1] == p then |paths| - 1 else |paths|
  }

  /** A symbol below n whose code has lo to hi bits and starts v, or n if there is none. */
  ghost function Match(lens: Lens, n: nat, lo: nat, hi: nat, v: nat): (s: nat)
    requires n <= |lens|
    ensures s <= n
    ensures s < n ==> lo <= lens[s] <= hi && RevCode(lens, s) == v % Pow2(lens[s])
    ensures s == n ==> forall t :: 0 <= t < n && lo <= lens[t] <= hi ==> RevCode(lens, t) != v % Pow2(lens[t])
  {
    if n == 0 then 0
    else if lo <= lens[n - 1] <= hi && RevCode(lens, n - 1) == v % Pow2(lens[n - 1]) then n - 1
    else
      var s := Match(lens, n - 1, lo, hi, v);
      if s < n - 1 then s else n
  }

  /** The negative number by which a slot refers to a node. */
  function Link(k: nat): int {
    -(2 * k + 1)
  }

  /** The slot for a path that is reached through the tree: a node, a symbol, or nothing. */
  ghost function Fork(lens: Lens, n: nat, paths: seq<Path>, p: Path): int
    requires n <= |lens|
  {
    var k := Index(paths, p);
    if k < |paths| then Link(k)
    else
      var s := Match(lens, n, p.depth, p.depth, p.bits);
      if s < n then s else 0
  }

  /** The lookup slot for the next ten bits: a short symbol with its length, a node, or nothing. */
  ghost function Slot(lens: Lens, n: nat, paths: seq<Path>, r: nat): int
    requires n <= |lens|
  {
    var s := Match(lens, n, 1, FAST_BITS, r);
    if s < n then lens[s] * 512 + s
    else
      var k := Index(paths, Path(FAST_BITS, r));
      if k < |paths| then Link(k) else 0
  }

  ghost predicate Filled(look: seq<int>, paths: seq<Path>, lens: Lens, n: nat) {
    n <= |lens| && |look| == FAST_SIZE && forall r :: 0 <= r < FAST_SIZE ==> look[r] == Slot(lens, n, paths, r)
  }

  /** The tables hold the first n symbols and the nodes listed in paths. */
  ghost predicate Built(look: seq<int>, tree: seq<int>, paths: seq<Path>, lens: Lens, n: nat) {
    Filled(look, paths, lens, n) && Forked(tree, paths, lens, n)
  }

  ghost predicate Forked(tree: seq<int>, paths: seq<Path>, lens: Lens, n: nat) {
    && n <= |lens| && 2 * |paths| <= |tree|
    && (forall k :: 0 <= k < |paths| ==> tree[2 * k] == Fork(lens, n, paths, Child(paths[k], 0)))
    && (forall k :: 0 <= k < |paths| ==> tree[2 * k + 1] == Fork(lens, n, paths, Child(paths[k], 1)))
    && (forall i :: 2 * |paths| <= i < |tree| ==> tree[i] == 0)
  }

  /** The nodes are distinct starts of the first m codes, closed under parents, and the first n long codes hang from
      them. */
  ghost predicate Rooted(paths: seq<Path>, lens: Lens, n: nat, m: nat) {
    && n <= m <= |lens|
    && (forall i, j :: 0 <= i < j < |paths| ==> paths[i] != paths[j])
    && (forall p :: p in paths ==> FAST_BITS <= p.depth <= 14 && exists s: nat :: s < m && Below(lens, s, p))
    && (forall p :: p in paths && p.depth > FAST_BITS ==> Parent(p) in paths)
    && (forall s :: 0 <= s < n && lens[s] > FAST_BITS ==> Parent(Path(lens[s], RevCode(lens, s))) in paths)
  }

  // ---- Arithmetic of paths.

  lemma RevBound(lens: Lens, s: nat)
    requires s < |lens|
    ensures RevCode(lens, s) < Pow2(lens[s])
  {
    ReverseBound(Code(lens, s), lens[s]);
  }

  lemma ModSmall(v: nat, d: nat)
    requires v < Pow2(d)
    ensures v % Pow2(d) == v
  {
    DivModUnique(v, Pow2(d), 0, v);
  }

  /** A path's number fits its depth. */
  lemma BelowBound(lens: Lens, s: nat, p: Path)
    requires Below(lens, s, p)
    ensures p.bits < Pow2(p.depth)
  {
    DivModOf(RevCode(lens, s), Pow2(p.depth));
  }

  lemma SideChild(p: Path)
    requires p.depth > 0 && p.bits < Pow2(p.depth)
    ensures Side(p) < 2 && Child(Parent(p), Side(p)) == p
  {
    hide Pow2;
    Pow2Add(1, p.depth - 1);
    Pow2Table();
    SplitTop(p.bits, Pow2(p.depth - 1));
  }

  lemma SplitTop(x: nat, d: nat)
    requires d > 0 && x < 2 * d
    ensures 0 <= x / d < 2 && x % d + x / d * d == x
  {
    DivModOf(x, d);
    DivLt(x, 2, d);
  }

  lemma ChildSide(p: Path, b: nat)
    requires p.bits < Pow2(p.depth) && b < 2
    ensures Parent(Child(p, b)) == p && Side(Child(p, b)) == b && Child(p, b).bits < Pow2(p.depth + 1)
  {
    DivModUnique(p.bits + b * Pow2(p.depth), Pow2(p.depth), b, p.bits);
  }

  /** Where a code goes on, no other code ends. */
  lemma NoneEnds(lens: Lens, t: nat, p: Path, s: nat)
    requires Decodable(lens) && Below(lens, t, p) && s < |lens| && 0 < lens[s] <= p.depth
    ensures RevCode(lens, s) != p.bits % Pow2(lens[s])
  {
    hide Decodable, RevCode;
    PrefixFree(lens, s, t);
    ModPow2Mod(RevCode(lens, t), lens[s], p.depth);
  }

  /** Two codes are never the same, nor one the start of the other. */
  lemma OneEnds(lens: Lens, s: nat, t: nat, v: nat)
    requires Decodable(lens) && s < |lens| && t < |lens| && 0 < lens[s] && 0 < lens[t]
    requires RevCode(lens, s) == v % Pow2(lens[s]) && RevCode(lens, t) == v % Pow2(lens[t])
    ensures s == t
  {
    hide Decodable, RevCode;
    if s != t {
      if lens[s] <= lens[t] {
        ModPow2Mod(v, lens[s], lens[t]);
        PrefixFree(lens, s, t);
      } else {
        ModPow2Mod(v, lens[t], lens[s]);
        PrefixFree(lens, t, s);
      }
    }
  }

  // ---- Adding a node.

  /** A path where a later code goes on holds no symbol. */
  lemma NoMatch(lens: Lens, n: nat, t: nat, p: Path, lo: nat)
    requires Decodable(lens) && Below(lens, t, p) && n <= |lens| && lo >= 1
    ensures Match(lens, n, lo, p.depth, p.bits) == n
  {
    hide Decodable, RevCode;
    var s := Match(lens, n, lo, p.depth, p.bits);
    if s < n {
      NoneEnds(lens, t, p, s);
    }
  }

  /** Below a path that is no node there is nothing. */
  lemma NothingBelow(paths: seq<Path>, lens: Lens, n: nat, m: nat, p: Path, b: nat)
    requires Rooted(paths, lens, n, m) && n <= |lens|
    requires p !in paths && p.depth >= FAST_BITS && p.bits < Pow2(p.depth) && b < 2
    ensures Fork(lens, n, paths, Child(p, b)) == 0
  {
    hide RevCode, Rooted, Parent;
    var q := Child(p, b);
    ChildSide(p, b);
    ParentIn(paths, lens, n, m, q);
    var s := Match(lens, n, q.depth, q.depth, q.bits);
    if s < n {
      ModSmall(q.bits, q.depth);
      assert q == Path(lens[s], RevCode(lens, s));
      LeafParent(paths, lens, n, m, s);
    }
  }

  lemma ParentIn(paths: seq<Path>, lens: Lens, n: nat, m: nat, q: Path)
    requires Rooted(paths, lens, n, m) && q.depth > FAST_BITS
    ensures q in paths ==> Parent(q) in paths
  {
    hide RevCode;
  }

  lemma LeafParent(paths: seq<Path>, lens: Lens, n: nat, m: nat, s: nat)
    requires Rooted(paths, lens, n, m) && s < n && lens[s] > FAST_BITS
    ensures Parent(Path(lens[s], RevCode(lens, s))) in paths
  {
    hide RevCode;
  }

  lemma IndexAppend(paths: seq<Path>, p: Path, q: Path)
    requires p !in paths
    ensures Index(paths + [p], q) == if q in paths then Index(paths, q) else if q == p then |paths| else |paths| + 1
  {
    assert (paths + [p])[..|paths|] == paths;
  }

  lemma RootedAppend(paths: seq<Path>, lens: Lens, n: nat, p: Path)
    requires Rooted(paths, lens, n, n + 1) && p !in paths && FAST_BITS <= p.depth <= 14 && Below(lens, n, p)
    requires p.depth > FAST_BITS ==> Parent(p) in paths
    ensures Rooted(paths + [p], lens, n, n + 1)
  {
    hide RevCode;
  }

  lemma ForkAppend(lens: Lens, n: nat, paths: seq<Path>, p: Path, q: Path)
    requires n <= |lens| && p !in paths
    ensures Fork(lens, n, paths + [p], q) == if q == p then Link(|paths|) else Fork(lens, n, paths, q)
  {
    IndexAppend(paths, p, q);
  }

  lemma SlotAppend(lens: Lens, n: nat, paths: seq<Path>, p: Path, r: nat)
    requires n <= |lens| && p !in paths
    requires Path(FAST_BITS, r) == p ==> Match(lens, n, 1, FAST_BITS, r) == n
    ensures Slot(lens, n, paths + [p], r) == if Path(FAST_BITS, r) == p then Link(|paths|) else Slot(lens, n, paths, r)
  {
    IndexAppend(paths, p, Path(FAST_BITS, r));
  }

  /** A node for the first ten bits goes into the lookup. */
  lemma AddRoot(look: seq<int>, tree: seq<int>, paths: seq<Path>, lens: Lens, n: nat, p: Path)
    requires Decodable(lens) && Built(look, tree, paths, lens, n) && Rooted(paths, lens, n, n + 1)
    requires p !in paths && p.depth == FAST_BITS && Below(lens, n, p) && 2 * |paths| + 2 <= |tree|
    ensures p.bits < FAST_SIZE && look[p.bits] == 0
    ensures Built(look[p.bits := Link(|paths|)], tree, paths + [p], lens, n) && Rooted(paths + [p], lens, n, n + 1)
  {
    hide Decodable, RevCode, Fork, Slot, Rooted, Forked;
    Pow2Table();
    BelowBound(lens, n, p);
    RootedAppend(paths, lens, n, p);
    NoMatch(lens, n, n, p, 1);
    EmptySlot(lens, n, paths, p);
    forall r | 0 <= r < FAST_SIZE
      ensures look[p.bits := Link(|paths|)][r] == Slot(lens, n, paths + [p], r)
    {
      SlotAppend(lens, n, paths, p, r);
    }
    ForkedRoot(tree, paths, lens, n, p);
  }

  lemma EmptySlot(lens: Lens, n: nat, paths: seq<Path>, p: Path)
    requires n <= |lens| && p !in paths && p.depth == FAST_BITS && Match(lens, n, 1, FAST_BITS, p.bits) == n
    ensures Slot(lens, n, paths, p.bits) == 0
  {
    assert p == Path(FAST_BITS, p.bits);
  }

  /** The tree's slots with one more node, unless that node hangs from one of them. */
  lemma TreeAppend(tree: seq<int>, paths: seq<Path>, lens: Lens, n: nat, p: Path, k: nat)
    requires Rooted(paths, lens, n, n + 1) && p !in paths && p.depth >= FAST_BITS && p.bits < Pow2(p.depth)
    requires Forked(tree, paths, lens, n) && 2 * |paths| + 2 <= |tree| && k <= |paths|
    ensures var ps := paths + [p];
            && (Child(ps[k], 0) != p ==> tree[2 * k] == Fork(lens, n, ps, Child(ps[k], 0)))
            && (Child(ps[k], 1) != p ==> tree[2 * k + 1] == Fork(lens, n, ps, Child(ps[k], 1)))
  {
    hide Fork, RevCode, Rooted;
    var ps := paths + [p];
    ForkAppend(lens, n, paths, p, Child(ps[k], 0));
    ForkAppend(lens, n, paths, p, Child(ps[k], 1));
    if k == |paths| {
      NothingBelow(paths, lens, n, n + 1, p, 0);
      NothingBelow(paths, lens, n, n + 1, p, 1);
    }
  }

  /** A root hangs from no tree slot. */
  lemma ForkedRoot(tree: seq<int>, paths: seq<Path>, lens: Lens, n: nat, p: Path)
    requires Rooted(paths, lens, n, n + 1) && p !in paths && p.depth == FAST_BITS && p.bits < Pow2(p.depth)
    requires Forked(tree, paths, lens, n) && 2 * |paths| + 2 <= |tree|
    ensures Forked(tree, paths + [p], lens, n)
  {
    hide Fork, RevCode;
    forall k: nat | k <= |paths|
      ensures tree[2 * k] == Fork(lens, n, paths + [p], Child((paths + [p])[k], 0))
      ensures tree[2 * k + 1] == Fork(lens, n, paths + [p], Child((paths + [p])[k], 1))
    {
      TreeAppend(tree, paths, lens, n, p, k);
      assert (paths + [p])[k].depth >= FAST_BITS;
    }
  }

  /** A deeper node hangs from one slot, its parent's. */
  lemma ForkedInner(tree: seq<int>, paths: seq<Path>, lens: Lens, n: nat, p: Path, i: nat)
    requires Rooted(paths, lens, n, n + 1) && Rooted(paths + [p], lens, n, n + 1)
    requires p !in paths && FAST_BITS < p.depth && p.bits < Pow2(p.depth) && Parent(p) in paths
    requires Forked(tree, paths, lens, n) && 2 * |paths| + 2 <= |tree|
    requires i == 2 * Index(paths, Parent(p)) + Side(p) && Side(p) < 2
    ensures Forked(tree[i := Link(|paths|)], paths + [p], lens, n)
  {
    hide Fork, RevCode, Rooted;
    var ps := paths + [p];
    OnlyParent(ps, lens, n, p);
    IndexUnique(ps, lens, n, n + 1, Parent(p));
    IndexAppend(paths, p, Parent(p));
    ForkAppend(lens, n, paths, p, p);
    SideChild(p);
    forall k: nat | k <= |paths|
      ensures tree[i := Link(|paths|)][2 * k] == Fork(lens, n, ps, Child(ps[k], 0))
      ensures tree[i := Link(|paths|)][2 * k + 1] == Fork(lens, n, ps, Child(ps[k], 1))
    {
      TreeAppend(tree, paths, lens, n, p, k);
    }
  }

  /** A deeper node goes into its parent's slot. */
  lemma AddInner(look: seq<int>, tree: seq<int>, paths: seq<Path>, lens: Lens, n: nat, p: Path)
    requires Decodable(lens) && Built(look, tree, paths, lens, n) && Rooted(paths, lens, n, n + 1)
    requires p !in paths && FAST_BITS < p.depth <= 14 && Below(lens, n, p) && 2 * |paths| + 2 <= |tree|
    requires Parent(p) in paths
    ensures var i := 2 * Index(paths, Parent(p)) + Side(p);
            && i < |tree| && tree[i] == 0
            && Built(look, tree[i := Link(|paths|)], paths + [p], lens, n)
    ensures Rooted(paths + [p], lens, n, n + 1)
  {
    hide Decodable, RevCode, Fork, Slot, Rooted;
    BelowBound(lens, n, p);
    SideChild(p);
    RootedAppend(paths, lens, n, p);
    NoMatch(lens, n, n, p, p.depth);
    EmptyFork(lens, n, paths, p);
    ForkedInner(tree, paths, lens, n, p, 2 * Index(paths, Parent(p)) + Side(p));
    forall r | 0 <= r < FAST_SIZE
      ensures look[r] == Slot(lens, n, paths + [p], r)
    {
      SlotAppend(lens, n, paths, p, r);
    }
  }

  lemma EmptyFork(lens: Lens, n: nat, paths: seq<Path>, p: Path)
    requires n <= |lens| && p !in paths && Match(lens, n, p.depth, p.depth, p.bits) == n
    ensures Fork(lens, n, paths, p) == 0
  {
  }

  lemma IndexUnique(paths: seq<Path>, lens: Lens, n: nat, m: nat, p: Path)
    requires Rooted(paths, lens, n, m)
    ensures forall k :: 0 <= k < |paths| && paths[k] == p ==> k == Index(paths, p)
  {
    hide RevCode;
  }

  /** A path hangs from one slot only. */
  lemma OnlyParent(paths: seq<Path>, lens: Lens, n: nat, p: Path)
    requires Rooted(paths, lens, n, n + 1) && p.depth > FAST_BITS && p.bits < Pow2(p.depth)
    ensures forall k :: 0 <= k < |paths| && Child(paths[k], 0) == p ==> paths[k] == Parent(p) && Side(p) == 0
    ensures forall k :: 0 <= k < |paths| && Child(paths[k], 1) == p ==> paths[k] == Parent(p) && Side(p) == 1
  {
    hide RevCode;
    forall k | 0 <= k < |paths|
      ensures Child(paths[k], 0) == p ==> paths[k] == Parent(p) && Side(p) == 0
      ensures Child(paths[k], 1) == p ==> paths[k] == Parent(p) && Side(p) == 1
    {
      var s: nat :| s < n + 1 && Below(lens, s, paths[k]);
      BelowBound(lens, s, paths[k]);
      ChildSide(paths[k], 0);
      ChildSide(paths[k], 1);
    }
  }

  // ---- Adding a symbol.

  lemma MatchStep(lens: Lens, n: nat, lo: nat, hi: nat, v: nat)
    requires n < |lens|
    ensures var hit := lo <= lens[n] <= hi && RevCode(lens, n) == v % Pow2(lens[n]);
            Match(lens, n + 1, lo, hi, v) == (if hit then n else if Match(lens, n, lo, hi, v) == n then n +
                1 else Match(lens, n, lo, hi, v))
  {
    hide RevCode;
  }

  /** No inner node is where a code ends. */
  lemma NoNode(paths: seq<Path>, lens: Lens, n: nat, m: nat, s: nat, d: nat, v: nat)
    requires Decodable(lens) && Rooted(paths, lens, n, m) && s < |lens| && 0 < lens[s] <= d
    requires RevCode(lens, s) == v % Pow2(lens[s])
    ensures Path(d, v) !in paths
  {
    hide RevCode, Decodable;
    if Path(d, v) in paths {
      var t: nat :| t < m && Below(lens, t, Path(d, v));
      NoneEnds(lens, t, Path(d, v), s);
    }
  }

  lemma RootedNext(paths: seq<Path>, lens: Lens, n: nat)
    requires Rooted(paths, lens, n, n + 1)
    requires lens[n] > FAST_BITS ==> Parent(Path(lens[n], RevCode(lens, n))) in paths
    ensures Rooted(paths, lens, n + 1, n + 1)
  {
    hide RevCode;
  }

  lemma RootedMore(paths: seq<Path>, lens: Lens, n: nat)
    requires Rooted(paths, lens, n, n) && n < |lens|
    ensures Rooted(paths, lens, n, n + 1)
  {
    hide RevCode;
  }

  lemma SlotNext(lens: Lens, n: nat, paths: seq<Path>, r: nat)
    requires n < |lens|
    requires 0 < lens[n] <= FAST_BITS && RevCode(lens, n) == r % Pow2(lens[n]) ==> Match(lens, n, 1, FAST_BITS, r) == n
    ensures Slot(lens, n + 1, paths, r) ==
            if 0 < lens[n] <= FAST_BITS && RevCode(lens, n) == r % Pow2(lens[n]) then lens[n] * 512 +
                n else Slot(lens, n, paths, r)
  {
    hide RevCode;
    MatchStep(lens, n, 1, FAST_BITS, r);
  }

  lemma ForkNext(lens: Lens, n: nat, paths: seq<Path>, p: Path)
    requires n < |lens| && p.depth > 0
    requires lens[n] == p.depth && RevCode(lens, n) == p.bits % Pow2(p.depth) ==> p !in paths
    ensures Fork(lens, n + 1, paths, p) ==
            if lens[n] == p.depth && RevCode(lens, n) == p.bits % Pow2(p.depth) then n else Fork(lens, n, paths, p)
  {
    hide RevCode;
    MatchStep(lens, n, p.depth, p.depth, p.bits);
  }

  /** A symbol without a code changes nothing; a short one leaves the tree alone. */
  lemma ForkedSkip(tree: seq<int>, paths: seq<Path>, lens: Lens, n: nat)
    requires Rooted(paths, lens, n, n + 1) && Forked(tree, paths, lens, n) && lens[n] <= FAST_BITS
    ensures Forked(tree, paths, lens, n + 1)
  {
    hide RevCode, Fork;
    forall k | 0 <= k < |paths|
      ensures tree[2 * k] == Fork(lens, n + 1, paths, Child(paths[k], 0))
      ensures tree[2 * k + 1] == Fork(lens, n + 1, paths, Child(paths[k], 1))
    {
      assert paths[k] in paths;
      ForkNext(lens, n, paths, Child(paths[k], 0));
      ForkNext(lens, n, paths, Child(paths[k], 1));
    }
  }

  lemma FilledSkip(look: seq<int>, paths: seq<Path>, lens: Lens, n: nat)
    requires Filled(look, paths, lens, n) && n < |lens| && (lens[n] == 0 || lens[n] > FAST_BITS)
    ensures Filled(look, paths, lens, n + 1)
  {
    hide RevCode, Slot;
    forall r | 0 <= r < FAST_SIZE
      ensures look[r] == Slot(lens, n + 1, paths, r)
    {
      SlotNext(lens, n, paths, r);
    }
  }

  /** A short symbol fills every slot its code starts. */
  lemma FilledShort(look: seq<int>, look': seq<int>, paths: seq<Path>, lens: Lens, n: nat)
    requires Decodable(lens) && Filled(look, paths, lens, n) && n < |lens| && 0 < lens[n] <= FAST_BITS
    requires |look'| == FAST_SIZE
    requires forall r :: 0 <= r < FAST_SIZE ==>
                           look'[r] == if r % Pow2(lens[n]) == RevCode(lens, n) then lens[n] * 512 + n else look[r]
    ensures Filled(look', paths, lens, n + 1)
  {
    hide RevCode, Slot, Decodable;
    forall r | 0 <= r < FAST_SIZE
      ensures look'[r] == Slot(lens, n + 1, paths, r)
    {
      if RevCode(lens, n) == r % Pow2(lens[n]) {
        var s := Match(lens, n, 1, FAST_BITS, r);
        if s < n {
          OneEnds(lens, s, n, r);
        }
      }
      SlotNext(lens, n, paths, r);
    }
  }

  /** A long symbol fills the slot under its last inner node. */
  lemma ForkedLong(tree: seq<int>, paths: seq<Path>, lens: Lens, n: nat, i: nat)
    requires Decodable(lens) && Rooted(paths, lens, n, n + 1) && Forked(tree, paths, lens, n) && n < |lens| &&
        lens[n] > FAST_BITS
    requires var p := Path(lens[n], RevCode(lens, n));
             Parent(p) in paths && Side(p) < 2 && i == 2 * Index(paths, Parent(p)) + Side(p)
    ensures i < |tree| && Forked(tree[i := n], paths, lens, n + 1)
  {
    hide RevCode, Fork, Decodable, Rooted;
    var p := Path(lens[n], RevCode(lens, n));
    RevBound(lens, n);
    SideChild(p);
    ModSmall(p.bits, p.depth);
    OnlyParent(paths, lens, n, p);
    IndexUnique(paths, lens, n, n + 1, Parent(p));
    NoNode(paths, lens, n, n + 1, n, p.depth, p.bits);
    forall k | 0 <= k < |paths|
      ensures tree[i := n][2 * k] == Fork(lens, n + 1, paths, Child(paths[k], 0))
      ensures tree[i := n][2 * k + 1] == Fork(lens, n + 1, paths, Child(paths[k], 1))
    {
      ChildBound(paths, lens, n, k, 0);
      ChildBound(paths, lens, n, k, 1);
      ForkNext(lens, n, paths, Child(paths[k], 0));
      ForkNext(lens, n, paths, Child(paths[k], 1));
    }
  }

  lemma ChildBound(paths: seq<Path>, lens: Lens, n: nat, k: nat, b: nat)
    requires Rooted(paths, lens, n, n + 1) && k < |paths| && b < 2
    ensures var q := Child(paths[k], b); q.bits % Pow2(q.depth) == q.bits
  {
    hide RevCode, Child, Pow2;
    assert paths[k] in paths;
    var s: nat :| s < n + 1 && Below(lens, s, paths[k]);
    BelowBound(lens, s, paths[k]);
    ChildBits(paths[k], b);
  }

  lemma ChildBits(p: Path, b: nat)
    requires p.bits < Pow2(p.depth) && b < 2
    ensures Child(p, b).bits % Pow2(Child(p, b).depth) == Child(p, b).bits
  {
    ChildSide(p, b);
    ModSmall(Child(p, b).bits, p.depth + 1);
  }

  /** Before any symbol the tables are clear. */
  lemma NothingBuilt(look: seq<int>, tree: seq<int>, lens: Lens)
    requires |look| == FAST_SIZE
    requires forall r :: 0 <= r < FAST_SIZE ==> look[r] == 0
    requires forall i :: 0 <= i < |tree| ==> tree[i] == 0
    ensures Built(look, tree, [], lens, 0) && Rooted([], lens, 0, 0)
  {
  }
}
