/** Building the decoder's lookup and tree from code lengths, and finding the code at the front of the bit buffer. */
module LookupTable {
  import opened Arith
  import opened Canonical
  import opened HuffTable
  import opened PrefixTree
  import opened TreeWalk
  import opened LaxFormat
  import opened TreeSize

  /** A path's slot in the tree is the next bit of the code it starts. */
  lemma NextPath(r: nat, d: nat)
    requires d >= 1
    ensures r / Pow2(d - 1) >= 0 && r / Pow2(d) >= 0 && r / Pow2(d - 1) / 2 == r / Pow2(d)
    ensures var p := Path(d + 1, r % Pow2(d + 1));
            Parent(p) == Path(d, r % Pow2(d)) && Side(p) == r / Pow2(d) % 2
  {
    DivPow2Add(r, d - 1, 1);
    DivNonNeg(r, Pow2(d));
    ModPow2Succ(r, d);
    ModPow2Mod(r, d, d + 1);
    DivModOf(r, Pow2(d));
    DivModUnique(r % Pow2(d + 1), Pow2(d), r / Pow2(d) % 2, r % Pow2(d));
  }

  /** A lookup slot on the way to a long code is clear or refers to a node. */
  lemma RootSlot(look: seq<int>, paths: seq<Path>, lens: Lens, n: nat, r: nat)
    requires Decodable(lens) && Filled(look, paths, lens, n) && n < |lens| && lens[n] > FAST_BITS
    requires r == RevCode(lens, n) % FAST_SIZE
    ensures var p := Path(FAST_BITS, r);
            Below(lens, n, p) && look[r] == if p in paths then Link(Index(paths, p)) else 0
  {
    hide RevCode, Decodable;
    Pow2Table();
    NoMatch(lens, n, n, Path(FAST_BITS, r), 1);
  }

  /** A tree slot on the way to a longer code is clear or refers to a node. */
  lemma InnerSlot(tree: seq<int>, paths: seq<Path>, lens: Lens, n: nat, d: nat, k: nat)
    requires Decodable(lens) && Forked(tree, paths, lens, n) && n < |lens| && FAST_BITS <= d && d + 1 < lens[n]
    requires k < |paths| && paths[k] == Path(d, RevCode(lens, n) % Pow2(d))
    ensures RevCode(lens, n) / Pow2(d) >= 0 && 2 * k + 1 < |tree|
    ensures var p := Path(d + 1, RevCode(lens, n) % Pow2(d + 1));
            && Below(lens, n, p)
            && tree[2 * k + RevCode(lens, n) / Pow2(d) % 2] == if p in paths then Link(Index(paths, p)) else 0
  {
    hide RevCode, Decodable, Forked, Pow2;
    var r := RevCode(lens, n);
    ForkAt(tree, paths, lens, n, d, r, k);
    NoMatch(lens, n, n, Path(d + 1, r % Pow2(d + 1)), d + 1);
  }

  class Lookup {
    const look: array<int>
    const tree: array<int>
    /** The inner nodes in the order they were made; node k owns tree slots 2k and 2k + 1. */
    ghost var paths: seq<Path>
    ghost var lens: Lens

    ghost predicate Shape() {
      look != tree && look.Length == FAST_SIZE && tree.Length >= 10
    }

    /** Finished tables for lens. */
    ghost predicate Ready()
      reads this, look, tree
    {
      Shape() && TreeWalk.Ready(look[..], tree[..], paths, lens)
    }

    lemma ForDecodable()
      requires Ready()
      ensures Decodable(lens) && |lens| <= 512
    {
      hide Decodable, Built, Rooted;
    }

    /** Symbols below n are in place and symbol n is being placed. */
    ghost predicate Placing(n: nat)
      reads this, look, tree
    {
      && Shape() && Decodable(lens) && n < |lens| && 2 * |lens| <= tree.Length
      && Built(look[..], tree[..], paths, lens, n) && Rooted(paths, lens, n, n + 1)
    }

    constructor (symbols: nat)
      requires symbols >= 5
      ensures Shape() && tree.Length == 2 * symbols && fresh(look) && fresh(tree)
    {
      look := new int[FAST_SIZE];
      tree := new int[2 * symbols];
      paths, lens := [], [];
    }

    /** Writes a short symbol to every slot that ends in its code. */
    method PlaceShort(n: nat, size: nat, rev: nat)
      requires Placing(n) && size == lens[n] && 0 < size <= FAST_BITS && rev == RevCode(lens, n)
      modifies look
      ensures Shape() && Built(look[..], tree[..], paths, lens, n + 1)
    {
      hide Decodable, RevCode, Slot, Fork, Rooted;
      ghost var prior := look[..];
      var step := Pow2(size);
      var r, k := rev, size * 512 + n;
      RevBound(lens, n);
      ghost var i := 0;
      while r < FAST_SIZE
        invariant r == rev + i * step
        invariant forall q :: 0 <= q < FAST_SIZE ==> look[q] == if q < r && q % step == rev then k else prior[q]
        decreases FAST_SIZE - r
      {
        DivModUnique(r, step, i, rev);
        NextMultiple(rev, i, step);
        look[r] := k;
        r := r + step;
        i := i + 1;
      }
      FilledShort(prior, look[..], paths, lens, n);
      ForkedSkip(tree[..], paths, lens, n);
    }

    /** The node for the first ten bits of a long code, made if need be. */
    method Root(n: nat, rev: nat, next: int) returns (cur: int, next': int)
      requires Placing(n) && lens[n] > FAST_BITS && rev == RevCode(lens, n) && next == Link(|paths|)
      requires lens[n] <= 15
      modifies this`paths, look
      ensures Placing(n) && next' == Link(|paths|)
      ensures AtNode(paths, FAST_BITS, rev, cur)
    {
      hide Decodable, RevCode, Slot, Fork, Rooted;
      var r := rev % FAST_SIZE;
      Pow2Table();
      RootSlot(look[..], paths, lens, n, r);
      ghost var p := Path(FAST_BITS, r);
      cur, next' := look[r], next;
      if cur == 0 {
        MoreRoom(n, p);
        AddRoot(look[..], tree[..], paths, lens, n, p);
        look[r] := next;
        cur := next;
        next' := next - 2;
        paths := paths + [p];
        assert paths[|paths| - 1] == p;
      }
    }

    /** There is room for one more node. */
    lemma MoreRoom(n: nat, p: Path)
      requires Placing(n) && Below(lens, n, p) && p !in paths && FAST_BITS <= p.depth <= 14
      requires p.depth > FAST_BITS ==> Parent(p) in paths
      ensures 2 * |paths| + 2 <= tree.Length
    {
      hide Decodable, RevCode, Rooted, Built;
      RootedAppend(paths, lens, n, p);
      NodesFit(paths + [p], lens, n, n + 1);
    }

    /** One level down a long code's path, making the node if need be. */
    method Descend(n: nat, bit: nat, cur: int, next: int, ghost d: nat) returns (cur': int, next': int)
      requires Placing(n) && FAST_BITS <= d && d + 1 < lens[n] <= 15 && next == Link(|paths|)
      requires AtNode(paths, d, RevCode(lens, n), cur)
      requires RevCode(lens, n) / Pow2(d) >= 0 && bit == RevCode(lens, n) / Pow2(d) % 2
      modifies this`paths, tree
      ensures Placing(n) && next' == Link(|paths|)
      ensures AtNode(paths, d + 1, RevCode(lens, n), cur')
    {
      hide Decodable, RevCode, Slot, Fork, Forked, Rooted, Filled;
      ghost var rev := RevCode(lens, n);
      ghost var k: nat :| k < |paths| && paths[k] == Path(d, rev % Pow2(d)) && cur == Link(k);
      ghost var p := Path(d + 1, rev % Pow2(d + 1));
      InnerSlot(tree[..], paths, lens, n, d, k);
      NextPath(rev, d);
      IndexUnique(paths, lens, n, n + 1, paths[k]);
      var i := -(cur - bit) - 1;
      cur', next' := tree[i], next;
      if cur' == 0 {
        MoreRoom(n, p);
        AddInner(look[..], tree[..], paths, lens, n, p);
        tree[i] := next;
        cur' := next;
        next' := next - 2;
        paths := paths + [p];
        assert paths[|paths| - 1] == p;
      }
    }

    /** Walks or makes the path of a long code, and stores its symbol at the end. */
    method PlaceLong(n: nat, size: nat, rev: nat, next: int) returns (next': int)
      requires Placing(n) && size == lens[n] && FAST_BITS < size <= 15 && rev == RevCode(lens, n) &&
          next == Link(|paths|)
      modifies this`paths, look, tree
      ensures Shape() && next' == Link(|paths|) && lens == old(lens)
      ensures Built(look[..], tree[..], paths, lens, n + 1) && Rooted(paths, lens, n + 1, n + 1)
    {
      hide Decodable, RevCode, Slot, Fork, Rooted, Filled;
      var cur;
      cur, next' := Root(n, rev, next);
      Pow2Table();
      DivNonNeg(rev, 512);
      var r, j := rev / 512, size;
      while j > FAST_BITS + 1
        invariant FAST_BITS + 1 <= j <= size && Placing(n) && lens == old(lens) && next' == Link(|paths|)
        invariant var d := FAST_BITS + (size - j); rev / Pow2(d - 1) >= 0 && r == rev / Pow2(d - 1)
        invariant AtNode(paths, FAST_BITS + (size - j), rev, cur)
      {
        ghost var d := FAST_BITS + (size - j);
        NextPath(rev, d);
        r := r / 2;
        cur, next' := Descend(n, r % 2, cur, next', d);
        j := j - 1;
      }
      NextPath(rev, size - 1);
      r := r / 2;
      PlaceLeaf(n, r % 2, cur, size);
    }

    /** Stores a long code's symbol under its last inner node. */
    method PlaceLeaf(n: nat, bit: nat, cur: int, ghost size: nat)
      requires Placing(n) && size == lens[n] > FAST_BITS
      requires AtNode(paths, size - 1, RevCode(lens, n), cur)
      requires RevCode(lens, n) / Pow2(size - 1) >= 0 && bit == RevCode(lens, n) / Pow2(size - 1) % 2
      modifies tree
      ensures Shape() && Built(look[..], tree[..], paths, lens, n + 1) && Rooted(paths, lens, n + 1, n + 1)
    {
      hide Decodable, RevCode, Slot, Fork, Rooted, Filled;
      ghost var rev := RevCode(lens, n);
      ghost var k: nat :| k < |paths| && paths[k] == Path(size - 1, rev % Pow2(size - 1)) && cur == Link(k);
      RevBound(lens, n);
      ModSmall(rev, size);
      NextPath(rev, size - 1);
      IndexUnique(paths, lens, n, n + 1, paths[k]);
      assert paths[k] in paths;
      FilledSkip(look[..], paths, lens, n);
      ForkedLong(tree[..], paths, lens, n, 2 * k + bit);
      RootedNext(paths, lens, n);
      tree[-(cur - bit) - 1] := n;
    }

    /** Places one symbol. */
    method Place(n: nat, size: nat, code: nat, next: int) returns (next': int)
      requires Placing(n) && size == lens[n] && size <= 15 && (size > 0 ==> code == Code(lens, n)) &&
          next == Link(|paths|)
      modifies this`paths, look, tree
      ensures Shape() && next' == Link(|paths|) && lens == old(lens)
      ensures Built(look[..], tree[..], paths, lens, n + 1) && Rooted(paths, lens, n + 1, n + 1)
    {
      hide Decodable, Code, Slot, Fork, Rooted, Filled, Forked;
      next' := next;
      if size == 0 {
        FilledSkip(look[..], paths, lens, n);
        ForkedSkip(tree[..], paths, lens, n);
        RootedNext(paths, lens, n);
        return;
      }
      var rev := ReverseBits(code, size);
      if size <= FAST_BITS {
        PlaceShort(n, size, rev);
        RootedNext(paths, lens, n);
      } else {
        next' := PlaceLong(n, size, rev, next);
      }
    }

    method Clear()
      requires Shape()
      modifies look, tree
      ensures forall r :: 0 <= r < look.Length ==> look[r] == 0
      ensures forall i :: 0 <= i < tree.Length ==> tree[i] == 0
    {
      for i := 0 to look.Length
        invariant forall r :: 0 <= r < i ==> look[r] == 0
      {
        look[i] := 0;
      }
      for i := 0 to tree.Length
        invariant forall r :: 0 <= r < look.Length ==> look[r] == 0
        invariant forall r :: 0 <= r < i ==> tree[r] == 0
      {
        tree[i] := 0;
      }
    }

    /** The table build of tinfl_decompress: refuses lengths that do not fill the code space. */
    method Build(sizes: array<nat>, n: nat) returns (ok: bool)
      requires Shape() && n <= sizes.Length && 2 * n <= tree.Length && n <= 512
      requires forall i :: 0 <= i < n ==> sizes[i] <= 15
      modifies this, look, tree
      ensures Shape() && (ok <==> Decodable(sizes[..n]))
      ensures ok ==> Ready() && lens == sizes[..n]
    {
      hide Built, Rooted, Count, Used, Code, RevCode, NextCode;
      Clear();
      lens, paths := sizes[..n], [];
      var num := CountLengths(sizes, n);
      var next, total, used := FirstCodes(num, sizes[..n]);
      ok := total == 65536 || used <= 1;
      if !ok {
        return;
      }
      var link := -1;
      NothingBuilt(look[..], tree[..], lens);
      HandStart(next[..], lens, 15);
      for i: nat := 0 to n
        invariant Shape() && lens == sizes[..n] && link == Link(|paths|)
        invariant Built(look[..], tree[..], paths, lens, i) && Rooted(paths, lens, i, i)
        invariant Handed(next[..], lens, i, 15)
      {
        HandOne(next[..], lens, i, 15);
        RootedMore(paths, lens, i);
        var size := sizes[i];
        var code := 0;
        if size > 0 {
          code := next[size];
          next[size] := next[size] + 1;
        }
        link := Place(i, size, code, link);
      }
    }

    /** The walk that decodes the front of v: the slot it ends in and how many bits it took. */
    method Find(v: nat) returns (temp: int, len: nat)
      requires Ready()
      ensures 0 <= temp && len <= 15 && (temp, len) == Walk(look[..], tree[..], v)
      ensures Agrees(lens, v, temp, len)
    {
      hide Decodable, RevCode, Built, Rooted, Starts;
      LookMeans(look[..], tree[..], paths, lens, v);
      temp := look[v % FAST_SIZE];
      if temp >= 0 {
        len := temp / 512;
      } else {
        ghost var start := temp;
        len := FAST_BITS;
        while temp < 0
          invariant FAST_BITS <= len <= 15
          invariant WalkTree(tree[..], v, start, FAST_BITS) == WalkTree(tree[..], v, temp, len)
          invariant if temp < 0 then AtNode(paths, len, v, temp) else Agrees(lens, v, temp, len)
          decreases if temp < 0 then 16 - len else 0
        {
          StepMeans(look[..], tree[..], paths, lens, len, v, temp);
          temp := tree[-temp - 1 + v / Pow2(len) % 2];
          len := len + 1;
          AgreesStep(lens, v, temp, len);
        }
      }
    }

    /** Whether the numBits bits at hand already decide the code; w is the stream they are the front of. */
    method Enough(v: nat, numBits: nat, ghost w: nat) returns (stop: bool, ghost temp: int, ghost len: nat)
      requires Ready() && v == w % Pow2(numBits)
      ensures stop ==>
          (temp, len) == Walk(look[..], tree[..], v) && 0 < len <= numBits && Agrees(lens, w, temp, len)
      ensures !stop ==> forall s: nat :: Starts(lens, s, w) ==> lens[s] > numBits || numBits >= 15
      ensures !stop ==> numBits >= 15 || Stray(lens, v) == 0 || Stray(lens, v) > numBits
    {
      hide Decodable, RevCode, Built, Rooted, Starts, Reaches;
      LookMeans(look[..], tree[..], paths, lens, v);
      var t := look[v % FAST_SIZE];
      stop, temp, len := false, t, 0;
      if t >= 0 {
        var n: nat := t / 512;
        len := n;
        stop := n != 0 && numBits >= n;
        ShortDecides(lens, v, w, numBits, t);
        if t > 0 {
          ShortNotReached(lens, t % 512, v);
        }
      } else if numBits > FAST_BITS {
        stop, temp, len := EnoughTree(v, numBits, w, t);
      } else {
        NodesNotEnds(look[..], tree[..], paths, lens, v, w, numBits, FAST_BITS, t);
      }
    }

    /** Still at a node after all the bits at hand. */
    lemma NodeStrays(n: nat, v: nat, w: nat, t: int)
      requires Ready() && v == w % Pow2(n) && AtNode(paths, n, w, t) && n > FAST_BITS
      ensures n >= 15 || Stray(lens, v) > n
    {
      hide Decodable, RevCode, Built, Rooted, Reaches;
      if n < 15 {
        NodeReached(paths, lens, n, w, t);
        SameReaches(lens, v, w, n, n);
        ReachesLess(lens, FAST_BITS, n, v);
        StrayPast(lens, v, FAST_BITS + 1, n);
      }
    }

    method EnoughTree(v: nat, numBits: nat, ghost w: nat, start: int)
      returns (stop: bool, ghost temp: int, ghost len: nat)
      requires Ready() && v == w % Pow2(numBits) && numBits > FAST_BITS
      requires start < 0 && AtNode(paths, FAST_BITS, v, start)
      ensures stop ==>
          (temp, len) == WalkTree(tree[..], v, start, FAST_BITS) && 0 < len <= numBits && Agrees(lens, w, temp, len)
      ensures !stop ==> forall s: nat :: Starts(lens, s, w) ==> lens[s] > numBits || numBits >= 15
      ensures !stop ==> numBits >= 15 || Stray(lens, v) > numBits
    {
      hide Decodable, RevCode, Built, Rooted, Starts, Reaches;
      var t, n, more := start, FAST_BITS, true;
      SameFront(v, w, numBits, FAST_BITS);
      while more
        invariant FAST_BITS <= n <= 15 && n <= numBits
        invariant WalkTree(tree[..], v, start, FAST_BITS) == WalkTree(tree[..], v, t, n)
        invariant if t < 0 then AtNode(paths, n, w, t) else Agrees(lens, w, t, n)
        invariant more <==> t < 0 && numBits >= n + 1
        decreases if more then 16 - n else 0
      {
        StepMeans(look[..], tree[..], paths, lens, n, w, t);
        SameFront(v, w, numBits, n);
        SameBit(v, w, numBits, n);
        t := tree[-t - 1 + v / Pow2(n) % 2];
        n := n + 1;
        AgreesStep(lens, w, t, n);
        more := t < 0 && numBits >= n + 1;
      }
      stop, temp, len := t >= 0, t, n;
      if !stop {
        NodesNotEnds(look[..], tree[..], paths, lens, w, w, numBits, numBits, t);
        NodeStrays(numBits, v, w, t);
      }
    }
  }

  lemma SameReaches(lens: Lens, v: nat, w: nat, n: nat, d: nat)
    requires v == w % Pow2(n) && d <= n
    ensures Reaches(lens, d, v) <==> Reaches(lens, d, w)
  {
    hide RevCode;
    SameFront(v, w, n, d);
  }

  /** The first fifteen bits decide how many of them lead nowhere. */
  lemma SameStray(lens: Lens, v: nat, w: nat, n: nat)
    requires v == w % Pow2(n) && n >= 15
    ensures Stray(lens, v) == Stray(lens, w)
  {
    hide Reaches;
    SameReaches(lens, v, w, n, 10);
    SameStrayFrom(lens, v, w, n, 11);
  }

  lemma {:induction false} SameStrayFrom(lens: Lens, v: nat, w: nat, n: nat, d: nat)
    requires v == w % Pow2(n) && n >= 15 >= d
    ensures StrayFrom(lens, v, d) == StrayFrom(lens, w, d)
    decreases 15 - d
  {
    hide Reaches;
    if d < 15 {
      SameReaches(lens, v, w, n, d);
      SameStrayFrom(lens, v, w, n, d + 1);
    }
  }

  lemma SameFront(v: nat, w: nat, n: nat, d: nat)
    requires v == w % Pow2(n) && d <= n
    ensures v % Pow2(d) == w % Pow2(d)
  {
    ModPow2Mod(w, d, n);
  }

  lemma SameBit(v: nat, w: nat, n: nat, d: nat)
    requires v == w % Pow2(n) && d < n
    ensures v / Pow2(d) >= 0 && w / Pow2(d) >= 0
    ensures v / Pow2(d) % 2 == w / Pow2(d) % 2
  {
    SameFront(v, w, n, d);
    SameFront(v, w, n, d + 1);
    ModPow2Succ(v, d);
    ModPow2Succ(w, d);
    var x, y, p := v / Pow2(d) % 2, w / Pow2(d) % 2, Pow2(d);
    assert x * p == y * p;
    DivModUnique(x * p, p, x, 0);
    DivModUnique(y * p, p, y, 0);
  }

  /** A code of at most n bits starts v exactly when it starts w. */
  lemma SameStarts(lens: Lens, s: nat, v: nat, w: nat, n: nat)
    requires v == w % Pow2(n) && s < |lens| && lens[s] <= n
    ensures Starts(lens, s, v) <==> Starts(lens, s, w)
  {
    hide RevCode;
    SameFront(v, w, n, lens[s]);
  }

  lemma ShortDecides(lens: Lens, v: nat, w: nat, n: nat, t: int)
    requires Decodable(lens) && v == w % Pow2(n) && t >= 0
    requires if t > 0 then Starts(lens, t % 512, v) && t / 512 == lens[t % 512] else NoneStarts(lens, v)
    ensures t / 512 != 0 && n >= t / 512 ==> Agrees(lens, w, t, t / 512)
    ensures t / 512 == 0 || n < t / 512 ==> forall s: nat :: Starts(lens, s, w) ==> lens[s] > n
  {
    hide Decodable, RevCode;
    if t / 512 != 0 && n >= t / 512 {
      SameStarts(lens, t % 512, v, w, n);
    } else {
      forall s: nat | Starts(lens, s, w)
        ensures lens[s] > n
      {
        if lens[s] <= n {
          SameStarts(lens, s, v, w, n);
          OneEnds(lens, s, t % 512, v);
        }
      }
    }
  }

  /** While the walk is at a node, no code that w starts with has ended within the bits at hand. */
  lemma NodesNotEnds(look: seq<int>, tree: seq<int>, paths: seq<Path>, lens: Lens, v: nat, w: nat, n: nat, d: nat,
      t: int)
    requires TreeWalk.Ready(look, tree, paths, lens) && v % Pow2(n) == w % Pow2(n) && n <= d && AtNode(paths, d, v, t)
    ensures forall s: nat :: Starts(lens, s, w) ==> lens[s] > n
  {
    hide Decodable, RevCode, Built, Rooted;
    forall s: nat | Starts(lens, s, w)
      ensures lens[s] > n
    {
      if lens[s] <= n {
        ModPow2Mod(v, lens[s], n);
        ModPow2Mod(w, lens[s], n);
        ModPow2Mod(v, lens[s], d);
        NoNode(paths, lens, |lens|, |lens|, s, d, v % Pow2(d));
      }
    }
  }

  /** The tree part of the walk, as a function of the arrays' contents. */
  function WalkTree(tree: seq<int>, v: nat, t: int, d: nat): (int, nat)
    decreases if d < 15 then 15 - d else 0
  {
    if t >= 0 || d >= 15 then (t, d)
    else
      DivNonNeg(v, Pow2(d));
      var i := -t - 1 + v / Pow2(d) % 2;
      if i < |tree| then WalkTree(tree, v, tree[i], d + 1) else (t, d)
  }

  function Walk(look: seq<int>, tree: seq<int>, v: nat): (int, nat)
    requires |look| == FAST_SIZE
  {
    var t := look[v % FAST_SIZE];
    if t >= 0 then (t, t / 512) else WalkTree(tree, v, t, FAST_BITS)
  }

  /** The slot and length found are those of the code that v starts with, or an empty slot when there is none. */
  ghost predicate Agrees(lens: Lens, v: nat, temp: int, len: nat) {
    || (temp >= 0 && Starts(lens, temp % 512, v) && len == lens[temp % 512])
    || (temp == 0 && NoneStarts(lens, v) && len == Stray(lens, v))
  }

  lemma AgreesStep(lens: Lens, v: nat, u: int, len: nat)
    requires |lens| <= 512
    ensures u >= 0 && ((Starts(lens, u, v) && lens[u] == len) ||
                       (u == 0 && NoneStarts(lens, v) && Stray(lens, v) == len)) ==>
        Agrees(lens, v, u, len)
  {
    hide RevCode;
  }

  /** Symbols with lengths from 1 to d. */
  function UpTo(lens: Lens, d: nat): nat {
    if lens == [] then 0 else UpTo(lens[..|lens| - 1], d) + (if 0 < lens[|lens| - 1] <= d then 1 else 0)
  }

  lemma {:induction false} UpToStep(lens: Lens, d: nat)
    ensures UpTo(lens, d + 1) == UpTo(lens, d) + Count(lens, d + 1)
  {
    if lens != [] {
      UpToStep(lens[..|lens| - 1], d);
    }
  }

  lemma {:induction false} UpToEnds(lens: Lens)
    ensures UpTo(lens, 0) == 0
    ensures (forall i :: 0 <= i < |lens| ==> lens[i] <= 15) ==> UpTo(lens, 15) == Used(lens)
  {
    if lens != [] {
      UpToEnds(lens[..|lens| - 1]);
    }
  }

  method CountLengths(sizes: array<nat>, n: nat) returns (num: array<nat>)
    requires n <= sizes.Length && forall i :: 0 <= i < n ==> sizes[i] <= 15
    ensures fresh(num) && num.Length == 16
    ensures forall l :: 0 <= l <= 15 ==> num[l] == Count(sizes[..n], l)
  {
    num := new nat[16](_ => 0);
    for i := 0 to n
      invariant forall l :: 0 <= l <= 15 ==> num[l] == Count(sizes[..i], l)
    {
      assert sizes[..i + 1][..i] == sizes[..i];
      num[sizes[i]] := num[sizes[i]] + 1;
    }
  }

  /** The first code of each length, the size of the code space taken, and how many symbols take it. */
  method FirstCodes(num: array<nat>, ghost lens: Lens) returns (next: array<nat>, total: nat, used: nat)
    requires num.Length == 16 && forall l :: 0 <= l <= 15 ==> num[l] == Count(lens, l)
    requires forall i :: 0 <= i < |lens| ==> lens[i] <= 15
    ensures fresh(next) && next.Length == 17 && total == NextCode(lens, 16) && used == Used(lens)
    ensures forall l :: 1 <= l <= 15 ==> next[l] == NextCode(lens, l)
  {
    hide Count, Used;
    next := new nat[17](_ => 0);
    used, total := 0, 0;
    UpToEnds(lens);
    for i: nat := 1 to 16
      invariant forall l :: 1 <= l <= i ==> next[l] == NextCode(lens, l)
      invariant total == NextCode(lens, i) && used == UpTo(lens, i - 1)
    {
      UpToStep(lens, i - 1);
      used := used + num[i];
      total := (total + num[i]) * 2;
      next[i + 1] := total;
    }
  }

  lemma NextMultiple(rev: nat, i: nat, step: nat)
    requires rev < step
    ensures rev + i * step + step == rev + (i + 1) * step
    ensures forall q :: rev + i * step < q < rev + (i + 1) * step ==> q % step != rev
  {
    forall q | rev + i * step < q < rev + (i + 1) * step
      ensures q % step != rev
    {
      DivModOf(q, step);
      if q % step == rev {
        MulGe(i, step);
        var j := q / step;
        assert q == j * step + rev;
        if j <= i { MulMono(j, i, step); } else { MulMono(i + 1, j, step); }
        assert false;
      }
    }
  }
}
