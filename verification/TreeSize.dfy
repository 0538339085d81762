/** The decoder's tree never has more nodes than the code has symbols, so its array is large enough. */
module TreeSize {
  import opened Arith
  import opened Bits
  import opened Canonical
  import opened PrefixTree

  /** Distinct numbers below b are at most b. */
  lemma {:induction false} Pigeonhole(ids: seq<int>, b: nat)
    requires forall i :: 0 <= i < |ids| ==> 0 <= ids[i] < b
    requires forall i, j :: 0 <= i < j < |ids| ==> ids[i] != ids[j]
    ensures |ids| <= b
    decreases b
  {
    if ids == [] {
      return;
    }
    assert 0 <= ids[0] < b;
    if b - 1 in ids {
      var i :| 0 <= i < |ids| && ids[i] == b - 1;
      Pigeonhole(ids[..i] + ids[i + 1..], b - 1);
    } else {
      Pigeonhole(ids, b - 1);
    }
  }

  /** The first number at level d that is not a code of length d or starts with a shorter one: inner nodes begin
      here. */
  function Inner(lens: Lens, d: nat): nat {
    NextCode(lens, d) + Count(lens, d)
  }

  /** How many inner nodes a full code has at the levels from 10 up to, not including, d. */
  function Offset(lens: Lens, d: nat): int
    decreases d, lens
  {
    if d <= FAST_BITS then 0 else Offset(lens, d - 1) + Pow2(d - 1) - Inner(lens, d - 1)
  }

  /** Symbols longer than 10 bits and at most d. */
  function Long(lens: Lens, d: nat): (k: nat)
    ensures k <= |lens|
  {
    if lens == [] then 0 else Long(lens[..|lens| - 1], d) + (if FAST_BITS < lens[|lens| - 1] <= d then 1 else 0)
  }

  lemma {:induction false} LongStep(lens: Lens, d: nat)
    requires d >= FAST_BITS
    ensures Long(lens, d + 1) == Long(lens, d) + Count(lens, d + 1)
  {
    if lens != [] {
      LongStep(lens[..|lens| - 1], d);
    }
  }

  lemma {:induction false} LongNone(lens: Lens)
    ensures Long(lens, FAST_BITS) == 0
  {
    if lens != [] {
      LongNone(lens[..|lens| - 1]);
    }
  }

  /** Each level doubles what the one above leaves, less the symbols it places. */
  lemma {:induction false} OffsetSum(lens: Lens, d: nat)
    requires d >= FAST_BITS
    ensures Offset(lens, d) == Pow2(d) - Inner(lens, d) - (Pow2(FAST_BITS) - Inner(lens, FAST_BITS)) + Long(lens, d)
    decreases d
  {
    hide Count;
    if d == FAST_BITS {
      LongNone(lens);
    } else {
      OffsetSum(lens, d - 1);
      LongStep(lens, d - 1);
    }
  }

  lemma {:induction false} OffsetGrows(lens: Lens, d: nat, e: nat)
    requires NextCode(lens, 16) == 65536 && FAST_BITS <= d <= e <= 15
    ensures Offset(lens, d) <= Offset(lens, e)
    decreases e
  {
    if d < e {
      OffsetGrows(lens, d, e - 1);
      Pow2Table();
      LevelBound(lens, e - 1, 16);
    }
  }

  lemma OffsetBound(lens: Lens)
    requires NextCode(lens, 16) == 65536
    ensures Offset(lens, 15) <= |lens|
  {
    hide Count;
    Pow2Table();
    OffsetSum(lens, 15);
    LevelBound(lens, FAST_BITS, 16);
    assert NextCode(lens, 16) == 2 * Inner(lens, 15);
  }

  /** The number of a path within its level. */
  ghost function Rank(lens: Lens, p: Path, s: nat): int
    requires Below(lens, s, p)
  {
    Code(lens, s) / Pow2(lens[s] - p.depth)
  }

  lemma RankBounds(lens: Lens, p: Path, s: nat)
    requires Decodable(lens) && NextCode(lens, 16) == 65536 && Below(lens, s, p) && p.depth >= 1
    ensures Inner(lens, p.depth) <= Rank(lens, p, s) < Pow2(p.depth) && p.bits == Reverse(Rank(lens, p, s), p.depth)
  {
    hide Count, Reverse, NextCode, Decodable, Pow2, Code;
    var d, m := p.depth, lens[s];
    assert RevCode(lens, s) == Reverse(Code(lens, s), m);
    CodeBound(lens, s);
    CodeFollows(lens, s);
    NextCodeGrows(lens, d, m);
    Pow2Add(d, m - d);
    RankArith(Code(lens, s), Inner(lens, d), Pow2(d), Pow2(m - d), NextCode(lens, m));
    ReverseLow(Code(lens, s), m, d);
  }

  lemma CodeFollows(lens: Lens, s: nat)
    requires s < |lens|
    ensures NextCode(lens, lens[s]) <= Code(lens, s)
  {
  }

  lemma AboveMultiple(c: nat, x: nat, b: nat)
    requires x * b <= c && b > 0
    ensures x <= c / b
  {
    DivLower(c, x, b);
  }

  lemma RankArith(c: nat, x: nat, a: nat, b: nat, next: nat)
    requires x * b <= next <= c < a * b && b > 0
    ensures x <= c / b < a
  {
    AboveMultiple(c, x, b);
    DivLt(c, a, b);
  }

  /** A number for every path, distinct for distinct paths. */
  ghost function Id(lens: Lens, p: Path): int {
    if s: nat :| Below(lens, s, p) then Offset(lens, p.depth) + Rank(lens, p, s) - Inner(lens, p.depth) else 0
  }

  lemma IdBounds(lens: Lens, p: Path, t: nat)
    requires Decodable(lens) && NextCode(lens, 16) == 65536 && Below(lens, t, p) && FAST_BITS <= p.depth <= 14
    ensures Offset(lens, p.depth) <= Id(lens, p) < Offset(lens, p.depth + 1)
    ensures Id(lens, p) <= Offset(lens, 15) - 1 && Id(lens, p) >= 0
    ensures p.bits == Reverse(Id(lens, p) - Offset(lens, p.depth) + Inner(lens, p.depth), p.depth)
  {
    hide Decodable, Inner, Reverse, Rank, Below;
    var s: nat :| Below(lens, s, p) && Id(lens, p) == Offset(lens, p.depth) + Rank(lens, p, s) - Inner(lens, p.depth);
    RankBounds(lens, p, s);
    OffsetGrows(lens, p.depth + 1, 15);
    OffsetGrows(lens, FAST_BITS, p.depth);
  }

  lemma IdsDiffer(lens: Lens, p: Path, q: Path, s: nat, t: nat)
    requires Decodable(lens) && NextCode(lens, 16) == 65536 && p != q
    requires Below(lens, s, p) && FAST_BITS <= p.depth <= 14 && Below(lens, t, q) && FAST_BITS <= q.depth <= 14
    ensures Id(lens, p) != Id(lens, q)
  {
    hide Decodable, Inner, Reverse, Rank, Below, Offset, Id;
    IdBounds(lens, p, s);
    IdBounds(lens, q, t);
    if p.depth < q.depth {
      OffsetGrows(lens, p.depth + 1, q.depth);
    } else if q.depth < p.depth {
      OffsetGrows(lens, q.depth + 1, p.depth);
    }
  }

  /** Inner nodes number at most as many as symbols, or the five levels of a lone long code. */
  lemma NodesFit(paths: seq<Path>, lens: Lens, n: nat, m: nat)
    requires Decodable(lens) && Rooted(paths, lens, n, m)
    ensures |paths| <= Max(|lens|, 5)
  {
    hide Decodable, RevCode, Offset, Id, NextCode, Used, Inner;
    if NextCode(lens, 16) == 65536 {
      var ids := seq(|paths|, i requires 0 <= i < |paths| => Id(lens, paths[i]));
      forall i | 0 <= i < |paths|
        ensures 0 <= ids[i] < Offset(lens, 15)
      {
        assert paths[i] in paths;
        var s: nat :| s < m && Below(lens, s, paths[i]);
        IdBounds(lens, paths[i], s);
      }
      forall i, j | 0 <= i < j < |paths|
        ensures ids[i] != ids[j]
      {
        assert paths[i] in paths && paths[j] in paths;
        var s: nat :| s < m && Below(lens, s, paths[i]);
        var t: nat :| t < m && Below(lens, t, paths[j]);
        IdsDiffer(lens, paths[i], paths[j], s, t);
      }
      OffsetBound(lens);
      Pigeonhole(ids, |lens|);
    } else {
      FewNodes(paths, lens, n, m);
    }
  }

  lemma OnePath(lens: Lens, p: Path, q: Path, s: nat, t: nat)
    requires Decodable(lens) && NextCode(lens, 16) != 65536 && Below(lens, s, p) && Below(lens, t, q) &&
        p.depth == q.depth
    ensures p == q
  {
    hide RevCode;
    if s < t { UsedTwo(lens, s, t); } else if t < s { UsedTwo(lens, t, s); }
  }

  lemma FewNodes(paths: seq<Path>, lens: Lens, n: nat, m: nat)
    requires Decodable(lens) && NextCode(lens, 16) != 65536 && Rooted(paths, lens, n, m)
    ensures |paths| <= 5
  {
    hide RevCode, Used, NextCode, Below, Decodable;
    var ids := seq(|paths|, i requires 0 <= i < |paths| => paths[i].depth - FAST_BITS);
    forall i | 0 <= i < |paths|
      ensures 0 <= ids[i] < 5
    {
      assert paths[i] in paths;
    }
    forall i, j | 0 <= i < j < |paths|
      ensures ids[i] != ids[j]
    {
      assert paths[i] in paths && paths[j] in paths;
      var s: nat :| s < m && Below(lens, s, paths[i]);
      var t: nat :| t < m && Below(lens, t, paths[j]);
      if paths[i].depth == paths[j].depth { OnePath(lens, paths[i], paths[j], s, t); }
    }
    Pigeonhole(ids, 5);
  }
}
