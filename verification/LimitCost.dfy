/** What holding code lengths to 15 bits costs: at most one more bit for every symbol counted. */
module LimitCost {
  import opened Arith
  import opened CodeCost
  import opened HuffmanTree
  import opened MinRedundancy
  import opened LengthLimit

  /** The lengths up to k that a histogram stands for, longest first. */
  function Spread(num: seq<nat>, k: nat): seq<nat>
    requires k < |num|
  {
    if k == 0 then [] else Rep(k, num[k]) + Spread(num, k - 1)
  }

  lemma {:induction false} SpreadSize(num: seq<nat>, k: nat)
    requires k < |num|
    ensures |Spread(num, k)| == Total(num, k) && forall i :: 0 <= i < |Spread(num, k)| ==> 1 <= Spread(num, k)[i] <= k
  {
    if k > 0 {
      SpreadSize(num, k - 1);
    }
  }

  lemma {:induction false} SpreadKraft(num: seq<nat>, m: nat, k: nat)
    requires k < |num| && k <= m
    ensures Kraft(Spread(num, k), m) == Weight(num, m, k)
    decreases k
  {
    hide Pow2, Kraft;
    if k == 0 {
      KraftNone(m);
    } else {
      SpreadKraft(num, m, k - 1);
      KraftRep(k, num[k], m);
      KraftConcat(Rep(k, num[k]), Spread(num, k - 1), m);
    }
  }

  lemma {:induction false} SpreadSame(num: seq<nat>, num': seq<nat>, k: nat)
    requires k < |num| && k < |num'| && forall l :: 1 <= l <= k ==> num[l] == num'[l]
    ensures Spread(num, k) == Spread(num', k)
  {
    if k > 0 {
      SpreadSame(num, num', k - 1);
    }
  }

  /** The shorter lengths come last. */
  lemma {:induction false} SpreadTail(num: seq<nat>, k: nat, l: nat) returns (front: seq<nat>)
    requires l <= k < |num|
    ensures Spread(num, k) == front + Spread(num, l) && |front| == Total(num, k) - Total(num, l)
    ensures forall i :: 0 <= i < |front| ==> l < front[i] <= k
    decreases k
  {
    if k == l {
      front := [];
    } else {
      var f := SpreadTail(num, k - 1, l);
      front := Rep(k, num[k]) + f;
      assert Rep(k, num[k]) + (f + Spread(num, l)) == front + Spread(num, l);
    }
  }

  /** Counting one more length, no longer than any before. */
  lemma {:induction false} SpreadAppend(num: seq<nat>, x: nat, k: nat)
    requires 1 <= x <= k < |num| && forall l :: 1 <= l < x ==> num[l] == 0
    ensures Spread(num[x := num[x] + 1], k) == Spread(num, k) + [x]
    decreases k
  {
    var num' := num[x := num[x] + 1];
    if k > x {
      SpreadAppend(num, x, k - 1);
      assert Rep(k, num[k]) + (Spread(num, k - 1) + [x]) == Rep(k, num[k]) + Spread(num, k - 1) + [x];
    } else {
      SpreadNone(num, x - 1);
      SpreadNone(num', x - 1);
      assert Rep(x, num[x] + 1) == Rep(x, num[x]) + [x];
    }
  }

  lemma {:induction false} SpreadNone(num: seq<nat>, k: nat)
    requires k < |num| && forall l :: 1 <= l <= k ==> num[l] == 0
    ensures Spread(num, k) == []
  {
    if k > 0 {
      SpreadNone(num, k - 1);
    }
  }

  lemma {:induction false} CostMono(w: seq<nat>, a: seq<nat>, b: seq<nat>)
    requires |w| == |a| == |b| && forall i :: 0 <= i < |w| ==> a[i] <= b[i]
    ensures Cost(w, a) <= Cost(w, b)
  {
    if w != [] {
      CostMono(w[1..], a[1..], b[1..]);
      MulMono(a[0], b[0], w[0]);
    }
  }

  /** Collapsing shortens the long codes and leaves the others. */
  lemma CollapsedSpread(num: seq<nat>, max: nat)
    requires 1 <= max < 33 == |num| && Total(num, max) <= Total(num, 32)
    ensures var a, b := Spread(num, 32), Spread(Collapsed(num, max), max);
            |a| == |b| && forall i :: 0 <= i < |a| ==> b[i] == Min(a[i], max)
  {
    hide Spread, Total;
    var high := SpreadTail(num, 32, max);
    SpreadMore(num, max, |high|);
    SpreadSize(num, max);
  }

  lemma SpreadMore(num: seq<nat>, k: nat, e: nat)
    requires 1 <= k < |num|
    ensures Spread(num[k := num[k] + e], k) == Rep(k, e) + Spread(num, k)
  {
    var c := num[k := num[k] + e];
    SpreadSame(num, c, k - 1);
    assert Rep(k, c[k]) == Rep(k, e) + Rep(k, num[k]);
    assert Rep(k, e) + Rep(k, num[k]) + Spread(num, k - 1) == Rep(k, e) + (Rep(k, num[k]) + Spread(num, k - 1));
  }

  /** What is kept at the boundary and below it are the last lengths before and after the repair. */
  lemma KeptTail(start: seq<nat>, num: seq<nat>, low: nat, n: nat, max: nat, total: int)
    returns (x: seq<nat>, y: seq<nat>)
    requires Moved(start, num, low, n, max, total)
    ensures Spread(start, max) == x + Spread(num, low) && Spread(num, max) == y + Spread(num, low)
  {
    hide Spare;
    y := SpreadTail(num, max, low);
    var f := SpreadTail(start, max, low);
    SpreadSame(start, num, low - 1);
    x := f + Rep(low, start[low] - num[low]);
    assert Rep(low, start[low]) == Rep(low, start[low] - num[low]) + Rep(low, num[low]);
    assert Spread(start, low) == Rep(low, start[low] - num[low]) + Spread(num, low);
  }

  /** A code of length d below 15 leaves 540 times as much unused, up to its weight's share of the total, as it can
      grow. */
  lemma GrowthRatio(d: nat)
    requires 1 <= d <= 15
    ensures 540 * (15 - d) <= (Pow2(15 - d) - 1) * RootWeight(d - 1, 1, 1)
  {
    Pow2Table();
    Fibonacci();
  }

  lemma Fibonacci()
    ensures RootWeight(0, 1, 1) == 1 && RootWeight(1, 1, 1) == 2 && RootWeight(2, 1, 1) == 3 && RootWeight(3, 1, 1) == 5
    ensures RootWeight(4, 1, 1) == 8 && RootWeight(5, 1, 1) == 13 && RootWeight(6, 1, 1) == 21 &&
        RootWeight(7, 1, 1) == 34
    ensures RootWeight(8, 1, 1) == 55 && RootWeight(9, 1, 1) == 89 && RootWeight(10, 1, 1) == 144 &&
        RootWeight(11, 1, 1) == 233
    ensures RootWeight(12, 1, 1) == 377 && RootWeight(13, 1, 1) == 610 && RootWeight(14, 1, 1) == 987
  {
    hide RootWeight;
    FibonacciStart(1, 1);
    FibonacciStep(0, 1, 1);
    FibonacciStep(1, 1, 1);
    FibonacciStep(2, 1, 1);
    FibonacciStep(3, 1, 1);
    FibonacciStep(4, 1, 1);
    FibonacciStep(5, 1, 1);
    FibonacciStep(6, 1, 1);
    FibonacciStep(7, 1, 1);
    FibonacciStep(8, 1, 1);
    FibonacciStep(9, 1, 1);
    FibonacciStep(10, 1, 1);
    FibonacciStep(11, 1, 1);
    FibonacciStep(12, 1, 1);
  }

  lemma FibonacciStart(x: nat, y: nat)
    ensures RootWeight(0, x, y) == x && RootWeight(1, x, y) == x + y
  {
  }

  lemma {:induction false} FibonacciStep(d: nat, x: nat, y: nat)
    ensures RootWeight(d + 2, x, y) == RootWeight(d + 1, x, y) + RootWeight(d, x, y)
    decreases d
  {
    assert RootWeight(d + 2, x, y) == RootWeight(d + 1, x + y, x);
    assert RootWeight(d + 1, x, y) == RootWeight(d, x + y, x);
    if d > 0 {
      FibonacciStep(d - 1, x + y, x);
    } else {
      FibonacciStart(x + y, x);
    }
  }

  /** The weights times what their codes can grow, against the space those codes leave. */
  lemma {:induction false} GrowthBound(w: seq<nat>, x: seq<nat>, total: nat)
    requires |w| == |x| && forall i :: 0 <= i < |x| ==> 1 <= x[i] <= 15 && Light(w[i], x[i], total)
    ensures 540 * (15 * Sum(w) - Cost(w, x)) <= total * (Kraft(x, 15) - |x|)
  {
    if w != [] {
      GrowthBound(w[1..], x[1..], total);
      GrowthStep(w[0], x[0], total, Pow2(15 - x[0]), 15 * Sum(w[1..]) - Cost(w[1..], x[1..]),
          Kraft(x[1..], 15) - |x[1..]|);
    }
  }

  /** A code of length d that can grow belongs to a symbol of weight w, light enough. */
  predicate Light(w: nat, d: nat, total: nat) {
    d <= 15 && 540 * w * (15 - d) <= total * (Pow2(15 - d) - 1)
  }

  lemma GrowthStep(w: nat, d: nat, total: nat, p: nat, e: int, k: int)
    requires d <= 15 && 540 * w * (15 - d) <= total * (p - 1) && 540 * e <= total * k
    ensures 540 * (e + 15 * w - w * d) <= total * (k + p - 1)
  {
    assert total * (k + p - 1) == total * k + total * (p - 1);
    assert 540 * w * (15 - d) == 540 * (15 * w - w * d);
  }

  lemma LightEnough(w: nat, d: nat, total: nat)
    requires 1 <= d <= 15 && (d < 15 ==> RootWeight(d - 1, 1, 1) * w <= total)
    ensures Light(w, d, total)
  {
    if d < 15 {
      GrowthRatio(d);
      LightArith(w, 15 - d, total, Pow2(15 - d) - 1, RootWeight(d - 1, 1, 1));
    } else {
      assert Pow2(0) == 1;
    }
  }

  lemma LightArith(w: nat, g: nat, total: nat, p: nat, f: nat)
    requires 540 * g <= p * f && f * w <= total
    ensures 540 * w * g <= total * p
  {
    MulMono(540 * g, p * f, w);
    MulMono(f * w, total, p);
    assert p * f * w == f * w * p && 540 * g * w == 540 * w * g;
  }

  /** No length above 15, but 540 units of space: growing to 15 costs no more than the total. */
  lemma GrowthCost(w: seq<nat>, x: seq<nat>, y: seq<nat>, total: nat)
    requires |w| == |x| == |y| && (forall i :: 0 <= i < |x| ==> 1 <= x[i] <= 15 && Light(w[i], x[i], total))
    requires (forall i :: 0 <= i < |y| ==> y[i] <= 15) && Kraft(x, 15) - |x| <= 540
    ensures Cost(w, y) <= Cost(w, x) + total
  {
    GrowthBound(w, x, total);
    CostMono(w, y, Rep(15, |w|));
    CostConst(w, Rep(15, |w|), 15);
    MulMono(Kraft(x, 15) - |x|, 540, total);
    assert (Kraft(x, 15) - |x|) * total == total * (Kraft(x, 15) - |x|);
  }

  /** The space left by the codes that the repair may have touched. */
  lemma TouchedSpace(start: seq<nat>, num: seq<nat>, low: nat, n: nat, x: seq<nat>)
    requires Moved(start, num, low, n, 15, 32768) && n <= 286 && |num| == 33
    requires Weight(start, 15, 15) < 32768 + n && Total(start, 15) == n && Spread(start, 15) == x + Spread(num, low)
    ensures Kraft(x, 15) - |x| <= 540
  {
    hide Kraft, Spread, Total, Weight, Pow2;
    SpreadSize(start, 15);
    SpreadSize(num, low);
    SpreadKraft(start, 15, 15);
    SpreadKraft(num, 15, low);
    KraftConcat(x, Spread(num, low), 15);
    SmallPow(15 - low);
  }

  lemma SmallPow(e: nat)
    requires e < 15 && Pow2(e) <= 286
    ensures Pow2(e) <= 256
  {
    Pow2Table();
  }

  /** Collapsed lengths cost no more, and their codes below 15 are still those of light symbols. */
  lemma CollapsedCost(w: seq<nat>, lens: seq<nat>, num: seq<nat>)
    requires |num| == 33 && Total(num, 15) <= Total(num, 32) && Minimal(w, lens) && lens == Spread(num, 32)
    ensures var x := Spread(Collapsed(num, 15), 15);
            && |x| == |w| && Cost(w, x) <= Cost(w, lens)
            && forall i :: 0 <= i < |x| ==> 1 <= x[i] <= 15 && Light(w[i], x[i], Sum(w))
  {
    hide Spread, Total, Cost, Sum, KraftFits, RootWeight, Light;
    CollapsedSpread(num, 15);
    SpreadSize(num, 32);
    var x := Spread(Collapsed(num, 15), 15);
    CostMono(w, x, lens);
    forall i | 0 <= i < |x|
      ensures 1 <= x[i] <= 15 && Light(w[i], x[i], Sum(w))
    {
      LightEnough(w[i], x[i], Sum(w));
    }
  }

  /** The repair after that costs no more than the total. */
  lemma RepairCost(w: seq<nat>, c: seq<nat>, num: seq<nat>, low: nat, n: nat)
    requires n == |w| <= 286 && |num| == 33 && Moved(c, num, low, n, 15, 32768)
    requires Weight(c, 15, 15) < 32768 + n && Total(c, 15) == n && Total(num, 15) == n && |Spread(c, 15)| == n
    requires forall i :: 0 <= i < n ==> 1 <= Spread(c, 15)[i] <= 15 && Light(w[i], Spread(c, 15)[i], Sum(w))
    ensures |Spread(num, 15)| == n && Cost(w, Spread(num, 15)) <= Cost(w, Spread(c, 15)) + Sum(w)
  {
    hide Spread, Total, Weight, Cost, Sum, Kraft, Light, Moved;
    MovedShape(c, num, low, n);
    var a, b := KeptTail(c, num, low, n, 15, 32768);
    TouchedSpace(c, num, low, n, a);
    SpreadSize(num, 15);
    var v, t := w[..|a|], w[|a|..];
    assert w == v + t;
    assert forall i :: 0 <= i < |a| ==> a[i] == Spread(c, 15)[i];
    assert forall i :: 0 <= i < |b| ==> b[i] == Spread(num, 15)[i];
    GrowthCost(v, a, b, Sum(w));
    CostConcat(v, t, a, Spread(num, low));
    CostConcat(v, t, b, Spread(num, low));
  }

  lemma MovedShape(c: seq<nat>, num: seq<nat>, low: nat, n: nat)
    requires Moved(c, num, low, n, 15, 32768)
    ensures |c| == |num| && 1 <= low <= 15
  {
  }

  /** Limiting the cheapest lengths to 15 costs at most one more bit a symbol. */
  lemma LimitedCost(w: seq<nat>, lens: seq<nat>, num0: seq<nat>, num: seq<nat>, n: nat)
    requires 1 < n == |w| <= 286 && |num0| == |num| == 33 && Minimal(w, lens) && lens == Spread(num0, 32)
    requires Repaired(num0, num, n, 15) && Total(num, 15) == n
    ensures |Spread(num, 15)| == n && Cost(w, Spread(num, 15)) <= Cost(w, lens) + Sum(w)
  {
    hide Spread, Total, Weight, Pow2, Cost, Sum, Light, Moved, Minimal;
    Pow2Table();
    CollapsedCost(w, lens, num0);
    var low :| Moved(Collapsed(num0, 15), num, low, n, 15, Pow2(15));
    RepairCost(w, Collapsed(num0, 15), num, low, n);
  }
}
