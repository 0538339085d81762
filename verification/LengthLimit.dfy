/** The Kraft-repairing length limiter (tdefl_huffman_enforce_max_code_size). */
module LengthLimit {
  import opened Arith

  /** How many codes have lengths 1..k. */
  function Total(num: seq<nat>, k: nat): nat
    requires k < |num|
  {
    if k == 0 then 0 else Total(num, k - 1) + num[k]
  }

  /** The Kraft sum of lengths 1..k, scaled by 2^m. */
  function Weight(num: seq<nat>, m: nat, k: nat): nat
    requires k < |num| && k <= m
  {
    if k == 0 then 0 else Weight(num, m, k - 1) + num[k] * Pow2(m - k)
  }

  lemma {:induction false} TotalUpdate(num: seq<nat>, k: nat, j: nat, delta: int)
    requires k < |num| && 1 <= j < |num| && num[j] + delta >= 0
    ensures Total(num[j := num[j] + delta], k) == Total(num, k) + (if j <= k then delta else 0)
    decreases k
  {
    if k > 0 {
      TotalUpdate(num, k - 1, j, delta);
    }
  }

  lemma {:induction false} WeightUpdate(num: seq<nat>, m: nat, k: nat, j: nat, delta: int)
    requires k < |num| && k <= m && 1 <= j < |num| && j <= m && num[j] + delta >= 0
    ensures Weight(num[j := num[j] + delta], m, k) == Weight(num, m, k) + (if j <= k then delta * Pow2(m - j) else 0)
    decreases k
  {
    if k > 0 {
      WeightUpdate(num, m, k - 1, j, delta);
      if j == k {
        var p := Pow2(m - j);
        assert (num[j] + delta) * p == num[j] * p + delta * p;
      }
    }
  }

  /** Adding levels to the scale. */
  lemma {:induction false} WeightScale(num: seq<nat>, m: nat, e: nat, k: nat)
    requires k < |num| && k <= m
    ensures Weight(num, m + e, k) == Weight(num, m, k) * Pow2(e)
    decreases k
  {
    if k > 0 {
      WeightScale(num, m, e, k - 1);
      Pow2Add(m - k, e);
      ScaleStep(Weight(num, m, k - 1), num[k], Pow2(m - k), Pow2(e));
    }
  }

  lemma ScaleStep(w: nat, x: nat, y: nat, z: nat)
    ensures w * z + x * (y * z) == (w + x * y) * z
  {
    assert x * (y * z) == x * y * z;
    assert w * z + x * y * z == (w + x * y) * z;
  }

  /** Codes longer than max weigh something, but at most half of what they would at length max. */
  lemma {:induction false} TailWeight(num: seq<nat>, m: nat, max: nat, k: nat)
    requires max <= k < |num| && k <= m
    ensures Total(num, k) >= Total(num, max)
    ensures Weight(num, m, k) <= Weight(num, m, max) + (Total(num, k) - Total(num, max)) * Pow2(m - max)
    ensures Weight(num, m, k) >= Weight(num, m, max) + (Total(num, k) - Total(num, max))
    decreases k
  {
    if k > max {
      TailWeight(num, m, max, k - 1);
      Pow2Mono(m - k, m - max);
      var t, p := Total(num, k - 1) - Total(num, max), Pow2(m - max);
      assert (t + num[k]) * p == t * p + num[k] * p;
      MulMono(Pow2(m - k), p, num[k]);
      MulMono(1, Pow2(m - k), num[k]);
      assert num[k] * Pow2(m - k) == Pow2(m - k) * num[k];
    }
  }

  /** The limiter's loop state: all codes inside max, and more of them at max than the space is overdrawn. */
  ghost predicate Overdrawn(num: seq<nat>, n: nat, max: nat, total: nat) {
    && 1 <= max < |num| && Total(num, max) == n && Weight(num, max, max) == total
    && Pow2(max) <= total
    && (total > Pow2(max) ==> num[max] > total - Pow2(max))
  }

  /** A legal length histogram: n codes that fill the space exactly. */
  ghost predicate Full(num: seq<nat>, n: nat, max: nat) {
    max < |num| && Total(num, max) == n && Weight(num, max, max) == Pow2(max)
  }

  /** The histogram with every code longer than max moved to max. */
  function Collapsed(num: seq<nat>, max: nat): (c: seq<nat>)
    requires max < 33 == |num| && Total(num, max) <= Total(num, 32)
    ensures |c| == |num|
  {
    num[max := num[max] + (Total(num, 32) - Total(num, max))]
  }

  /** How much more space the codes of length k and below take than if each had length m. */
  function Spare(num: seq<nat>, m: nat, k: nat): int
    requires k < |num| && k <= m
  {
    Weight(num, m, k) - Total(num, k)
  }

  /** What the repair has changed since start: lengths below low are untouched, at low some codes have gone,
      and above it no more is left in between than one split code of length low would take. */
  ghost predicate Moved(start: seq<nat>, num: seq<nat>, low: nat, n: nat, max: nat, total: int) {
    && |num| == |start| && 1 <= low <= max < |num|
    && (forall l :: 1 <= l < low ==> num[l] == start[l]) && num[low] <= start[low]
    && total - n - Spare(num, max, low) < Pow2(max - low) <= n
    && (low == max ==> num == start)
  }

  /** Moving the long codes to length max overdraws the space by less than the number of codes there. */
  lemma CollapseOverdraws(num: seq<nat>, n: nat, max: nat, top: nat)
    requires 1 <= max < top && Full(num, n, top)
    ensures Total(num, top) >= Total(num, max)
    ensures var c := num[max := num[max] + (Total(num, top) - Total(num, max))];
            Overdrawn(c, n, max, Weight(c, max, max))
  {
    var t := Total(num, top) - Total(num, max);
    TailWeight(num, top, max, top);
    WeightScale(num, max, top - max, max);
    Pow2Add(max, top - max);
    TotalUpdate(num, max, max, t);
    WeightUpdate(num, max, max, max, t);
    var h, p := Weight(num, max, max), Pow2(top - max);
    CollapseArith(h, t, p, Pow2(max), Weight(num, top, top));
  }

  lemma CollapseArith(h: nat, t: nat, p: nat, q: nat, w: nat)
    requires p >= 1 && w == q * p && h * p + t <= w <= h * p + t * p
    ensures q <= h + t && h <= q && (h == q ==> t == 0)
  {
    assert (h + t) * p == h * p + t * p;
    MulCancelLe(q, h + t, p);
    MulCancelLe(h, q, p);
  }

  /** As long as the space is overdrawn some code shorter than max exists. */
  lemma {:induction false} DonorExists(num: seq<nat>, max: nat, k: nat)
    requires 1 <= max < |num| && k < max && (forall i :: 1 <= i <= k ==> num[i] == 0)
    ensures Weight(num, max, k) == 0 && Total(num, k) == 0
    decreases k
  {
    if k > 0 {
      DonorExists(num, max, k - 1);
    }
  }

  /** What a pass leaves. */
  function AfterSplit(num: seq<nat>, max: nat, i: nat): seq<nat>
    requires 1 <= i < max < |num| && num[i] > 0 && num[max] > 0
  {
    var a := num[max := num[max] - 1];
    var b := a[i := a[i] - 1];
    b[i + 1 := b[i + 1] + 2]
  }

  /** One pass: a code leaves length max, the longest shorter code is split in two. */
  lemma SplitDonor(num: seq<nat>, n: nat, max: nat, total: nat, i: nat)
    requires Overdrawn(num, n, max, total) && total > Pow2(max)
    requires 1 <= i < max && num[i] > 0
    ensures num[max] > 0 && Overdrawn(AfterSplit(num, max, i), n, max, total - 1)
  {
    var a := num[max := num[max] + -1];
    var b := a[i := a[i] + -1];
    TotalUpdate(num, max, max, -1);
    TotalUpdate(a, max, i, -1);
    TotalUpdate(b, max, i + 1, 2);
    WeightUpdate(num, max, max, max, -1);
    WeightUpdate(a, max, max, i, -1);
    WeightUpdate(b, max, max, i + 1, 2);
    hide Total, Weight;
    assert Pow2(max - i) == 2 * Pow2(max - (i + 1));
  }

  /** When only length max and lengths up to i are used. */
  lemma {:induction false} NoneBetween(num: seq<nat>, max: nat, i: nat, k: nat)
    requires i <= k < max < |num| && forall l :: i < l <= k ==> num[l] == 0
    ensures Weight(num, max, k) == Weight(num, max, i) && Total(num, k) == Total(num, i)
    decreases k
  {
    if k > i {
      NoneBetween(num, max, i, k - 1);
    }
  }

  /** The donor is no shorter than the number of codes allows. */
  lemma DonorBound(num: seq<nat>, n: nat, max: nat, total: nat, i: nat)
    requires Overdrawn(num, n, max, total) && total > Pow2(max)
    requires 1 <= i < max && forall l :: i < l < max ==> num[l] == 0
    ensures Pow2(max - i) < n && total - n == Spare(num, max, i)
  {
    NoneBetween(num, max, i, max - 1);
    WeightScale(num, i, max - i, i);
    Pow2Add(i, max - i);
    WeightStep(num, max, max);
    TotalStep(num, max);
    DonorArith(Weight(num, i, i), Pow2(i), Pow2(max - i), num[max], total);
  }

  lemma DonorArith(w: nat, q: nat, p: nat, z: nat, total: nat)
    requires total == w * p + z && z > total - q * p >= 1 && p >= 1
    ensures z > p
  {
    if w >= q {
      MulMono(q, w, p);
      assert false;
    }
    MulMono(w, q - 1, p);
    assert (q - 1) * p == q * p - p;
  }

  /** Up to length k, not past the donor, a pass only takes the donor's code away. */
  lemma SplitSpare(num: seq<nat>, max: nat, i: nat, k: nat)
    requires 1 <= i < max < |num| && num[i] > 0 && num[max] > 0 && 1 <= k <= i
    ensures Spare(AfterSplit(num, max, i), max, k) == Spare(num, max, k) + (if k == i then 1 - Pow2(max - i) else 0)
  {
    hide Pow2;
    var a := num[max := num[max] + -1];
    var b := a[i := a[i] + -1];
    TotalUpdate(num, k, max, -1);
    TotalUpdate(a, k, i, -1);
    TotalUpdate(b, k, i + 1, 2);
    WeightUpdate(num, max, k, max, -1);
    WeightUpdate(a, max, k, i, -1);
    WeightUpdate(b, max, k, i + 1, 2);
    hide Total, Weight;
  }

  /** A donor at the boundary or below it becomes the boundary. */
  lemma MovedBelow(start: seq<nat>, num: seq<nat>, low: nat, n: nat, max: nat, total: nat, i: nat)
    requires Moved(start, num, low, n, max, total) && 1 <= i <= low && i < max && num[i] > 0 && num[max] > 0
    requires Pow2(max - i) < n && total - n == Spare(num, max, i)
    ensures Moved(start, AfterSplit(num, max, i), i, n, max, total - 1)
  {
    hide Spare, Pow2;
    SplitSpare(num, max, i, i);
  }

  /** A donor above the boundary is what is left of an earlier split. */
  lemma MovedAbove(start: seq<nat>, num: seq<nat>, low: nat, n: nat, max: nat, total: nat, i: nat)
    requires Moved(start, num, low, n, max, total) && low < i < max && num[i] > 0 && num[max] > 0
    ensures Moved(start, AfterSplit(num, max, i), low, n, max, total - 1)
  {
    hide Spare, Pow2;
    SplitSpare(num, max, i, low);
  }

  /** A pass moves the boundary down to its donor, unless the donor lies above it. */
  lemma SplitMoved(start: seq<nat>, num: seq<nat>, low: nat, n: nat, max: nat, total: nat, i: nat)
    requires Moved(start, num, low, n, max, total)
    requires Overdrawn(num, n, max, total) && total > Pow2(max)
    requires 1 <= i < max && num[i] > 0 && forall l :: i < l < max ==> num[l] == 0
    ensures num[max] > 0 && Moved(start, AfterSplit(num, max, i), Min(low, i), n, max, total - 1)
  {
    hide Spare, Total, Weight, Pow2;
    DonorBound(num, n, max, total, i);
    hide Moved, AfterSplit;
    if i <= low {
      MovedBelow(start, num, low, n, max, total, i);
    } else {
      MovedAbove(start, num, low, n, max, total, i);
    }
  }

  lemma NoDonor(num: seq<nat>, n: nat, max: nat, total: nat)
    requires Overdrawn(num, n, max, total) && n <= Pow2(max)
    requires forall i :: 1 <= i < max ==> num[i] == 0
    ensures total == Pow2(max)
  {
    DonorExists(num, max, max - 1);
  }

  /** The Kraft sum over lengths 1..max, scaled by 2^max. */
  method WeightTotal(num: array<nat>, max: nat) returns (total: nat)
    requires 1 <= max < num.Length
    ensures total == Weight(num[..], max, max)
  {
    hide Weight;
    total := 0;
    var i := max;
    while i > 0
      invariant 0 <= i <= max
      invariant total + Weight(num[..], max, i) == Weight(num[..], max, max)
    {
      WeightStep(num[..], max, i);
      total := total + num[i] * Pow2(max - i);
      i := i - 1;
    }
    WeightZero(num[..], max);
  }

  /** One pass of the repair loop. */
  method SplitPass(num: array<nat>, ghost n: nat, max: nat, ghost total: nat, ghost start: seq<nat>, ghost low: nat)
    returns (ghost low': nat)
    requires num.Length == 33 && Overdrawn(num[..], n, max, total) && total > Pow2(max) && n <= Pow2(max)
    requires Moved(start, num[..], low, n, max, total)
    modifies num
    ensures Overdrawn(num[..], n, max, total - 1)
    ensures Moved(start, num[..], low', n, max, total - 1)
  {
    hide Overdrawn, Pow2, Moved;
    ghost var before: seq<nat> := num[..];
    OverdrawnFacts(before, n, max, total);
    num[max] := num[max] - 1;
    var i := max - 1;
    while i > 0 && num[i] == 0
      invariant 0 <= i < max
      invariant forall j :: i < j < max ==> before[j] == 0
    {
      i := i - 1;
    }
    if i > 0 {
      SplitDonor(before, n, max, total, i);
      SplitMoved(start, before, low, n, max, total, i);
      low' := Min(low, i);
      num[i] := num[i] - 1;
      num[i + 1] := num[i + 1] + 2;
    } else {
      NoDonor(before, n, max, total);
      assert false;
    }
  }

  /** Moves codes longer than max to length max, then splits shorter codes until the space is exactly full. */
  method EnforceMaxCodeSize(num: array<nat>, codeListLen: nat, max: nat)
    requires num.Length == 33 && 1 <= max < 32 && codeListLen <= Pow2(max)
    requires codeListLen > 1 ==> Full(num[..], codeListLen, 32)
    modifies num
    ensures codeListLen <= 1 ==> num[..] == old(num[..])
    ensures codeListLen > 1 ==> Full(num[..], codeListLen, max) && Repaired(old(num[..]), num[..], codeListLen, max)
  {
    hide Full, Overdrawn, Total, Weight, Moved, Repaired;
    if codeListLen <= 1 {
      return;
    }
    ghost var start: seq<nat> := num[..];
    for i: nat := max + 1 to 33
      invariant Total(start, i - 1) >= Total(start, max)
      invariant num[..] == start[max := start[max] + (Total(start, i - 1) - Total(start, max))]
    {
      TotalStep(start, i);
      num[max] := num[max] + num[i];
    }
    CollapseOverdraws(start, codeListLen, max, 32);
    ghost var c := Collapsed(start, max);
    var total := WeightTotal(num, max);
    OverdrawnFacts(num[..], codeListLen, max, total);
    NothingMoved(c, codeListLen, max, total);
    ghost var first, low: nat := total, max;
    while total != Pow2(max)
      invariant total >= Pow2(max) && Overdrawn(num[..], codeListLen, max, total)
      invariant Moved(c, num[..], low, codeListLen, max, total)
      decreases total
    {
      low := SplitPass(num, codeListLen, max, total, c, low);
      total := total - 1;
      OverdrawnFacts(num[..], codeListLen, max, total);
    }
    OverdrawnDone(num[..], codeListLen, max);
    RepairDone(start, num[..], low, codeListLen, max, first);
  }

  /** What the limiter makes of a histogram: the long codes moved to max, overdrawing by less than the n codes, then
      repaired. */
  ghost predicate Repaired(num: seq<nat>, num': seq<nat>, n: nat, max: nat) {
    && max < 33 == |num| && Total(num, max) <= Total(num, 32)
    && var c := Collapsed(num, max);
    && Weight(c, max, max) < Pow2(max) + n && Total(c, max) == n
    && exists low :: Moved(c, num', low, n, max, Pow2(max))
  }

  lemma RepairDone(num: seq<nat>, num': seq<nat>, low: nat, n: nat, max: nat, first: nat)
    requires max < 33 == |num| && Total(num, max) <= Total(num, 32) && n > 1
    requires Overdrawn(Collapsed(num, max), n, max, first) && Moved(Collapsed(num, max), num', low, n, max, Pow2(max))
    ensures Repaired(num, num', n, max)
  {
    TotalAtLeast(Collapsed(num, max), max);
  }

  lemma TotalAtLeast(num: seq<nat>, k: nat)
    requires 1 <= k < |num|
    ensures Total(num, k) >= num[k]
  {
  }

  lemma NothingMoved(num: seq<nat>, n: nat, max: nat, total: nat)
    requires Overdrawn(num, n, max, total) && n >= 1
    ensures Moved(num, num, max, n, max, total)
  {
    assert Pow2(0) == 1;
  }

  lemma TotalStep(num: seq<nat>, k: nat)
    requires 1 <= k < |num|
    ensures Total(num, k) == Total(num, k - 1) + num[k]
  {
  }

  lemma WeightStep(num: seq<nat>, m: nat, k: nat)
    requires 1 <= k < |num| && k <= m
    ensures Weight(num, m, k) == Weight(num, m, k - 1) + num[k] * Pow2(m - k)
  {
  }

  lemma WeightZero(num: seq<nat>, m: nat)
    requires 0 < |num|
    ensures Weight(num, m, 0) == 0
  {
  }

  lemma OverdrawnFacts(num: seq<nat>, n: nat, max: nat, total: nat)
    requires Overdrawn(num, n, max, total)
    ensures 1 <= max < |num| && total >= Pow2(max) && (total > Pow2(max) ==> num[max] >= 1)
  {
  }

  lemma OverdrawnDone(num: seq<nat>, n: nat, max: nat)
    requires Overdrawn(num, n, max, Pow2(max))
    ensures Full(num, n, max)
  {
  }
}
