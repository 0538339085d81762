/** The two-pass radix sort that orders symbols by 16-bit frequency (tdefl_radix_sort_syms). */
module RadixSort {
  import opened Arith

  /** A frequency, later overwritten by a code length, and the symbol it belongs to. */
  datatype SymFreq = SymFreq(key: nat, sym: nat)

  predicate Keys16(s: seq<SymFreq>) {
    forall i :: 0 <= i < |s| ==> s[i].key < 65536
  }

  /** Ascending in the part of the key below m. */
  predicate SortedMod(s: seq<SymFreq>, m: nat)
    requires m > 0
  {
    forall i, j :: 0 <= i < j < |s| ==> s[i].key % m <= s[j].key % m
  }

  predicate Sorted(s: seq<SymFreq>) {
    forall i, j :: 0 <= i < j < |s| ==> s[i].key <= s[j].key
  }

  function Digit(f: SymFreq, m: nat): (d: nat)
    requires m > 0
    ensures d < 256
  {
    f.key / m % 256
  }

  /** The entries whose digit is b, in order. */
  function Pick(s: seq<SymFreq>, m: nat, b: nat): seq<SymFreq>
    requires m > 0
  {
    if s == [] then []
    else Pick(s[..|s| - 1], m, b) + (if Digit(s[|s| - 1], m) == b then [s[|s| - 1]] else [])
  }

  /** The buckets below k, one after another. */
  function Buckets(s: seq<SymFreq>, m: nat, k: nat): seq<SymFreq>
    requires m > 0
    decreases k, s
  {
    if k == 0 then [] else Buckets(s, m, k - 1) + Pick(s, m, k - 1)
  }

  lemma {:induction false} PickHasDigit(s: seq<SymFreq>, m: nat, b: nat)
    requires m > 0
    ensures forall i :: 0 <= i < |Pick(s, m, b)| ==> Digit(Pick(s, m, b)[i], m) == b && Pick(s, m, b)[i] in s
  {
    hide Digit;
    if s != [] {
      PickHasDigit(s[..|s| - 1], m, b);
    }
  }

  /** Picking keeps the order of the lower digits: the sort is stable. */
  lemma {:induction false} PickSorted(s: seq<SymFreq>, m: nat, b: nat)
    requires m > 0 && SortedMod(s, m)
    ensures SortedMod(Pick(s, m, b), m)
  {
    hide Digit;
    if s != [] {
      var r := s[..|s| - 1];
      PickSorted(r, m, b);
      PickHasDigit(r, m, b);
    }
  }

  /** Comparing digits first and the lower part second compares the longer part. */
  lemma KeyOrder(f: SymFreq, g: SymFreq, m: nat)
    requires m > 0
    requires Digit(f, m) < Digit(g, m) || (Digit(f, m) == Digit(g, m) && f.key % m <= g.key % m)
    ensures f.key % (m * 256) <= g.key % (m * 256)
  {
    hide Digit;
    DigitSplit(f, m);
    DigitSplit(g, m);
    if Digit(f, m) < Digit(g, m) {
      MulMono(Digit(f, m) + 1, Digit(g, m), m);
    }
  }

  lemma DigitSplit(f: SymFreq, m: nat)
    requires m > 0
    ensures m * 256 > 0 && f.key % (m * 256) == Digit(f, m) * m + f.key % m && 0 <= f.key % m < m
  {
    DivModMul(f.key, m, 256);
    DivModOf(f.key, m);
  }

  /** One counting pass extends the sorted part of the key by a digit. */
  lemma {:induction false} BucketsSorted(s: seq<SymFreq>, m: nat, k: nat)
    requires m > 0 && SortedMod(s, m)
    ensures m * 256 > 0 && SortedMod(Buckets(s, m, k), m * 256)
    ensures forall i :: 0 <= i < |Buckets(s, m, k)| ==> Digit(Buckets(s, m, k)[i], m) < k && Buckets(s, m, k)[i] in s
    decreases k
  {
    if k > 0 {
      BucketsSorted(s, m, k - 1);
      PickSorted(s, m, k - 1);
      PickHasDigit(s, m, k - 1);
      BucketsJoin(Buckets(s, m, k - 1), Pick(s, m, k - 1), m, k - 1);
    }
  }

  lemma BucketsJoin(a: seq<SymFreq>, b: seq<SymFreq>, m: nat, k: nat)
    requires m > 0 && SortedMod(a, m * 256) && SortedMod(b, m)
    requires forall i :: 0 <= i < |a| ==> Digit(a[i], m) < k
    requires forall i :: 0 <= i < |b| ==> Digit(b[i], m) == k
    ensures SortedMod(a + b, m * 256)
  {
    hide Digit;
    var c := a + b;
    forall i, j | 0 <= i < j < |c|
      ensures c[i].key % (m * 256) <= c[j].key % (m * 256)
    {
      if j >= |a| {
        assert c[j] == b[j - |a|];
        if i < |a| {
          assert c[i] == a[i];
        } else {
          assert c[i] == b[i - |a|];
        }
        KeyOrder(c[i], c[j], m);
      }
    }
  }

  lemma {:induction false} PickCount(s: seq<SymFreq>, m: nat, b: nat, e: SymFreq)
    requires m > 0
    ensures multiset(Pick(s, m, b))[e] == if Digit(e, m) == b then multiset(s)[e] else 0
  {
    hide Digit;
    if s != [] {
      var r := s[..|s| - 1];
      PickCount(r, m, b, e);
      assert s == r + [s[|s| - 1]];
    }
  }

  lemma {:induction false} BucketsCount(s: seq<SymFreq>, m: nat, k: nat, e: SymFreq)
    requires m > 0
    ensures multiset(Buckets(s, m, k))[e] == if Digit(e, m) < k then multiset(s)[e] else 0
    decreases k
  {
    hide Digit;
    if k > 0 {
      BucketsCount(s, m, k - 1, e);
      PickCount(s, m, k - 1, e);
    }
  }

  /** A pass permutes its input. */
  lemma BucketsPermute(s: seq<SymFreq>, m: nat, k: nat)
    requires m > 0 && k == 256
    ensures multiset(Buckets(s, m, k)) == multiset(s)
    ensures |Buckets(s, m, k)| == |s|
  {
    forall e
      ensures multiset(Buckets(s, m, k))[e] == multiset(s)[e]
    {
      BucketsCount(s, m, k, e);
    }
    assert multiset(Buckets(s, m, k)) == multiset(s);
    assert |multiset(Buckets(s, m, k))| == |multiset(s)|;
  }

  lemma {:induction false} BucketsMono(s: seq<SymFreq>, m: nat, a: nat, b: nat)
    requires m > 0 && a <= b
    ensures |Buckets(s, m, a)| <= |Buckets(s, m, b)|
    decreases b
  {
    if a < b {
      BucketsMono(s, m, a, b - 1);
    }
  }

  lemma {:induction false} PickPrefix(s: seq<SymFreq>, m: nat, b: nat, i: nat)
    requires m > 0 && i <= |s|
    ensures |Pick(s[..i], m, b)| <= |Pick(s, m, b)|
  {
    if i == |s| {
      assert s[..i] == s;
    } else {
      var r := s[..|s| - 1];
      PickPrefix(r, m, b, i);
      assert r[..i] == s[..i];
    }
  }

  lemma BucketsNone(s: seq<SymFreq>, m: nat)
    requires m > 0
    ensures Buckets(s, m, 0) == []
  {
  }

  lemma BucketStep(s: seq<SymFreq>, m: nat, b: nat)
    requires m > 0
    ensures |Buckets(s, m, b + 1)| == |Buckets(s, m, b)| + |Pick(s, m, b)|
  {
  }

  /** Where entry x of digit d goes: the counted offset, inside bucket d. */
  lemma SlotInBucket(s: seq<SymFreq>, m: nat, i: nat, d: nat)
    requires m > 0 && i < |s| && d == Digit(s[i], m)
    ensures |Pick(s[..i + 1], m, d)| == |Pick(s[..i], m, d)| + 1 <= |Pick(s, m, d)|
    ensures |Buckets(s, m, d)| + |Pick(s, m, d)| == |Buckets(s, m, d + 1)| <= |s|
    ensures Pick(s[..i + 1], m, d) == Pick(s[..i], m, d) + [s[i]]
    ensures forall b :: b != d ==> Pick(s[..i + 1], m, b) == Pick(s[..i], m, b)
  {
    hide Digit;
    PickPrefix(s, m, d, i + 1);
    assert s[..i + 1][..i] == s[..i];
    BucketsMono(s, m, d + 1, 256);
    BucketsPermute(s, m, 256);
  }

  /** Distinct buckets do not share slots. */
  lemma SlotsApart(s: seq<SymFreq>, m: nat, i: nat, b: nat, d: nat, j: nat)
    requires m > 0 && i < |s| && d == Digit(s[i], m) && b != d && j < |Pick(s[..i], m, b)|
    ensures |Buckets(s, m, b)| + j != |Buckets(s, m, d)| + |Pick(s[..i], m, d)|
  {
    hide Digit, Pick, Buckets;
    SlotInBucket(s, m, i, d);
    PickPrefix(s, m, b, i);
    BucketStep(s, m, b);
    if b < d {
      BucketsMono(s, m, b + 1, d);
    } else {
      BucketsMono(s, m, d + 1, b);
    }
  }

  /** The given entries stand in out from position ofs. */
  ghost predicate StandsAt(out: seq<SymFreq>, ofs: nat, picked: seq<SymFreq>) {
    ofs + |picked| <= |out| && forall j :: 0 <= j < |picked| ==> out[ofs + j] == picked[j]
  }

  /** The offsets array has moved on by the entries placed so far, and those entries sit in their slots. */
  ghost predicate Placed(s: seq<SymFreq>, m: nat, i: nat, offsets: seq<nat>, out: seq<SymFreq>)
    requires m > 0 && i <= |s| && |offsets| == 256
  {
    && (forall b :: 0 <= b < 256 ==> offsets[b] == |Buckets(s, m, b)| + |Pick(s[..i], m, b)|)
    && (forall b :: 0 <= b < 256 ==> StandsAt(out, |Buckets(s, m, b)|, Pick(s[..i], m, b)))
  }

  lemma PlaceOne(s: seq<SymFreq>, m: nat, i: nat, offsets: seq<nat>, out: seq<SymFreq>)
    requires m > 0 && i < |s| <= |out| && |offsets| == 256
    requires Placed(s, m, i, offsets, out)
    ensures var d := Digit(s[i], m);
            offsets[d] < |s| && Placed(s, m, i + 1, offsets[d := offsets[d] + 1], out[offsets[d] := s[i]])
  {
    hide Digit, Pick, Buckets;
    var d := Digit(s[i], m);
    SlotInBucket(s, m, i, d);
    var out' := out[offsets[d] := s[i]];
    forall b | 0 <= b < 256
      ensures StandsAt(out', |Buckets(s, m, b)|, Pick(s[..i + 1], m, b))
    {
      var ofs, picked := |Buckets(s, m, b)|, Pick(s[..i], m, b);
      assert StandsAt(out, ofs, picked);
      if b != d {
        forall j | 0 <= j < |picked|
          ensures out'[ofs + j] == picked[j]
        {
          SlotsApart(s, m, i, b, d, j);
        }
      }
    }
  }

  /** Once every entry is placed the output is the buckets in order. */
  lemma {:induction false} PlacedAll(s: seq<SymFreq>, m: nat, offsets: seq<nat>, out: seq<SymFreq>, k: nat)
    requires m > 0 && |s| <= |out| && |offsets| == 256 && Placed(s, m, |s|, offsets, out)
    requires k <= 256 && |Buckets(s, m, k)| <= |s|
    ensures out[..|Buckets(s, m, k)|] == Buckets(s, m, k)
    decreases k
  {
    hide Digit, Pick;
    if k > 0 {
      PlacedAll(s, m, offsets, out, k - 1);
      assert s[..|s|] == s;
      var a, b := Buckets(s, m, k - 1), Pick(s, m, k - 1);
      assert StandsAt(out, |a|, b);
      assert out[..|a| + |b|] == out[..|a|] + out[|a|..|a| + |b|];
    }
  }

  lemma PlacedNone(s: seq<SymFreq>, m: nat, offsets: seq<nat>, out: seq<SymFreq>)
    requires m > 0 && |s| <= |out| && |offsets| == 256
    requires forall b :: 0 <= b < 256 ==> offsets[b] == |Buckets(s, m, b)|
    ensures Placed(s, m, 0, offsets, out)
  {
    hide Digit, Buckets;
    assert s[..0] == [];
    BucketsPermute(s, m, 256);
    forall b | 0 <= b < 256
      ensures |Buckets(s, m, b)| <= |s|
    {
      BucketsMono(s, m, b, 256);
    }
  }

  /** One pass: count-indexed scatter of n entries from cur to new. */
  method Scatter(cur: array<SymFreq>, target: array<SymFreq>, n: nat, hist: array<nat>, base: nat, m: nat)
    requires m > 0 && n <= cur.Length && n <= target.Length && cur != target
    requires base + 256 <= hist.Length
    requires forall b :: 0 <= b < 256 ==> hist[base + b] == |Pick(cur[..n], m, b)|
    modifies target
    ensures target[..n] == Buckets(cur[..n], m, 256)
  {
    hide Digit, Pick, Buckets;
    ghost var s := cur[..n];
    var offsets := new nat[256];
    var curOfs := 0;
    assert |Buckets(s, m, 0)| == 0 by { BucketsNone(s, m); }
    for i := 0 to 256
      invariant curOfs == |Buckets(s, m, i)|
      invariant forall b :: 0 <= b < i ==> offsets[b] == |Buckets(s, m, b)|
    {
      offsets[i] := curOfs;
      BucketStep(s, m, i);
      curOfs := curOfs + hist[base + i];
    }
    PlacedNone(s, m, offsets[..], target[..]);
    for i := 0 to n
      invariant s == cur[..n]
      invariant Placed(s, m, i, offsets[..], target[..])
    {
      PlaceOne(s, m, i, offsets[..], target[..]);
      var d := Digit(cur[i], m);
      target[offsets[d]] := cur[i];
      offsets[d] := offsets[d] + 1;
    }
    BucketsPermute(s, m, 256);
    PlacedAll(s, m, offsets[..], target[..], 256);
  }

  /** The two digit counts of the entries counted so far. */
  ghost predicate Counted(s: seq<SymFreq>, hist: seq<nat>)
    requires |hist| == 512
  {
    forall b :: 0 <= b < 256 ==> hist[b] == |Pick(s, 1, b)| && hist[256 + b] == |Pick(s, 256, b)|
  }

  lemma CountOne(s: seq<SymFreq>, x: SymFreq, hist: seq<nat>)
    requires |hist| == 512 && Counted(s, hist) && x.key < 65536
    ensures var h := hist[x.key % 256 := hist[x.key % 256] + 1];
            Counted(s + [x], h[256 + x.key / 256 % 256 := h[256 + x.key / 256 % 256] + 1])
  {
    PickAppend(s, x, 1);
    PickAppend(s, x, 256);
    assert Digit(x, 1) == x.key % 256;
    hide Pick, Digit;
  }

  lemma PickAppend(s: seq<SymFreq>, x: SymFreq, m: nat)
    requires m > 0
    ensures forall b: nat :: |Pick(s + [x], m, b)| == |Pick(s, m, b)| + (if b == Digit(x, m) then 1 else 0)
  {
    assert (s + [x])[..|s|] == s;
  }

  /** When every entry has high digit zero, one pass has sorted the whole key. */
  lemma {:induction false} AllInFirst(s: seq<SymFreq>, m: nat)
    requires m > 0 && |Pick(s, m, 0)| == |s|
    ensures forall i :: 0 <= i < |s| ==> Digit(s[i], m) == 0
  {
    hide Digit;
    if s != [] {
      PickPrefix(s, m, 0, |s| - 1);
      PickAtMost(s[..|s| - 1], m, 0);
      AllInFirst(s[..|s| - 1], m);
    }
  }

  lemma {:induction false} PickAtMost(s: seq<SymFreq>, m: nat, b: nat)
    requires m > 0
    ensures |Pick(s, m, b)| <= |s|
  {
    hide Digit;
    if s != [] {
      PickAtMost(s[..|s| - 1], m, b);
    }
  }

  lemma LowKey(f: SymFreq)
    requires f.key < 65536 && Digit(f, 256) == 0
    ensures f.key % 256 == f.key
  {
  }

  lemma OnePassSorted(s: seq<SymFreq>)
    requires Keys16(s) && forall i :: 0 <= i < |s| ==> Digit(s[i], 256) == 0
    ensures Sorted(Buckets(s, 1, 256))
  {
    hide Buckets, Digit;
    var t := Buckets(s, 1, 256);
    BucketsSorted(s, 1, 256);
    forall i | 0 <= i < |t|
      ensures t[i].key % 256 == t[i].key
    {
      assert t[i] in s;
      LowKey(t[i]);
    }
  }

  lemma TwoPassSorted(s: seq<SymFreq>, t: seq<SymFreq>)
    requires Keys16(s) && t == Buckets(s, 1, 256)
    ensures Sorted(Buckets(t, 256, 256))
  {
    hide Digit, Buckets;
    var u := Buckets(t, 256, 256);
    BucketsSorted(s, 1, 256);
    BucketsSorted(t, 256, 256);
    forall i | 0 <= i < |u|
      ensures u[i].key % 65536 == u[i].key
    {
      assert u[i] in t;
      var j :| 0 <= j < |t| && t[j] == u[i];
      assert t[j] in s;
    }
  }

  /** Counts move with the entries: a permuted input fills the same buckets. */
  lemma PickSize(s: seq<SymFreq>, t: seq<SymFreq>, m: nat, b: nat)
    requires m > 0 && multiset(s) == multiset(t)
    ensures |Pick(s, m, b)| == |Pick(t, m, b)|
  {
    forall e
      ensures multiset(Pick(s, m, b))[e] == multiset(Pick(t, m, b))[e]
    {
      PickCount(s, m, b, e);
      PickCount(t, m, b, e);
    }
    assert multiset(Pick(s, m, b)) == multiset(Pick(t, m, b));
    assert |multiset(Pick(s, m, b))| == |multiset(Pick(t, m, b))|;
  }

  /** Sorts the first n entries by key; the result is in whichever of the two arrays the last pass wrote. */
  method RadixSortSyms(n: nat, syms0: array<SymFreq>, syms1: array<SymFreq>) returns (cur: array<SymFreq>)
    requires n <= syms0.Length && n <= syms1.Length && syms0 != syms1
    requires Keys16(syms0[..n])
    modifies syms0, syms1
    ensures cur == syms0 || cur == syms1
    ensures multiset(cur[..n]) == multiset(old(syms0[..n]))
    ensures Sorted(cur[..n])
  {
    hide Digit, Pick, Buckets;
    ghost var s := syms0[..n];
    var hist := new nat[512](_ => 0);
    assert Counted(syms0[..0], hist[..]) by { CountNone(hist[..]); }
    for i := 0 to n
      invariant s == syms0[..n]
      invariant Counted(syms0[..i], hist[..])
    {
      CountOne(syms0[..i], syms0[i], hist[..]);
      var freq := syms0[i].key;
      assert syms0[..i + 1] == syms0[..i] + [syms0[i]];
      assert freq == s[i].key;
      hist[freq % 256] := hist[freq % 256] + 1;
      hist[256 + freq / 256 % 256] := hist[256 + freq / 256 % 256] + 1;
    }
    var totalPasses := 2;
    while totalPasses > 1 && n == hist[(totalPasses - 1) * 256]
      invariant 1 <= totalPasses <= 2
      invariant totalPasses == 1 ==> |Pick(s, 256, 0)| == |s|
    {
      totalPasses := totalPasses - 1;
    }
    cur := syms0;
    var next := syms1;
    Scatter(cur, next, n, hist, 0, 1);
    BucketsPermute(s, 1, 256);
    ghost var t := Buckets(s, 1, 256);
    cur, next := next, cur;
    if totalPasses == 1 {
      AllInFirst(s, 256);
      OnePassSorted(s);
    } else {
      forall b | 0 <= b < 256
        ensures hist[256 + b] == |Pick(t, 256, b)|
      {
        PickSize(s, t, 256, b);
      }
      Scatter(cur, next, n, hist, 256, 256);
      BucketsPermute(t, 256, 256);
      TwoPassSorted(s, t);
      cur, next := next, cur;
    }
  }

  lemma CountNone(hist: seq<nat>)
    requires |hist| == 512 && forall b :: 0 <= b < 512 ==> hist[b] == 0
    ensures Counted([], hist)
  {
  }
}
