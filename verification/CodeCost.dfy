/** What code lengths cost, and why joining the two lightest weights first costs least. */
module CodeCost {
  import opened Arith

  function Sum(s: seq<nat>): nat {
    if s == [] then 0 else s[0] + Sum(s[1..])
  }

  /** The Kraft sum of code lengths, scaled by 2^m. */
  function Kraft(lens: seq<nat>, m: nat): nat {
    if lens == [] then 0
    else (if lens[0] <= m then Pow2(m - lens[0]) else 0) + Kraft(lens[1..], m)
  }

  predicate Within(lens: seq<nat>, m: nat) {
    forall i :: 0 <= i < |lens| ==> lens[i] <= m
  }

  /** Code lengths that some prefix code of lengths up to m has. */
  predicate KraftFits(lens: seq<nat>, m: nat) {
    Within(lens, m) && Kraft(lens, m) <= Pow2(m)
  }

  /** How many bits symbols that occur w times take. */
  function Cost(w: seq<nat>, lens: seq<nat>): nat
    requires |w| == |lens|
  {
    if w == [] then 0 else w[0] * lens[0] + Cost(w[1..], lens[1..])
  }

  lemma {:induction false} SumConcat(a: seq<nat>, b: seq<nat>)
    ensures Sum(a + b) == Sum(a) + Sum(b)
  {
    if a == [] {
      assert a + b == b;
    } else {
      SumConcat(a[1..], b);
      assert (a + b)[1..] == a[1..] + b;
    }
  }

  lemma SumOne(x: nat)
    ensures Sum([x]) == x
  {
    assert [x][1..] == [];
  }

  lemma SumAppend(s: seq<nat>, x: nat)
    ensures Sum(s + [x]) == Sum(s) + x
  {
    SumConcat(s, [x]);
    SumOne(x);
  }

  lemma SumTail(s: seq<nat>, i: nat)
    requires i < |s|
    ensures Sum(s[i..]) == s[i] + Sum(s[i + 1..])
  {
    assert s[i..][1..] == s[i + 1..];
  }

  lemma {:induction false} KraftConcat(a: seq<nat>, b: seq<nat>, m: nat)
    ensures Kraft(a + b, m) == Kraft(a, m) + Kraft(b, m)
  {
    if a == [] {
      assert a + b == b;
    } else {
      KraftConcat(a[1..], b, m);
      assert (a + b)[1..] == a[1..] + b;
    }
  }

  lemma KraftOne(x: nat, m: nat)
    ensures Kraft([x], m) == if x <= m then Pow2(m - x) else 0
  {
    assert [x][1..] == [];
  }

  lemma KraftNone(m: nat)
    ensures Kraft([], m) == 0
  {
  }

  lemma OneLess(k: nat, p: nat)
    requires k > 0
    ensures p + (k - 1) * p == k * p
  {
  }

  lemma {:induction false} KraftRep(v: nat, k: nat, m: nat)
    requires v <= m
    ensures Kraft(Rep(v, k), m) == k * Pow2(m - v)
    decreases k
  {
    if k > 0 {
      KraftRep(v, k - 1, m);
      assert Rep(v, k)[1..] == Rep(v, k - 1);
      OneLess(k, Pow2(m - v));
    }
  }

  lemma {:induction false} CostConcat(v: seq<nat>, w: seq<nat>, a: seq<nat>, b: seq<nat>)
    requires |v| == |a| && |w| == |b|
    ensures Cost(v + w, a + b) == Cost(v, a) + Cost(w, b)
  {
    if v == [] {
      assert v + w == w && a + b == b;
    } else {
      CostConcat(v[1..], w, a[1..], b);
      assert (v + w)[1..] == v[1..] + w && (a + b)[1..] == a[1..] + b;
    }
  }

  lemma CostOne(x: nat, d: nat)
    ensures Cost([x], [d]) == x * d
  {
    assert [x][1..] == [] && [d][1..] == [];
  }

  lemma {:induction false} CostConst(w: seq<nat>, lens: seq<nat>, d: nat)
    requires |w| == |lens| && forall i :: 0 <= i < |lens| ==> lens[i] == d
    ensures Cost(w, lens) == Sum(w) * d
  {
    if w != [] {
      CostConst(w[1..], lens[1..], d);
      assert w[0] * d + Sum(w[1..]) * d == (w[0] + Sum(w[1..])) * d;
    }
  }

  /** A stretch of equal lengths. */
  lemma CostRange(w: seq<nat>, lens: seq<nat>, c: nat, d: nat, v: nat)
    requires c <= d <= |w| && d <= |lens| && forall i :: c <= i < d ==> lens[i] == v
    ensures Cost(w[..d], lens[..d]) == Cost(w[..c], lens[..c]) + Sum(w[c..d]) * v
  {
    assert w[..d] == w[..c] + w[c..d] && lens[..d] == lens[..c] + lens[c..d];
    CostConcat(w[..c], w[c..d], lens[..c], lens[c..d]);
    CostConst(w[c..d], lens[c..d], v);
  }

  lemma {:induction false} CostUpdate(w: seq<nat>, lens: seq<nat>, i: nat, v: nat)
    requires |w| == |lens| && i < |w|
    ensures Cost(w, lens[i := v]) == Cost(w, lens) + w[i] * v - w[i] * lens[i]
  {
    if i > 0 {
      CostUpdate(w[1..], lens[1..], i - 1, v);
      assert lens[i := v][1..] == lens[1..][i - 1 := v];
    } else {
      assert lens[i := v][1..] == lens[1..];
    }
  }

  lemma {:induction false} KraftUpdate(lens: seq<nat>, i: nat, v: nat, m: nat)
    requires i < |lens| && lens[i] <= m && v <= m
    ensures Kraft(lens[i := v], m) == Kraft(lens, m) + Pow2(m - v) - Pow2(m - lens[i])
  {
    if i > 0 {
      KraftUpdate(lens[1..], i - 1, v, m);
      assert lens[i := v][1..] == lens[1..][i - 1 := v];
    } else {
      assert lens[i := v][1..] == lens[1..];
    }
  }

  /** Without codes of length m everything weighs the same one level up. */
  lemma {:induction false} KraftHalf(lens: seq<nat>, m: nat)
    requires forall i :: 0 <= i < |lens| ==> lens[i] < m
    ensures Kraft(lens, m) % 2 == 0 && (m > 0 ==> Kraft(lens, m) == 2 * Kraft(lens, m - 1))
  {
    if lens != [] {
      KraftHalf(lens[1..], m);
    }
  }

  /** Exchanging two lengths so that the lighter weight has the longer one. */
  lemma Exchange(w: seq<nat>, lens: seq<nat>, i: nat, j: nat, m: nat)
    requires |w| == |lens| && i < |w| && j < |w| && i != j && w[i] <= w[j] && lens[i] <= lens[j] && KraftFits(lens, m)
    ensures var t := lens[i := lens[j]][j := lens[i]]; KraftFits(t, m) && Cost(w, t) <= Cost(w, lens)
  {
    hide Kraft, Cost, Pow2;
    var x, y := lens[i], lens[j];
    var s := lens[i := y];
    CostUpdate(w, lens, i, y);
    CostUpdate(w, s, j, x);
    KraftUpdate(lens, i, y, m);
    KraftUpdate(s, j, x, m);
    ExchangeArith(w[i], w[j], x, y);
  }

  lemma ExchangeArith(v: nat, w: nat, x: nat, y: nat)
    requires v <= w && x <= y
    ensures v * y - v * x + w * x - w * y <= 0
  {
    assert v * y - v * x + w * x - w * y == (v - w) * (y - x);
    MulNonNeg(w - v, y - x);
    assert (v - w) * (y - x) == -((w - v) * (y - x));
  }

  /** A code of odd length sum has room: its only longest length can be shortened. */
  lemma Shorten(w: seq<nat>, lens: seq<nat>, p: nat, m: nat) returns (t: seq<nat>)
    requires |w| == |lens| >= 2 && KraftFits(lens, m) && p < |lens| && lens[p] == m
    requires forall i :: 0 <= i < |lens| && i != p ==> lens[i] < m
    ensures m > 0 && |t| == |w| && KraftFits(t, m - 1) && Cost(w, t) <= Cost(w, lens)
  {
    var q := if p == 0 then 1 else 0;
    assert lens[q] < m;
    t := lens[p := m - 1];
    KraftUpdate(lens, p, m - 1, m);
    CostUpdate(w, lens, p, m - 1);
    MulMono(m - 1, m, w[p]);
    KraftHalf(t, m);
    assert Pow2(m) == 2 * Pow2(m - 1);
    assert Pow2(0) == 1 && Pow2(1) == 2;
  }

  /** The first two weights, none of the others lighter, may as well have the two longest codes, of equal length. */
  lemma {:induction false} PairUp(w: seq<nat>, lens: seq<nat>, m: nat) returns (t: seq<nat>, d: nat)
    requires |w| == |lens| >= 2 && KraftFits(lens, m)
    requires forall i :: 2 <= i < |w| ==> w[0] <= w[i] && w[1] <= w[i]
    ensures |t| == |w| && 1 <= d <= m && KraftFits(t, d) && t[0] == t[1] == d && Cost(w, t) <= Cost(w, lens)
    decreases m
  {
    if p: nat :| p < |lens| && lens[p] == m {
      if q: nat :| q < |lens| && q != p && lens[q] == m {
        d := m;
        t := BothLongest(w, lens, Min(p, q), Max(p, q), m);
      } else {
        t := Shorten(w, lens, p, m);
        t, d := PairUp(w, t, m - 1);
      }
    } else {
      assert lens[0] < m;
      KraftHalf(lens, m);
      assert Pow2(m) == 2 * Pow2(m - 1);
      t, d := PairUp(w, lens, m - 1);
    }
  }

  lemma BothLongest(w: seq<nat>, lens: seq<nat>, p: nat, q: nat, m: nat) returns (t: seq<nat>)
    requires |w| == |lens| && KraftFits(lens, m) && p < q < |lens| && lens[p] == m && lens[q] == m
    requires forall i :: 2 <= i < |w| ==> w[0] <= w[i] && w[1] <= w[i]
    ensures m > 0 && |t| == |w| && KraftFits(t, m) && t[0] == t[1] == m && Cost(w, t) <= Cost(w, lens)
  {
    hide Kraft, Cost;
    t := lens;
    if p >= 2 {
      Exchange(w, lens, 0, p, m);
      t := lens[0 := lens[p]][p := lens[0]];
      assert t[q] == m;
      Exchange(w, t, 1, q, m);
      t := t[1 := t[q]][q := t[1]];
    } else if q >= 2 {
      Exchange(w, lens, 1 - p, q, m);
      t := lens[1 - p := lens[q]][q := lens[1 - p]];
    }
    TwoWeigh(t, m);
  }

  lemma TwoWeigh(t: seq<nat>, m: nat)
    requires |t| >= 2 && KraftFits(t, m) && t[0] == t[1] == m
    ensures m > 0
  {
    var u := t[1..];
    assert u[0] == m;
    assert Pow2(0) == 1;
    assert Kraft(t, m) == 1 + Kraft(u, m) && Kraft(u, m) == 1 + Kraft(u[1..], m);
  }

  /** Joining the first two weights, none of the others lighter, saves their sum and loses nothing. */
  lemma JoinFront(w: seq<nat>, lens: seq<nat>, m: nat) returns (t: seq<nat>)
    requires |w| == |lens| >= 2 && KraftFits(lens, m)
    requires forall i :: 2 <= i < |w| ==> w[0] <= w[i] && w[1] <= w[i]
    ensures |t| == |w| - 1 && KraftFits(t, m) && Cost([w[0] + w[1]] + w[2..], t) + w[0] + w[1] <= Cost(w, lens)
  {
    var s, d := PairUp(w, lens, m);
    t := [d - 1] + s[2..];
    assert w == [w[0]] + ([w[1]] + w[2..]) && s == [d] + ([d] + s[2..]);
    CostConcat([w[0]], [w[1]] + w[2..], [d], [d] + s[2..]);
    CostConcat([w[1]], w[2..], [d], s[2..]);
    CostConcat([w[0] + w[1]], w[2..], [d - 1], s[2..]);
    CostOne(w[0], d);
    CostOne(w[1], d);
    CostOne(w[0] + w[1], d - 1);
    assert (w[0] + w[1]) * (d - 1) == w[0] * d + w[1] * d - w[0] - w[1];
    KraftConcat([d], [d] + s[2..], d);
    KraftConcat([d], s[2..], d);
    KraftConcat([d - 1], s[2..], d);
    KraftOne(d, d);
    KraftOne(d - 1, d);
    assert Pow2(0) == 1 && Pow2(1) == 2;
    FitsMono(t, d, m);
  }

  lemma {:induction false} FitsMono(lens: seq<nat>, a: nat, b: nat)
    requires KraftFits(lens, a) && a <= b
    ensures KraftFits(lens, b)
    decreases b
  {
    if a < b {
      FitsMono(lens, a, b - 1);
      KraftHalf(lens, b);
      assert Pow2(b) == 2 * Pow2(b - 1);
    }
  }

  /** Order does not matter. */
  lemma Rearrange(v0: seq<nat>, v1: seq<nat>, v2: seq<nat>, v3: seq<nat>, a: seq<nat>, b: seq<nat>, c: seq<nat>,
      d: seq<nat>, m: nat)
    requires |v0| == |a| && |v1| == |b| && |v2| == |c| && |v3| == |d|
    ensures Cost(v0 + v1 + (v2 + v3), a + b + (c + d)) == Cost(v0 + v2 + (v1 + v3), a + c + (b + d))
    ensures KraftFits(a + b + (c + d), m) <==> KraftFits(a + c + (b + d), m)
  {
    CostConcat(v0 + v1, v2 + v3, a + b, c + d);
    CostConcat(v0 + v2, v1 + v3, a + c, b + d);
    CostConcat(v0, v1, a, b);
    CostConcat(v2, v3, c, d);
    CostConcat(v0, v2, a, c);
    CostConcat(v1, v3, b, d);
    FitsParts(a, b, c, d, m);
    FitsParts(a, c, b, d, m);
  }

  lemma FitsParts(a: seq<nat>, b: seq<nat>, c: seq<nat>, d: seq<nat>, m: nat)
    ensures KraftFits(a + b + (c + d), m) <==>
            && Kraft(a, m) + Kraft(b, m) + Kraft(c, m) + Kraft(d, m) <= Pow2(m)
            && Within(a, m) && Within(b, m) && Within(c, m) && Within(d, m)
  {
    hide Kraft, Within;
    KraftConcat(a + b, c + d, m);
    KraftConcat(a, b, m);
    KraftConcat(c, d, m);
    WithinConcat(a + b, c + d, m);
    WithinConcat(a, b, m);
    WithinConcat(c, d, m);
  }

  lemma WithinConcat(a: seq<nat>, b: seq<nat>, m: nat)
    ensures Within(a + b, m) <==> Within(a, m) && Within(b, m)
  {
    assert forall i :: 0 <= i < |a| ==> a[i] == (a + b)[i];
    assert forall i :: 0 <= i < |b| ==> b[i] == (a + b)[|a| + i];
  }

  /** Joining two weights, those in v0 and w0, with everything else at least as heavy. */
  lemma JoinParts(v0: seq<nat>, v1: seq<nat>, w0: seq<nat>, w1: seq<nat>, x: nat,
                  a: seq<nat>, b: seq<nat>, c: seq<nat>, d: seq<nat>, m: nat) returns (t: seq<nat>)
    requires |v0| + |w0| == 2 && x == Sum(v0) + Sum(w0)
    requires |v0| == |a| && |v1| == |b| && |w0| == |c| && |w1| == |d| && KraftFits(a + b + (c + d), m)
    requires forall p, q :: 0 <= p < 2 && 0 <= q < |v1 + w1| ==> (v0 + w0)[p] <= (v1 + w1)[q]
    ensures |t| == |v1| + 1 + |w1| && KraftFits(t, m)
    ensures Cost(v1 + [x] + w1, t) + x <= Cost(v0 + v1 + (w0 + w1), a + b + (c + d))
  {
    hide KraftFits, Cost;
    Rearrange(v0, v1, w0, w1, a, b, c, d, m);
    var front, rest := v0 + w0, v1 + w1;
    forall q | 2 <= q < |front + rest|
      ensures front[0] <= (front + rest)[q] && front[1] <= (front + rest)[q]
    {
      assert (front + rest)[q] == rest[q - 2];
    }
    var s := JoinFront(front + rest, a + c + (b + d), m);
    SumConcat(v0, w0);
    SumPair(front);
    assert (front + rest)[2..] == rest;
    t := BackInOrder(v1, w1, x, s, |b|, m);
  }

  lemma BackInOrder(v1: seq<nat>, w1: seq<nat>, x: nat, s: seq<nat>, n: nat, m: nat) returns (t: seq<nat>)
    requires |s| == |v1| + 1 + |w1| && n == |v1| && KraftFits(s, m)
    ensures |t| == |s| && KraftFits(t, m) && Cost(v1 + [x] + w1, t) == Cost([x] + (v1 + w1), s)
  {
    hide KraftFits, Cost;
    var e, f := s[1..1 + n], s[1 + n..];
    t := e + s[..1] + f;
    assert s == [] + s[..1] + (e + f) && [x] + (v1 + w1) == [] + [x] + (v1 + w1);
    assert t == [] + e + (s[..1] + f) && v1 + [x] + w1 == [] + v1 + ([x] + w1);
    Rearrange([], v1, [x], w1, [], e, s[..1], f, m);
  }

  lemma SumPair(s: seq<nat>)
    requires |s| == 2
    ensures Sum(s) == s[0] + s[1]
  {
    assert s == [s[0]] + [s[1]];
    SumConcat([s[0]], [s[1]]);
    SumOne(s[0]);
    SumOne(s[1]);
  }
}
