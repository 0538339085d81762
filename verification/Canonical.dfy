/** Canonical Huffman codes (section 3.2.2 of RFC 1951), built from code lengths alone. */
module Canonical {
  import opened Arith
  import opened Bits

  type Lens = seq<nat>

  /** bl_count: how many symbols have length l. */
  function Count(lens: Lens, l: nat): nat {
    if lens == [] then 0
    else Count(lens[..|lens| - 1], l) + (if lens[|lens| - 1] == l then 1 else 0)
  }

  /** How many symbols have a code at all. */
  function Used(lens: Lens): nat {
    if lens == [] then 0
    else Used(lens[..|lens| - 1]) + (if lens[|lens| - 1] != 0 then 1 else 0)
  }

  /** next_code: the first code of length l. */
  function NextCode(lens: Lens, l: nat): nat
    decreases l, lens
  {
    if l <= 1 then 0 else 2 * (NextCode(lens, l - 1) + Count(lens, l - 1))
  }

  /** The code of symbol s, most significant bit first. */
  function Code(lens: Lens, s: nat): nat
    requires s < |lens|
  {
    NextCode(lens, lens[s]) + Count(lens[..s], lens[s])
  }

  /** The code of symbol s as the number its bits spell in stream order. */
  function RevCode(lens: Lens, s: nat): nat
    requires s < |lens|
  {
    Reverse(Code(lens, s), lens[s])
  }

  /** The lengths a decoder accepts: they fill the code space exactly, or at most one symbol is used. */
  predicate Decodable(lens: Lens) {
    && (forall i :: 0 <= i < |lens| ==> lens[i] <= 15)
    && (NextCode(lens, 16) == 65536 || Used(lens) <= 1)
  }

  lemma {:induction false} CountAfter(lens: Lens, s: nat, l: nat)
    requires s < |lens|
    ensures Count(lens, l) >= Count(lens[..s], l) + (if lens[s] == l then 1 else 0)
    decreases |lens|
  {
    var r := lens[..|lens| - 1];
    if s < |lens| - 1 {
      CountAfter(r, s, l);
      assert r[..s] == lens[..s];
    }
  }

  lemma {:induction false} UsedAfter(lens: Lens, s: nat)
    requires s < |lens|
    ensures Used(lens) >= Used(lens[..s]) + (if lens[s] != 0 then 1 else 0)
    decreases |lens|
  {
    var r := lens[..|lens| - 1];
    if s < |lens| - 1 {
      UsedAfter(r, s);
      assert r[..s] == lens[..s];
    }
  }

  /** Ranks among symbols of one length strictly increase. */
  lemma RankIncreases(lens: Lens, s: nat, t: nat)
    requires s < t < |lens| && lens[s] == lens[t]
    ensures Count(lens[..s], lens[s]) < Count(lens[..t], lens[t])
  {
    CountAfter(lens[..t], s, lens[s]);
    assert lens[..t][..s] == lens[..s];
  }

  lemma UsedTwo(lens: Lens, s: nat, t: nat)
    requires s < t < |lens| && lens[s] != 0 && lens[t] != 0
    ensures Used(lens) >= 2
  {
    UsedAfter(lens, t);
    UsedAfter(lens[..t], s);
  }

  /** All codes of length l lie, extended to length m, below the first code of length m. */
  lemma {:induction false} NextCodeGrows(lens: Lens, l: nat, m: nat)
    requires 1 <= l < m
    ensures (NextCode(lens, l) + Count(lens, l)) * Pow2(m - l) <= NextCode(lens, m)
    decreases m
  {
    if m == l + 1 {
    } else {
      NextCodeGrows(lens, l, m - 1);
      var c := NextCode(lens, l) + Count(lens, l);
      var p := Pow2(m - 1 - l);
      assert c * (2 * p) == 2 * (c * p);
    }
  }

  lemma {:induction false} CountBelowUsed(lens: Lens, l: nat)
    requires l > 0
    ensures Count(lens, l) <= Used(lens)
  {
    if lens != [] {
      CountBelowUsed(lens[..|lens| - 1], l);
    }
  }

  /** When one symbol is used, nothing precedes its code. */
  lemma {:induction false} SingleNextCode(lens: Lens, s: nat, l: nat)
    requires s < |lens| && lens[s] != 0 && Used(lens) <= 1 && l <= lens[s]
    ensures NextCode(lens, l) == 0
    decreases l
  {
    if l > 1 {
      SingleNextCode(lens, s, l - 1);
      if Count(lens, l - 1) > 0 {
        var t := FindLength(lens, l - 1);
        if s < t { UsedTwo(lens, s, t); } else { UsedTwo(lens, t, s); }
        assert false;
      }
    }
  }

  lemma {:induction false} FindLength(lens: Lens, l: nat) returns (t: nat)
    requires Count(lens, l) > 0
    ensures t < |lens| && lens[t] == l
  {
    if lens[|lens| - 1] == l {
      t := |lens| - 1;
    } else {
      t := FindLength(lens[..|lens| - 1], l);
    }
  }

  /** When the code space is full at level k, the codes of length l stay inside l bits. */
  lemma LevelBound(lens: Lens, l: nat, k: nat)
    requires 1 <= l < k && NextCode(lens, k) == Pow2(k)
    ensures NextCode(lens, l) + Count(lens, l) <= Pow2(l)
  {
    hide NextCode, Count, Pow2;
    NextCodeGrows(lens, l, k);
    Pow2Add(l, k - l);
    MulCancelLe(NextCode(lens, l) + Count(lens, l), Pow2(l), Pow2(k - l));
  }

  /** Codes fit their lengths. */
  lemma CodeBound(lens: Lens, s: nat)
    requires Decodable(lens) && s < |lens| && lens[s] != 0
    ensures Code(lens, s) < Pow2(lens[s])
  {
    var l := lens[s];
    CountAfter(lens, s, l);
    if NextCode(lens, 16) == 65536 {
      Pow2Table();
      LevelBound(lens, l, 16);
    } else {
      SingleNextCode(lens, s, l);
      CountBelowUsed(lens, l);
    }
  }

  /** Cut to the length of an earlier code, a longer code is numerically above it. */
  lemma LongerIsLater(lens: Lens, s: nat, t: nat)
    requires s < |lens| && t < |lens| && 0 < lens[s] < lens[t]
    ensures Code(lens, s) < Code(lens, t) / Pow2(lens[t] - lens[s])
  {
    var l, m := lens[s], lens[t];
    NextCodeGrows(lens, l, m);
    CountAfter(lens, s, l);
    MulMono(Code(lens, s) + 1, NextCode(lens, l) + Count(lens, l), Pow2(m - l));
    DivLower(Code(lens, t), Code(lens, s) + 1, Pow2(m - l));
  }

  lemma CodesDiffer(lens: Lens, s: nat, t: nat)
    requires s < |lens| && t < |lens| && s != t && 0 < lens[s] <= lens[t]
    ensures Code(lens, t) / Pow2(lens[t] - lens[s]) != Code(lens, s)
  {
    if lens[s] < lens[t] {
      LongerIsLater(lens, s, t);
    } else if s < t {
      RankIncreases(lens, s, t);
    } else {
      RankIncreases(lens, t, s);
    }
  }

  /** No code is a prefix of another. */
  lemma PrefixFree(lens: Lens, s: nat, t: nat)
    requires Decodable(lens) && s < |lens| && t < |lens| && s != t
    requires 0 < lens[s] <= lens[t]
    ensures RevCode(lens, t) % Pow2(lens[s]) != RevCode(lens, s)
  {
    var l, m := lens[s], lens[t];
    CodeBound(lens, s);
    CodeBound(lens, t);
    ReverseLow(Code(lens, t), m, l);
    Pow2Add(m - l, l);
    DivLt(Code(lens, t), Pow2(m - l), Pow2(l));
    CodesDiffer(lens, s, t);
    var c := Code(lens, t) / Pow2(m - l);
    if Reverse(c, l) == RevCode(lens, s) {
      ReverseInjective(c, Code(lens, s), l);
    }
  }

  /** Codes depend only on the lengths up to the last used symbol. */
  lemma {:induction false} CountTrim(lens: Lens, n: nat, l: nat)
    requires n <= |lens| && l > 0
    requires forall i :: n <= i < |lens| ==> lens[i] == 0
    ensures Count(lens[..n], l) == Count(lens, l)
    ensures Used(lens[..n]) == Used(lens)
    decreases |lens|
  {
    if n == |lens| {
      assert lens[..n] == lens;
    } else {
      var r := lens[..|lens| - 1];
      CountTrim(r, n, l);
      assert r[..n] == lens[..n];
    }
  }

  lemma {:induction false} NextCodeTrim(lens: Lens, n: nat, l: nat)
    requires n <= |lens|
    requires forall i :: n <= i < |lens| ==> lens[i] == 0
    ensures NextCode(lens[..n], l) == NextCode(lens, l)
    decreases l
  {
    if l > 1 {
      NextCodeTrim(lens, n, l - 1);
      CountTrim(lens, n, l - 1);
    }
  }

  lemma TrimCodes(lens: Lens, n: nat)
    requires n <= |lens|
    requires forall i :: n <= i < |lens| ==> lens[i] == 0
    ensures Decodable(lens) ==> Decodable(lens[..n])
    ensures forall s :: 0 <= s < n ==> RevCode(lens[..n], s) == RevCode(lens, s)
  {
    NextCodeTrim(lens, n, 16);
    CountTrim(lens, n, 1);
    forall s | 0 <= s < n
      ensures RevCode(lens[..n], s) == RevCode(lens, s)
    {
      NextCodeTrim(lens, n, lens[s]);
      assert lens[..n][..s] == lens[..s];
    }
  }

  lemma {:induction false} NoneLonger(lens: Lens, l: nat)
    requires forall i :: 0 <= i < |lens| ==> lens[i] < l
    ensures Count(lens, l) == 0
  {
    if lens != [] {
      NoneLonger(lens[..|lens| - 1], l);
    }
  }

  /** Past the longest code the next code only doubles. */
  lemma {:induction false} NextCodeDoubles(lens: Lens, k: nat, l: nat)
    requires k <= l && forall i :: 0 <= i < |lens| ==> lens[i] <= k
    ensures NextCode(lens, l + 1) == NextCode(lens, k + 1) * Pow2(l - k)
    decreases l
  {
    if k < l {
      NextCodeDoubles(lens, k, l - 1);
      NoneLonger(lens, l);
      assert NextCode(lens, k + 1) * (2 * Pow2(l - 1 - k)) == 2 * (NextCode(lens, k + 1) * Pow2(l - 1 - k));
    }
  }

  /** The bits that stand for symbol s in the stream. */
  function EncSym(lens: Lens, s: nat): (b: Bits)
    requires s < |lens|
    ensures |b| == lens[s]
  {
    ToBits(RevCode(lens, s), lens[s])
  }

  lemma EncSymVal(lens: Lens, s: nat)
    requires s < |lens|
    ensures Val(EncSym(lens, s)) == RevCode(lens, s) < Pow2(lens[s])
  {
    ReverseBound(Code(lens, s), lens[s]);
    ValToBits(RevCode(lens, s), lens[s]);
    DivModUnique(RevCode(lens, s), Pow2(lens[s]), 0, RevCode(lens, s));
  }
}
