/** Bit strings, least significant bit first, and the bytes that hold them (section 3.1.1 of RFC 1951). */
module Bits {
  import opened Arith

  type Bits = seq<bool>
  type Bytes = seq<byte>

  function Bit(b: bool): nat {
    if b then 1 else 0
  }

  /** The number a bit string spells, first bit least significant. */
  function Val(s: Bits): nat {
    if s == [] then 0 else Bit(s[0]) + 2 * Val(s[1..])
  }

  /** The low n bits of v. */
  function ToBits(v: nat, n: nat): (s: Bits)
    ensures |s| == n
    decreases n, v
  {
    if n == 0 then [] else [v % 2 == 1] + ToBits(v / 2, n - 1)
  }

  /** Fixed-width fields one after another. */
  function Fields(vs: seq<nat>, w: nat): Bits {
    if vs == [] then [] else ToBits(vs[0], w) + Fields(vs[1..], w)
  }

  lemma {:induction false} FieldsLength(vs: seq<nat>, w: nat)
    ensures |Fields(vs, w)| == w * |vs|
  {
    if vs != [] {
      FieldsLength(vs[1..], w);
      assert w * |vs| == w * (|vs| - 1) + w;
    }
  }

  function BytesBits(bs: Bytes): (s: Bits)
    ensures |s| == 8 * |bs|
  {
    FieldsLength(bs, 8);
    Fields(bs, 8)
  }

  lemma {:induction false} ValBound(s: Bits)
    ensures Val(s) < Pow2(|s|)
  {
    if s != [] {
      ValBound(s[1..]);
    }
  }

  lemma {:induction false} ValToBits(v: nat, n: nat)
    ensures Val(ToBits(v, n)) == v % Pow2(n)
    decreases n
  {
    if n == 0 {
    } else {
      ValToBits(v / 2, n - 1);
      assert ToBits(v, n)[1..] == ToBits(v / 2, n - 1);
      DivModMul(v, 2, Pow2(n - 1));
    }
  }

  lemma {:induction false} ToBitsVal(s: Bits)
    ensures ToBits(Val(s), |s|) == s
  {
    if s != [] {
      ToBitsVal(s[1..]);
      assert Val(s) / 2 == Val(s[1..]);
    }
  }

  lemma {:induction false} ValConcat(a: Bits, b: Bits)
    ensures Val(a + b) == Val(a) + Pow2(|a|) * Val(b)
  {
    if a == [] {
      assert a + b == b;
    } else {
      ValConcat(a[1..], b);
      assert (a + b)[1..] == a[1..] + b;
      assert 2 * (Pow2(|a| - 1) * Val(b)) == Pow2(|a|) * Val(b);
    }
  }

  /** Splitting a number's bits after the first n. */
  lemma {:induction false} ToBitsSplit(v: nat, n: nat, m: nat)
    ensures v / Pow2(n) >= 0
    ensures ToBits(v, n + m) == ToBits(v, n) + ToBits(v / Pow2(n), m)
    decreases n
  {
    DivNonNeg(v, Pow2(n));
    if n == 0 {
    } else {
      ToBitsSplit(v / 2, n - 1, m);
      DivModMul(v, 2, Pow2(n - 1));
    }
  }

  lemma {:induction false} ToBitsMod(v: nat, n: nat)
    ensures ToBits(v % Pow2(n), n) == ToBits(v, n)
  {
    ValToBits(v, n);
    ToBitsVal(ToBits(v, n));
  }

  /** OR-ing a value in above n occupied bits appends its bits. */
  lemma ToBitsJoin(a: nat, b: nat, n: nat, m: nat)
    requires a < Pow2(n)
    ensures ToBits(a + b * Pow2(n), n + m) == ToBits(a, n) + ToBits(b, m)
  {
    var v := a + b * Pow2(n);
    ToBitsSplit(v, n, m);
    DivModUnique(v, Pow2(n), b, a);
    ToBitsMod(v, n);
  }

  lemma ValSplitArith(v: nat, d: nat, lo: nat, hi: nat)
    requires lo < d && v == lo + d * hi
    ensures v % d == lo && v / d == hi
  {
    DivModUnique(v, d, hi, lo);
  }

  /** The value of a prefix is the low part, the value of what follows the high part. */
  lemma ValSplit(s: Bits, n: nat)
    requires n <= |s|
    ensures Val(s[..n]) == Val(s) % Pow2(n)
    ensures Val(s[n..]) == Val(s) / Pow2(n)
  {
    var lo, hi := s[..n], s[n..];
    assert lo + hi == s;
    ValConcat(lo, hi);
    ValBound(lo);
    ValSplitArith(Val(s), Pow2(n), Val(lo), Val(hi));
  }

  lemma ConcatAssoc(a: Bits, b: Bits, c: Bits)
    ensures a + (b + c) == (a + b) + c
  {
  }

  lemma {:induction false} FieldsConcat(a: seq<nat>, b: seq<nat>, w: nat)
    ensures Fields(a + b, w) == Fields(a, w) + Fields(b, w)
  {
    if a == [] {
      assert a + b == b;
    } else {
      var r := a[1..];
      calc {
        Fields(a + b, w);
      == { assert (a + b)[1..] == r + b; }
        ToBits(a[0], w) + Fields(r + b, w);
      == { FieldsConcat(r, b, w); }
        ToBits(a[0], w) + (Fields(r, w) + Fields(b, w));
      == { ConcatAssoc(ToBits(a[0], w), Fields(r, w), Fields(b, w)); }
        Fields(a, w) + Fields(b, w);
      }
    }
  }

  lemma MiddleSlice(s: Bits, a: Bits, b: Bits, c: Bits, i: int, j: int)
    requires s == a + (b + c) && i == |a| && j == i + |b|
    ensures s[i..j] == b
  {
  }

  lemma FieldsParts(a: seq<nat>, b: seq<nat>, c: seq<nat>, w: nat)
    ensures Fields(a + (b + c), w) == Fields(a, w) + (Fields(b, w) + Fields(c, w))
    ensures |Fields(a, w)| == w * |a| && |Fields(b, w)| == w * |b|
  {
    FieldsConcat(a, b + c, w);
    FieldsConcat(b, c, w);
    FieldsLength(a, w);
    FieldsLength(b, w);
  }

  /** The bits of a range of fields are the matching bit range. */
  lemma FieldsSlice(vs: seq<nat>, w: nat, i: nat, j: nat)
    requires i <= j <= |vs|
    ensures 0 <= w * i <= w * i + w * (j - i) <= |Fields(vs, w)|
    ensures Fields(vs[i..j], w) == Fields(vs, w)[w * i..w * i + w * (j - i)]
  {
    var a, b, c := vs[..i], vs[i..j], vs[j..];
    assert vs == a + (b + c);
    FieldsParts(a, b, c, w);
    MiddleSlice(Fields(vs, w), Fields(a, w), Fields(b, w), Fields(c, w), w * i, w * i + w * (j - i));
  }

  lemma BytesBitsConcat(a: Bytes, b: Bytes)
    ensures BytesBits(a + b) == BytesBits(a) + BytesBits(b)
  {
    FieldsConcat(a, b, 8);
  }

  lemma FieldsOne(v: nat, w: nat)
    ensures Fields([v], w) == ToBits(v, w)
  {
    assert [v][1..] == [];
  }

  lemma BytesBitsAppend(a: Bytes, c: byte)
    ensures BytesBits(a + [c]) == BytesBits(a) + ToBits(c, 8)
  {
    FieldsConcat(a, [c], 8);
    FieldsOne(c, 8);
  }

  lemma FieldsAt(vs: seq<nat>, w: nat, i: nat)
    requires i < |vs|
    ensures 0 <= w * i <= w * i + w <= |Fields(vs, w)|
    ensures Fields(vs, w)[w * i..w * i + w] == ToBits(vs[i], w)
  {
    FieldsSlice(vs, w, i, i + 1);
    assert vs[i..i + 1] == [vs[i]];
    FieldsOne(vs[i], w);
  }

  lemma BytesBitsAt(bs: Bytes, i: nat)
    requires i < |bs|
    ensures BytesBits(bs)[8 * i..8 * i + 8] == ToBits(bs[i], 8)
  {
    FieldsAt(bs, 8, i);
  }

  /** The bit string b stands in s at position p. */
  predicate At(s: Bits, p: nat, b: Bits) {
    p + |b| <= |s| && s[p..p + |b|] == b
  }

  lemma AtConcat(s: Bits, p: nat, a: Bits, b: Bits)
    ensures At(s, p, a + b) <==> At(s, p, a) && At(s, p + |a|, b)
  {
    if At(s, p, a + b) {
      assert s[p..p + |a|] == (a + b)[..|a|] == a;
      assert s[p + |a|..p + |a| + |b|] == (a + b)[|a|..] == b;
    }
    if At(s, p, a) && At(s, p + |a|, b) {
      assert s[p..p + |a| + |b|] == a + b;
    }
  }

  lemma AtSlice(s: Bits, p: nat, b: Bits, i: nat, j: nat)
    requires At(s, p, b) && i <= j <= |b|
    ensures p + j <= |s| && s[p + i..p + j] == b[i..j]
  {
    forall k | 0 <= k < j - i
      ensures s[p + i..p + j][k] == b[i..j][k]
    {
      assert s[p..p + |b|][i + k] == b[i + k];
    }
  }

  /** Mirror image of the low l bits of c: Huffman codes enter the stream most significant bit first. */
  function Reverse(c: nat, l: nat): nat
    decreases l, c
  {
    if l == 0 then 0 else c % 2 * Pow2(l - 1) + Reverse(c / 2, l - 1)
  }

  lemma {:induction false} ReverseBound(c: nat, l: nat)
    ensures Reverse(c, l) < Pow2(l)
    decreases l
  {
    if l > 0 {
      ReverseBound(c / 2, l - 1);
      assert c % 2 * Pow2(l - 1) <= Pow2(l - 1);
    }
  }

  /** The low j bits of a reversed code are its leading j bits, reversed. */
  lemma {:induction false} ReverseLow(c: nat, l: nat, j: nat)
    requires j <= l
    ensures c / Pow2(l - j) >= 0
    ensures Reverse(c, l) % Pow2(j) == Reverse(c / Pow2(l - j), j)
    decreases l - j
  {
    DivNonNeg(c, Pow2(l - j));
    if j == l {
      ReverseBound(c, l);
      DivModUnique(Reverse(c, l), Pow2(l), 0, Reverse(c, l));
    } else {
      ReverseLow(c / 2, l - 1, j);
      DivModMul(c, 2, Pow2(l - 1 - j));
      ReverseTop(c, l, j);
    }
  }

  lemma ReverseTop(c: nat, l: nat, j: nat)
    requires j < l
    ensures Reverse(c, l) % Pow2(j) == Reverse(c / 2, l - 1) % Pow2(j)
  {
    Pow2Add(j, l - 1 - j);
    var p, q := Pow2(j), Pow2(l - 1 - j);
    assert c % 2 * (p * q) == c % 2 * q * p;
    ModAddMul(Reverse(c / 2, l - 1), c % 2 * q, p);
  }

  lemma {:induction false} ReverseInjective(c: nat, d: nat, l: nat)
    requires c < Pow2(l) && d < Pow2(l) && Reverse(c, l) == Reverse(d, l)
    ensures c == d
    decreases l
  {
    if l > 0 {
      ReverseBound(c / 2, l - 1);
      ReverseBound(d / 2, l - 1);
      assert c % 2 == d % 2 by {
        DivModUnique(Reverse(c, l), Pow2(l - 1), c % 2, Reverse(c / 2, l - 1));
        DivModUnique(Reverse(d, l), Pow2(l - 1), d % 2, Reverse(d / 2, l - 1));
      }
      ReverseInjective(c / 2, d / 2, l - 1);
    }
  }
}
