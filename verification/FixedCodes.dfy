/** The fixed Huffman codes of section 3.2.6 of RFC 1951 are complete. */
module FixedCodes {
  import opened Arith
  import opened Canonical
  import opened Format

  lemma {:induction false} CountRun(a: Lens, v: nat, k: nat, l: nat)
    ensures Count(a + Rep(v, k), l) == Count(a, l) + (if v == l then k else 0)
    decreases k
  {
    if k == 0 {
      assert a + Rep(v, k) == a;
    } else {
      CountRun(a, v, k - 1, l);
      assert (a + Rep(v, k))[..|a| + k - 1] == a + Rep(v, k - 1);
    }
  }

  lemma FixedLitCount(l: nat)
    ensures Count(FixedLit(), l) == if l == 7 then 24 else if l == 8 then 152 else if l == 9 then 112 else 0
  {
    var a := Rep(8, 144);
    assert [] + a == a;
    CountRun([], 8, 144, l);
    CountRun(a, 9, 112, l);
    CountRun(a + Rep(9, 112), 7, 24, l);
    CountRun(a + Rep(9, 112) + Rep(7, 24), 8, 8, l);
  }

  lemma FixedDistCount(l: nat)
    ensures Count(FixedDist(), l) == if l == 5 then 32 else 0
  {
    assert [] + Rep(5, 32) == Rep(5, 32);
    CountRun([], 5, 32, l);
  }

  /** Below the shortest code nothing is assigned. */
  lemma {:induction false} NextCodeZero(lens: Lens, l: nat)
    requires forall k :: 1 <= k < l ==> Count(lens, k) == 0
    ensures NextCode(lens, l) == 0
    decreases l
  {
    if l > 1 {
      NextCodeZero(lens, l - 1);
    }
  }

  lemma FixedDecodable()
    ensures Decodable(FixedLit()) && Decodable(FixedDist())
  {
    Pow2Table();
    var ll, dl := FixedLit(), FixedDist();
    forall k | 1 <= k < 10
      ensures Count(ll, k) == if k == 7 then 24 else if k == 8 then 152 else if k == 9 then 112 else 0
      ensures Count(dl, k) == if k == 5 then 32 else 0
    {
      FixedLitCount(k);
      FixedDistCount(k);
    }
    NextCodeZero(ll, 7);
    NextCodeZero(dl, 5);
    assert NextCode(ll, 8) == 48;
    assert NextCode(ll, 9) == 400;
    assert NextCode(ll, 10) == 1024;
    assert NextCode(dl, 6) == 64;
    NextCodeDoubles(ll, 9, 15);
    NextCodeDoubles(dl, 5, 15);
  }

  /** How many of the first k symbols have length l. */
  lemma {:induction false} FixedLitBefore(k: nat, l: nat)
    requires k <= 288
    ensures Count(FixedLit()[..k], l) ==
        (if l == 8 then Min(k, 144) + Max(k - 280, 0)
         else if l == 9 then Max(Min(k, 256) - 144, 0)
         else if l == 7 then Max(Min(k, 280) - 256, 0)
         else 0)
  {
    if k > 0 {
      FixedLitBefore(k - 1, l);
      assert FixedLit()[..k][..k - 1] == FixedLit()[..k - 1];
    }
  }

  lemma {:induction false} FixedDistBefore(k: nat)
    requires k <= 32
    ensures Count(FixedDist()[..k], 5) == k
  {
    if k > 0 {
      FixedDistBefore(k - 1);
      assert FixedDist()[..k][..k - 1] == FixedDist()[..k - 1];
    }
  }

  lemma FixedNextCodes()
    ensures NextCode(FixedLit(), 7) == 0 && NextCode(FixedLit(), 8) == 48 && NextCode(FixedLit(), 9) == 400
    ensures NextCode(FixedDist(), 5) == 0
  {
    var ll, dl := FixedLit(), FixedDist();
    forall k | 1 <= k < 9
      ensures Count(ll, k) == if k == 7 then 24 else if k == 8 then 152 else 0
      ensures k < 5 ==> Count(dl, k) == 0
    {
      FixedLitCount(k);
      FixedDistCount(k);
    }
    NextCodeZero(ll, 7);
    NextCodeZero(dl, 5);
  }

  /** The code table of section 3.2.6: the lengths, and the codes that the canonical assignment makes of them. */
  lemma FixedLitTable(k: nat)
    requires k < 288
    ensures |FixedLit()| == 288
    ensures k < 144 ==> FixedLit()[k] == 8 && Code(FixedLit(), k) == 48 + k
    ensures 144 <= k < 256 ==> FixedLit()[k] == 9 && Code(FixedLit(), k) == 400 + (k - 144)
    ensures 256 <= k < 280 ==> FixedLit()[k] == 7 && Code(FixedLit(), k) == k - 256
    ensures 280 <= k ==> FixedLit()[k] == 8 && Code(FixedLit(), k) == 192 + (k - 280)
  {
    hide NextCode, Count;
    FixedNextCodes();
    FixedLitBefore(k, FixedLit()[k]);
  }

  /** All 32 distance codes have five bits. */
  lemma FixedDistTable(k: nat)
    requires k < 32
    ensures |FixedDist()| == 32 && FixedDist()[k] == 5 && Code(FixedDist(), k) == k
  {
    hide NextCode, Count;
    FixedNextCodes();
    FixedDistBefore(k);
  }
}
