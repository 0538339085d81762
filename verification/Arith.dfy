/** Powers of two and the div/mod facts that shifts and masks rest on. */
module Arith {

  type byte = x: int | 0 <= x < 256
  type uint16 = x: int | 0 <= x < 65536

  function Pow2(n: nat): (r: nat)
    ensures r >= 1
  {
    if n == 0 then 1 else 2 * Pow2(n - 1)
  }

  function Rep(v: nat, k: nat): (r: seq<nat>)
    ensures |r| == k
    ensures forall i :: 0 <= i < k ==> r[i] == v
  {
    seq(k, _ => v)
  }

  function Min(a: int, b: int): int {
    if a < b then a else b
  }

  function Max(a: int, b: int): int {
    if a < b then b else a
  }

  lemma Pow2Table()
    ensures Pow2(0) == 1 && Pow2(1) == 2 && Pow2(2) == 4 && Pow2(3) == 8 && Pow2(4) == 16
    ensures Pow2(5) == 32 && Pow2(6) == 64 && Pow2(7) == 128 && Pow2(8) == 256 && Pow2(9) == 512
    ensures Pow2(10) == 1024 && Pow2(11) == 2048 && Pow2(12) == 4096 && Pow2(13) == 8192
    ensures Pow2(14) == 16384 && Pow2(15) == 32768 && Pow2(16) == 65536
  {
    assert Pow2(4) == 16;
    assert Pow2(8) == 256;
    assert Pow2(12) == 4096;
  }

  lemma {:induction false} Pow2Add(a: nat, b: nat)
    ensures Pow2(a + b) == Pow2(a) * Pow2(b)
  {
    if a == 0 {
    } else {
      Pow2Add(a - 1, b);
      assert Pow2(a + b) == 2 * Pow2(a - 1 + b);
      assert 2 * (Pow2(a - 1) * Pow2(b)) == (2 * Pow2(a - 1)) * Pow2(b);
    }
  }

  lemma {:induction false} Pow2Mono(a: nat, b: nat)
    requires a <= b
    ensures Pow2(a) <= Pow2(b)
    decreases b - a
  {
    if a < b {
      Pow2Mono(a + 1, b);
    }
  }

  /** Quotient and remainder are unique. */
  lemma DivModUnique(x: int, d: int, q: int, r: int)
    requires d > 0 && 0 <= r < d && x == q * d + r
    ensures x / d == q && x % d == r
  {
    var q', r' := x / d, x % d;
    assert x == q' * d + r';
    assert (q' - q) * d == r - r';
    if q' > q {
      MulGe(q' - q, d);
      assert false;
    } else if q' < q {
      MulGe(q - q', d);
      assert false;
    }
  }

  lemma MulGe(k: int, d: int)
    requires k >= 1 && d >= 0
    ensures k * d >= d
  {
    assert k * d == (k - 1) * d + d;
    MulNonNeg(k - 1, d);
  }

  lemma MulNonNeg(a: int, b: int)
    requires a >= 0 && b >= 0
    ensures a * b >= 0
  {
  }

  lemma MulMono(a: int, b: int, c: int)
    requires a <= b && c >= 0
    ensures a * c <= b * c
  {
    MulNonNeg(b - a, c);
    assert (b - a) * c == b * c - a * c;
  }

  lemma DivModOf(x: int, d: int)
    requires d > 0
    ensures x == (x / d) * d + x % d && 0 <= x % d < d
  {
  }

  lemma DivNonNeg(x: nat, d: int)
    requires d > 0
    ensures x / d >= 0 && x / d <= x
  {
    DivModOf(x, d);
    if x / d >= 1 {
      assert x / d * d >= x / d by { MulMono(1, d, x / d); }
    }
  }

  lemma ModAddMul(x: int, q: int, d: int)
    requires d > 0
    ensures (x + q * d) % d == x % d
    ensures (x + q * d) / d == x / d + q
  {
    DivModOf(x, d);
    assert x + q * d == (x / d + q) * d + x % d by {
      assert (x / d + q) * d == (x / d) * d + q * d;
    }
    DivModUnique(x + q * d, d, x / d + q, x % d);
  }

  /** x / (a*b) in two steps, and the matching remainder. */
  lemma DivModMul(x: nat, a: int, b: int)
    requires a > 0 && b > 0
    ensures a * b > 0
    ensures (x / a) / b == x / (a * b)
    ensures x % (a * b) == (x / a) % b * a + x % a
    ensures x % (a * b) % a == x % a
    ensures x % (a * b) / a == (x / a) % b
  {
    var q := x / a;
    DivModOf(x, a);
    DivModOf(q, b);
    var r := q % b * a + x % a;
    MulGe(a, b);
    assert x == (q / b) * (a * b) + r by {
      assert q * a == ((q / b) * b + q % b) * a;
      assert ((q / b) * b + q % b) * a == (q / b) * b * a + q % b * a;
      assert (q / b) * b * a == (q / b) * (a * b);
    }
    assert 0 <= r < a * b by {
      MulMono(q % b, b - 1, a);
      assert (b - 1) * a == a * b - a;
      MulNonNeg(q % b, a);
    }
    DivModUnique(x, a * b, q / b, r);
    DivModUnique(r, a, q % b, x % a);
  }

  lemma DivLt(x: nat, a: int, b: int)
    requires a > 0 && b > 0 && x < a * b
    ensures x / a < b
  {
    DivModOf(x, a);
    if x / a >= b {
      MulMono(b, x / a, a);
      assert false;
    }
  }

  lemma MulCancelLe(a: int, b: int, c: int)
    requires c > 0 && a * c <= b * c
    ensures a <= b
  {
    if a > b {
      MulMono(b + 1, a, c);
      assert false;
    }
  }

  lemma DivLower(x: nat, a: nat, d: nat)
    requires d > 0 && a * d <= x
    ensures a <= x / d
  {
    DivModOf(x, d);
    if x / d < a {
      MulMono(x / d + 1, a, d);
      assert false;
    }
  }

  lemma ModPow2Mod(x: nat, a: nat, b: nat)
    requires a <= b
    ensures x % Pow2(b) % Pow2(a) == x % Pow2(a)
  {
    Pow2Add(a, b - a);
    DivModMul(x, Pow2(a), Pow2(b - a));
  }

  lemma DivPow2Add(x: nat, a: nat, b: nat)
    ensures x / Pow2(a) >= 0
    ensures x / Pow2(a) / Pow2(b) == x / Pow2(a + b)
  {
    Pow2Add(a, b);
    DivModMul(x, Pow2(a), Pow2(b));
    DivNonNeg(x, Pow2(a));
  }

  /** One more low bit: x mod 2^(k+1) is x mod 2^k plus bit k in place. */
  lemma ModPow2Succ(x: nat, k: nat)
    ensures x / Pow2(k) >= 0
    ensures x % Pow2(k + 1) == x % Pow2(k) + x / Pow2(k) % 2 * Pow2(k)
  {
    Pow2Add(k, 1);
    DivModMul(x, Pow2(k), 2);
    DivNonNeg(x, Pow2(k));
  }
}
