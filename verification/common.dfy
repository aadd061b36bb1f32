/** Shared vocabulary: failure-carrying results, the 64-bit word range and
    the small facts about powers and floor division the other modules use. */
module Common {

  /** A value that may be absent (a `false` return from a parser). */
  datatype Option<+T> = None | Some(value: T)

  /** A value or the reason the computation stopped. */
  datatype Result<+R, +E> = Success(value: R) | Failure(error: E)

  /** 2^64: one more than the largest `unsigned long long` / `size_t`. */
  const U64_LIMIT: nat := 0x1_0000_0000_0000_0000

  function Min(a: nat, b: nat): nat {
    if a < b then a else b
  }

  function Pow2(n: nat): (r: nat)
    ensures r >= 1
  {
    if n == 0 then 1 else 2 * Pow2(n - 1)
  }

  /** 1024^k, the divisor after k steps of `>>= 10`. */
  function Pow1024(k: nat): (r: nat)
    ensures r >= 1
  {
    if k == 0 then 1 else 1024 * Pow1024(k - 1)
  }

  lemma {:induction false} Pow2Add(a: nat, b: nat)
    ensures Pow2(a + b) == Pow2(a) * Pow2(b)
    decreases a
  {
    if a > 0 {
      Pow2Add(a - 1, b);
      assert Pow2(a + b) == 2 * Pow2(a - 1 + b);
    }
  }

  lemma Pow2Of10()
    ensures Pow2(10) == 1024
  {
    assert Pow2(5) == 32;
  }

  lemma {:induction false} Pow1024IsPow2(k: nat)
    ensures Pow1024(k) == Pow2(10 * k)
    decreases k
  {
    if k > 0 {
      Pow1024IsPow2(k - 1);
      Pow2Add(10, 10 * (k - 1));
      Pow2Of10();
    }
  }

  lemma Pow2Of64()
    ensures Pow2(64) == U64_LIMIT
  {
    assert Pow2(4) == 16;
    Pow2Add(4, 4);
    assert Pow2(8) == 256;
    Pow2Add(8, 8);
    assert Pow2(16) == 65536;
    Pow2Add(16, 16);
    assert Pow2(32) == 4294967296;
    Pow2Add(32, 32);
  }

  /** A shift left by `k` keeps the value inside 64 bits exactly when the
      value is below 2^(64-k). */
  lemma ShiftFits(ret: nat, k: nat)
    requires k <= 64
    ensures ret < Pow2(64 - k) <==> ret * Pow2(k) < U64_LIMIT
  {
    var p, q := Pow2(64 - k), Pow2(k);
    Pow2Add(64 - k, k);
    assert 64 - k + k == 64;
    Pow2Of64();
    assert p * q == U64_LIMIT;
    if ret < p {
      MulLess(ret, p, q);
    } else if ret > p {
      MulLess(p, ret, q);
    }
  }

  /** Multiplying by a positive factor keeps a strict order. */
  lemma {:induction false} MulLess(x: nat, y: nat, z: nat)
    requires x < y && z > 0
    ensures x * z < y * z
    decreases z
  {
    if z > 1 {
      MulLess(x, y, z - 1);
      assert x * z == x * (z - 1) + x;
      assert y * z == y * (z - 1) + y;
    }
  }

  /** Floor division is determined by any quotient/remainder split. */
  lemma DivUnique(a: nat, d: nat, q: nat, r: nat)
    requires d > 0 && r < d && a == q * d + r
    ensures a / d == q && a % d == r
  {
    var q' := a / d;
    var r' := a % d;
    assert a == q' * d + r';
    if q' > q {
      MulLess(q, q', d);
      AtLeastNextMultiple(q, q', d);
      assert false;
    } else if q' < q {
      AtLeastNextMultiple(q', q, d);
      assert false;
    }
  }

  lemma AtLeastNextMultiple(x: nat, y: nat, d: nat)
    requires x < y
    ensures x * d + d <= y * d
  {
    if d > 0 {
      MulLess(x, y, d);
      assert y * d - x * d == (y - x) * d;
      if y - x > 1 {
        MulLess(1, y - x, d);
      }
    }
  }

  /** Dividing twice is dividing once by the product. */
  lemma DivDiv(a: nat, b: nat, c: nat)
    requires b > 0 && c > 0
    ensures (a / b) / c == a / (b * c)
  {
    var q := a / b;
    var r := a % b;
    var q2 := q / c;
    var r2 := q % c;
    RegroupQuotient(q, q2, r2, b, c);
    RemainderBelow(r2, r, b, c);
    assert a == q2 * (b * c) + (r2 * b + r);
    DivUnique(a, b * c, q2, r2 * b + r);
  }

  lemma RegroupQuotient(q: nat, q2: nat, r2: nat, b: nat, c: nat)
    requires q == q2 * c + r2
    ensures q * b == q2 * (b * c) + r2 * b
  {
    assert q * b == (q2 * c + r2) * b;
    assert (q2 * c + r2) * b == q2 * c * b + r2 * b;
    assert q2 * c * b == q2 * (b * c);
  }

  lemma RemainderBelow(r2: nat, r: nat, b: nat, c: nat)
    requires r2 < c && r < b
    ensures r2 * b + r < b * c
  {
    AtLeastNextMultiple(r2, c, b);
    assert c * b == b * c;
  }
}
