/** Sums over the exponents of a polynomial, and the sums that vanish for every multiple of the
    generator. */
module CodeSums {
  import opened Gf2Poly
  import opened ShiftRegister

  /** The parity of those exponents e of p for which f(k + e) holds.  With f a coordinate of the
      powers of a field element, it is that coordinate of the value of p * x^k. */
  predicate Sum(f: nat -> bool, p: seq<bool>, k: nat)
    decreases |p|
  {
    p != [] && (Sum(f, p[..|p| - 1], k + 1) != (p[|p| - 1] && f(k)))
  }

  lemma SumTake(f: nat -> bool, g: seq<bool>, j: nat, k: nat)
    requires j < |g|
    ensures Sum(f, g[..j + 1], k) == (Sum(f, g[..j], k + 1) != (g[j] && f(k)))
  {
    assert g[..j + 1][..j] == g[..j];
  }

  /** Clearing the coefficient of x^e takes its term out of the sum. */
  lemma {:induction false} SumClear(f: nat -> bool, p: seq<bool>, k: nat, i: nat)
    requires i < |p| && p[i]
    ensures Sum(f, p, k) == (Sum(f, p[i := false], k) != f(k + |p| - 1 - i))
    decreases |p|
  {
    var n := |p| - 1;
    if i < n {
      SumClear(f, p[..n], k + 1, i);
      assert p[i := false][..n] == p[..n][i := false];
    } else {
      assert p[i := false][..n] == p[..n];
    }
  }

  lemma {:induction false} SumZeros(f: nat -> bool, n: nat, k: nat)
    ensures !Sum(f, Zeros(n), k)
    decreases n
  {
    if n > 0 {
      SumZeros(f, n - 1, k + 1);
      assert Zeros(n)[..n - 1] == Zeros(n - 1);
    }
  }

  lemma {:induction false} SumXor(f: nat -> bool, p: seq<bool>, q: seq<bool>, k: nat)
    requires |p| == |q|
    ensures Sum(f, Xor(p, q), k) == (Sum(f, p, k) != Sum(f, q, k))
    decreases |p|
  {
    if p != [] {
      var n := |p| - 1;
      SumXor(f, p[..n], q[..n], k + 1);
      assert Xor(p, q)[..n] == Xor(p[..n], q[..n]);
    }
  }

  // ----- The generator's roots -----

  /** The sum for x^11 + x^9 + x^8 + x^7 + x^2 + 1, times x^k. */
  predicate GeneratorSum(f: nat -> bool, k: nat) {
    f(k + 11) != (f(k + 9) != (f(k + 8) != (f(k + 7) != (f(k + 2) != f(k)))))
  }

  ghost predicate Root(f: nat -> bool) {
    forall k: nat :: !GeneratorSum(f, k)
  }

  lemma SumGenerator(f: nat -> bool, n: nat, k: nat)
    ensures Sum(f, Zeros(n) + GENERATOR, k) == GeneratorSum(f, k)
  {
    var g := Zeros(n) + GENERATOR;
    SumZeros(f, n, k + 12);
    assert g[..n] == Zeros(n);
    SumTake(f, g, n, k + 11);
    SumTake(f, g, n + 1, k + 10);
    SumTake(f, g, n + 2, k + 9);
    SumTake(f, g, n + 3, k + 8);
    SumTake(f, g, n + 4, k + 7);
    SumTake(f, g, n + 5, k + 6);
    SumTake(f, g, n + 6, k + 5);
    SumTake(f, g, n + 7, k + 4);
    SumTake(f, g, n + 8, k + 3);
    SumTake(f, g, n + 9, k + 2);
    SumTake(f, g, n + 10, k + 1);
    SumTake(f, g, n + 11, k);
    assert g[..n + 12] == g;
  }

  /** A sum that vanishes for the generator times every power of x vanishes for every multiple
      of the generator. */
  lemma {:induction false} SumMultiple(f: nat -> bool, q: seq<bool>, k: nat)
    requires Root(f)
    ensures !Sum(f, Mul(q, GENERATOR), k)
    decreases |q|
  {
    if q == [] {
      SumZeros(f, 11, k);
    } else {
      var n := |q| - 1;
      var p := Mul(q[..n], GENERATOR);
      SumMultiple(f, q[..n], k + 1);
      assert (p + [false])[..|p|] == p;
      SumZeros(f, n + 12, k);
      assert Zeros(n) + Zeros(12) == Zeros(n + 12);
      SumGenerator(f, n, k);
      assert !GeneratorSum(f, k);
      SumXor(f, p + [false], Zeros(n) + Scale(q[n], GENERATOR), k);
    }
  }
}
