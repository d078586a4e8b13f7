/** Polynomials over GF(2), written as their coefficients with the highest power first.

    The length of the sequence is part of the value: a leading `false` is a zero
    coefficient, and two polynomials are added only at the same length.  This is the
    order in which FlexRay sends bits, so a message is a polynomial as it stands. */
module Gf2Poly {

  function Zeros(n: nat): (z: seq<bool>)
    ensures |z| == n
    ensures forall i :: 0 <= i < n ==> !z[i]
  {
    seq(n, _ => false)
  }

  /** The sum of two polynomials of the same length. */
  function Xor(a: seq<bool>, b: seq<bool>): (c: seq<bool>)
    requires |a| == |b|
    ensures |c| == |a|
    ensures forall i :: 0 <= i < |c| ==> c[i] == (a[i] != b[i])
  {
    seq(|a|, i requires 0 <= i < |a| => a[i] != b[i])
  }

  function Scale(c: bool, p: seq<bool>): (r: seq<bool>)
    ensures |r| == |p|
  {
    if c then p else Zeros(|p|)
  }

  /** The product q * g, by the school method: (q * x + c) * g == (q * g) * x + c * g. */
  function Mul(q: seq<bool>, g: seq<bool>): (r: seq<bool>)
    requires |g| > 0
    ensures |r| == |q| + |g| - 1
  {
    if q == [] then Zeros(|g| - 1)
    else
      var n := |q| - 1;
      Xor(Mul(q[..n], g) + [false], Zeros(n) + Scale(q[n], g))
  }

  /** The number of non-zero coefficients (the Hamming weight). */
  function Weight(p: seq<bool>): nat
  {
    if p == [] then 0 else Weight(p[..|p| - 1]) + if p[|p| - 1] then 1 else 0
  }

  lemma MulSnoc(q: seq<bool>, c: bool, g: seq<bool>)
    requires |g| > 0
    ensures Mul(q + [c], g) == Xor(Mul(q, g) + [false], Zeros(|q|) + Scale(c, g))
  {
    assert (q + [c])[..|q|] == q;
  }

  lemma XorSnoc(a: seq<bool>, b: seq<bool>, c: bool, d: bool)
    requires |a| == |b|
    ensures Xor(a + [c], b + [d]) == Xor(a, b) + [c != d]
  {
  }

  lemma XorConcat(a: seq<bool>, b: seq<bool>, c: seq<bool>, d: seq<bool>)
    requires |a| == |b| && |c| == |d|
    ensures Xor(a + c, b + d) == Xor(a, b) + Xor(c, d)
  {
  }

  lemma XorCancel(a: seq<bool>, b: seq<bool>)
    requires |a| == |b|
    ensures Xor(Xor(a, b), b) == a
  {
  }

  lemma XorMoves(a: seq<bool>, b: seq<bool>, c: seq<bool>)
    requires |a| == |b| == |c|
    ensures a == Xor(b, c) <==> Xor(a, c) == b
  {
    XorCancel(a, c);
    XorCancel(b, c);
  }

  lemma XorCommutes(a: seq<bool>, b: seq<bool>)
    requires |a| == |b|
    ensures Xor(a, b) == Xor(b, a)
  {
  }

  /** The last step of two products, added up. */
  lemma LastStepXor(a: seq<bool>, b: seq<bool>, n: nat, c: bool, d: bool, g: seq<bool>)
    requires |a| == |b| && |a| + 1 == n + |g|
    ensures Xor(Xor(a, b) + [false], Zeros(n) + Scale(c != d, g)) ==
            Xor(Xor(a + [false], Zeros(n) + Scale(c, g)), Xor(b + [false], Zeros(n) + Scale(d, g)))
  {
  }

  /** Multiplication distributes over addition. */
  lemma {:induction false} MulXor(p: seq<bool>, q: seq<bool>, g: seq<bool>)
    requires |p| == |q| && |g| > 0
    ensures Mul(Xor(p, q), g) == Xor(Mul(p, g), Mul(q, g))
  {
    if p != [] {
      hide Scale;
      var n := |p| - 1;
      MulXor(p[..n], q[..n], g);
      assert Xor(p, q)[..n] == Xor(p[..n], q[..n]);
      LastStepXor(Mul(p[..n], g), Mul(q[..n], g), n, p[n], q[n], g);
    }
  }

  /** A product with leading coefficient 1 shows its whole quotient: if as many leading
      coefficients of q * g as q has are zero, then q is zero. */
  lemma {:induction false} LeadingZeros(q: seq<bool>, g: seq<bool>)
    requires |g| > 0 && g[0]
    requires forall i :: 0 <= i < |q| ==> !Mul(q, g)[i]
    ensures q == Zeros(|q|) && Mul(q, g) == Zeros(|q| + |g| - 1)
  {
    if q != [] {
      var n := |q| - 1;
      forall i | 0 <= i < n ensures !Mul(q[..n], g)[i] {
        assert !Mul(q, g)[i];
      }
      LeadingZeros(q[..n], g);
      assert !Mul(q, g)[n];
    }
  }

  /** A multiple of g is known from its leading coefficients: the last |g| - 1 follow. */
  lemma {:induction false} LeadingPartDecides(p: seq<bool>, q: seq<bool>, g: seq<bool>)
    requires |g| > 0 && g[0] && |p| == |q|
    requires Mul(p, g)[..|p|] == Mul(q, g)[..|q|]
    ensures p == q
  {
    MulXor(p, q, g);
    forall i | 0 <= i < |p| ensures !Mul(Xor(p, q), g)[i] {
      assert Mul(p, g)[i] == Mul(p, g)[..|p|][i] == Mul(q, g)[..|q|][i] == Mul(q, g)[i];
    }
    LeadingZeros(Xor(p, q), g);
    assert forall i :: 0 <= i < |p| ==> p[i] == (Xor(p, q)[i] != q[i]);
  }

  /** Multiplying the quotient by x multiplies the product by x. */
  lemma MulTimesX(q: seq<bool>, g: seq<bool>)
    requires |g| > 0
    ensures Mul(q + [false], g) == Mul(q, g) + [false]
  {
    MulSnoc(q, false, g);
  }

  /** The constant term of a product. */
  lemma MulConstantTerm(q: seq<bool>, g: seq<bool>)
    requires |g| > 0 && q != []
    ensures Mul(q, g)[|q| + |g| - 2] == (q[|q| - 1] && g[|g| - 1])
  {
  }

  lemma EndsInFalse(q: seq<bool>)
    requires q != [] && !q[|q| - 1]
    ensures q == q[..|q| - 1] + [false]
  {
  }

  /** When g has a constant term, x divides a product only if it divides the quotient. */
  lemma TrailingZero(q: seq<bool>, g: seq<bool>)
    requires |g| > 0 && g[|g| - 1] && q != []
    requires !Mul(q, g)[|q| + |g| - 2]
    ensures Mul(q, g) == Mul(q[..|q| - 1], g) + [false]
  {
    MulConstantTerm(q, g);
    EndsInFalse(q);
    MulTimesX(q[..|q| - 1], g);
  }

  /** g shifted by any power of x is a multiple of g. */
  lemma {:induction false} ShiftedMultiple(g: seq<bool>, i: nat, k: nat)
    requires |g| > 0
    ensures Mul(Zeros(i) + [true] + Zeros(k), g) == Zeros(i) + g + Zeros(k)
    decreases k
  {
    if k == 0 {
      MulZeros(i, g);
      MulSnoc(Zeros(i), true, g);
      assert Zeros(i) + [true] + Zeros(0) == Zeros(i) + [true];
      assert Xor(Zeros(i + |g| - 1) + [false], Zeros(i) + g) == Zeros(i) + g;
      assert Zeros(i) + g + Zeros(0) == Zeros(i) + g;
    } else {
      var q := Zeros(i) + [true] + Zeros(k - 1);
      ShiftedMultiple(g, i, k - 1);
      MulTimesX(q, g);
      assert q + [false] == Zeros(i) + [true] + Zeros(k);
      assert Zeros(i) + g + Zeros(k - 1) + [false] == Zeros(i) + g + Zeros(k);
    }
  }

  lemma {:induction false} MulZeros(n: nat, g: seq<bool>)
    requires |g| > 0
    ensures Mul(Zeros(n), g) == Zeros(n + |g| - 1)
  {
    if n > 0 {
      MulZeros(n - 1, g);
      assert Zeros(n)[..n - 1] == Zeros(n - 1);
    }
  }

  /** Clearing a set coefficient lowers the weight by one. */
  lemma {:induction false} WeightClear(p: seq<bool>, i: nat)
    requires i < |p| && p[i]
    ensures Weight(p) == Weight(p[i := false]) + 1
  {
    var n := |p| - 1;
    if i < n {
      WeightClear(p[..n], i);
      assert p[i := false][..n] == p[..n][i := false];
    } else {
      assert p[i := false][..n] == p[..n];
    }
  }

  /** Only the zero polynomial has weight 0. */
  lemma {:induction false} WeightZero(p: seq<bool>)
    ensures Weight(p) == 0 <==> p == Zeros(|p|)
  {
    if p != [] {
      WeightZero(p[..|p| - 1]);
      if p == Zeros(|p|) {
        assert p[..|p| - 1] == Zeros(|p| - 1);
      }
      assert p == p[..|p| - 1] + [p[|p| - 1]];
      assert Zeros(|p|) == Zeros(|p| - 1) + [false];
    }
  }
}
