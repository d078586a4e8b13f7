/** Every non-zero multiple of the generator with at most 31 coefficients has weight 6 or more.
    The powers g^0, g^1 and g^5 are roots of the generator; in a multiple of weight at most 5
    too few of them would have to add up to zero. */
module CodeDistance {
  import opened Gf2Poly
  import opened ShiftRegister
  import opened Gf32
  import opened CodeSums

  // ----- The powers as roots of the generator -----

  predicate Coordinate(u: Elem, j: nat) {
    match j
    case 0 => u.c0
    case 1 => u.c1
    case 2 => u.c2
    case 3 => u.c3
    case _ => u.c4
  }

  /** One coordinate of a sequence of field elements. */
  function Of(h: nat -> Elem, j: nat): nat -> bool {
    (k: nat) => Coordinate(h(k), j)
  }

  const ALWAYS: nat -> bool := (k: nat) => true

  /** f satisfies x^5 + x^3 + 1 at k, respectively x^5 + x^4 + x^3 + x + 1. */
  predicate Recurs(f: nat -> bool, k: nat) {
    f(k + 5) == (f(k + 3) != f(k))
  }

  predicate Recurs5(f: nat -> bool, k: nat) {
    f(k + 5) == ((f(k + 4) != f(k + 3)) != (f(k + 1) != f(k)))
  }

  lemma EquationRecurs(h: nat -> Elem, k: nat, j: nat)
    requires h(k + 5) == Add(h(k + 3), h(k))
    ensures Recurs(Of(h, j), k)
  {
  }

  lemma Equation5Recurs(h: nat -> Elem, k: nat, j: nat)
    requires h(k + 5) == Add(Add(h(k + 4), h(k + 3)), Add(h(k + 1), h(k)))
    ensures Recurs5(Of(h, j), k)
  {
  }

  /** x^5 + x^3 + 1 and x^5 + x^4 + x^3 + x + 1 divide the generator. */
  lemma RecursRoot(f: nat -> bool, k: nat)
    requires forall i :: k <= i <= k + 6 ==> Recurs(f, i)
    ensures !GeneratorSum(f, k)
  {
    assert Recurs(f, k) && Recurs(f, k + 1) && Recurs(f, k + 2) && Recurs(f, k + 3);
    assert Recurs(f, k + 4) && Recurs(f, k + 5) && Recurs(f, k + 6);
  }

  lemma Recurs5Root(f: nat -> bool, k: nat)
    requires forall i :: k <= i <= k + 6 ==> Recurs5(f, i)
    ensures !GeneratorSum(f, k)
  {
    assert Recurs5(f, k) && Recurs5(f, k + 1) && Recurs5(f, k + 2) && Recurs5(f, k + 3);
    assert Recurs5(f, k + 4) && Recurs5(f, k + 5) && Recurs5(f, k + 6);
  }

  lemma PowersAreRoots(j: nat)
    ensures Root(Of(Power, j)) && Root(Of(Power5, j))
  {
    forall k: nat ensures Recurs(Of(Power, j), k) && Recurs5(Of(Power5, j), k) {
      PowerEquation(k);
      EquationRecurs(Power, k, j);
      Power5Equation(k);
      Equation5Recurs(Power5, k, j);
    }
    forall k: nat ensures !GeneratorSum(Of(Power, j), k) && !GeneratorSum(Of(Power5, j), k) {
      RecursRoot(Of(Power, j), k);
      Recurs5Root(Of(Power5, j), k);
    }
  }

  // ----- Multiples of small weight -----

  /** The sum that always counts is the parity of the weight. */
  lemma {:induction false} SumAlways(p: seq<bool>, k: nat)
    ensures Sum(ALWAYS, p, k) == (Weight(p) % 2 == 1)
    decreases |p|
  {
    if p != [] {
      SumAlways(p[..|p| - 1], k + 1);
    }
  }

  lemma {:induction false} EvenWeight(q: seq<bool>)
    ensures Weight(Mul(q, GENERATOR)) % 2 == 0
  {
    assert Root(ALWAYS);
    SumMultiple(ALWAYS, q, 0);
    SumAlways(Mul(q, GENERATOR), 0);
  }

  /** A set coefficient of a polynomial that is not zero. */
  lemma {:induction false} SetCoefficient(p: seq<bool>) returns (i: nat)
    requires Weight(p) > 0
    ensures i < |p| && p[i]
  {
    if p[|p| - 1] {
      i := |p| - 1;
    } else {
      i := SetCoefficient(p[..|p| - 1]);
    }
  }

  lemma CoordinatesDecide(u: Elem, v: Elem)
    requires forall j: nat :: j < 5 ==> Coordinate(u, j) == Coordinate(v, j)
    ensures u == v
  {
    assert Coordinate(u, 0) == Coordinate(v, 0) && Coordinate(u, 1) == Coordinate(v, 1);
    assert Coordinate(u, 2) == Coordinate(v, 2) && Coordinate(u, 3) == Coordinate(v, 3);
    assert Coordinate(u, 4) == Coordinate(v, 4);
  }

  lemma ClearTwo(f: nat -> bool, p: seq<bool>, i: nat, j: nat)
    requires i < |p| && j < |p| && i != j && p[i] && p[j]
    ensures Weight(p) == Weight(p[i := false][j := false]) + 2
    ensures Sum(f, p, 0) == (Sum(f, p[i := false][j := false], 0) != (f(|p| - 1 - i) != f(|p| - 1 - j)))
  {
    SumClear(f, p, 0, i);
    WeightClear(p, i);
    SumClear(f, p[i := false], 0, j);
    WeightClear(p[i := false], j);
  }

  lemma SumOfTwo(f: nat -> bool, p: seq<bool>, i: nat, j: nat)
    requires i < |p| && j < |p| && i != j && p[i] && p[j] && Weight(p) == 2
    ensures Sum(f, p, 0) == (f(|p| - 1 - i) != f(|p| - 1 - j))
  {
    ClearTwo(f, p, i, j);
    WeightZero(p[i := false][j := false]);
    SumZeros(f, |p|, 0);
  }

  lemma SumOfFour(f: nat -> bool, p: seq<bool>, h: nat, i: nat, j: nat, l: nat)
    requires h < |p| && i < |p| && j < |p| && l < |p|
    requires h != i && h != j && h != l && i != j && i != l && j != l
    requires p[h] && p[i] && p[j] && p[l] && Weight(p) == 4
    ensures Sum(f, p, 0) == ((f(|p| - 1 - h) != f(|p| - 1 - i)) != (f(|p| - 1 - j) != f(|p| - 1 - l)))
  {
    ClearTwo(f, p, h, i);
    SumOfTwo(f, p[h := false][i := false], j, l);
  }

  /** All coordinates of the value at g and of the value at g^5 are zero. */
  ghost predicate Vanishes(e: seq<bool>) {
    forall c: nat :: !Sum(Of(Power, c), e, 0) && !Sum(Of(Power5, c), e, 0)
  }

  lemma MultipleVanishes(q: seq<bool>)
    ensures Vanishes(Mul(q, GENERATOR))
  {
    forall c: nat ensures !Sum(Of(Power, c), Mul(q, GENERATOR), 0) && !Sum(Of(Power5, c), Mul(q, GENERATOR), 0) {
      PowersAreRoots(c);
      SumMultiple(Of(Power, c), q, 0);
      SumMultiple(Of(Power5, c), q, 0);
    }
  }

  /** The powers of g at the exponents of a multiple with two terms are equal. */
  lemma TwoTermsAgree(e: seq<bool>, i: nat, j: nat)
    requires Vanishes(e) && i < j < |e| && e[i] && e[j] && Weight(e) == 2
    ensures (j - i) % 31 == 0
  {
    hide Weight, Power;
    var a, b := |e| - 1 - j, |e| - 1 - i;
    forall c: nat | c < 5 ensures Coordinate(Power(a), c) == Coordinate(Power(b), c) {
      SumOfTwo(Of(Power, c), e, i, j);
    }
    CoordinatesDecide(Power(a), Power(b));
    PowersEqualIff(a, b);
  }

  /** A multiple of the generator with constant term 1 does not have weight 2. */
  lemma NotTwo(e: seq<bool>, i: nat)
    requires Vanishes(e) && |e| <= 31 && e != [] && i < |e| - 1 && e[|e| - 1] && e[i]
    ensures Weight(e) != 2
  {
    if Weight(e) == 2 {
      TwoTermsAgree(e, i, |e| - 1);
    }
  }

  lemma CoordinateAdd(u: Elem, v: Elem, c: nat)
    ensures Coordinate(Add(u, v), c) == (Coordinate(u, c) != Coordinate(v, c))
  {
  }

  /** If the sum of a sequence vanishes on four exponents, of which one is 0, its elements there
      add up to zero. */
  lemma FourAddToZero(h: nat -> Elem, e: seq<bool>, i: nat, j: nat, l: nat)
    requires h(0) == ONE && forall c: nat :: !Sum(Of(h, c), e, 0)
    requires e != [] && i < |e| - 1 && j < |e| - 1 && l < |e| - 1 && i != j && i != l && j != l
    requires e[|e| - 1] && e[i] && e[j] && e[l] && Weight(e) == 4
    ensures Add(Add(ONE, h(|e| - 1 - i)), Add(h(|e| - 1 - j), h(|e| - 1 - l))) == ZERO
  {
    var n := |e| - 1;
    var sum := Add(Add(ONE, h(n - i)), Add(h(n - j), h(n - l)));
    forall c: nat | c < 5 ensures Coordinate(sum, c) == Coordinate(ZERO, c) {
      SumOfFour(Of(h, c), e, n, i, j, l);
      CoordinateAdd(ONE, h(n - i), c);
      CoordinateAdd(h(n - j), h(n - l), c);
      CoordinateAdd(Add(ONE, h(n - i)), Add(h(n - j), h(n - l)), c);
    }
    CoordinatesDecide(sum, ZERO);
  }

  /** Nor weight 4: the four powers of g, and their fifth powers, would add up to zero. */
  lemma NotFour(e: seq<bool>, i: nat, j: nat, l: nat)
    requires Vanishes(e) && |e| <= 31
    requires e != [] && i < |e| - 1 && j < |e| - 1 && l < |e| - 1 && i != j && i != l && j != l
    requires e[|e| - 1] && e[i] && e[j] && e[l]
    ensures Weight(e) != 4
  {
    if Weight(e) == 4 {
      FourAddToZero(Power, e, i, j, l);
      FourAddToZero(Power5, e, i, j, l);
      var a, b, c := |e| - 1 - i, |e| - 1 - j, |e| - 1 - l;
      assert Add(Add(ONE, Power(a)), Add(Power(b), Power(c))) == ZERO;
      NotZeroTogether(a, b, c);
    }
  }

  lemma NotTwoOrFour(e: seq<bool>)
    requires Vanishes(e) && |e| <= 31 && e != [] && e[|e| - 1]
    ensures Weight(e) != 2 && Weight(e) != 4
  {
    var n := |e| - 1;
    WeightClear(e, n);
    var e1 := e[n := false];
    if Weight(e) == 2 {
      var i := SetCoefficient(e1);
      NotTwo(e, i);
    } else if Weight(e) == 4 {
      var i := SetCoefficient(e1);
      WeightClear(e1, i);
      var j := SetCoefficient(e1[i := false]);
      WeightClear(e1[i := false], j);
      var l := SetCoefficient(e1[i := false][j := false]);
      NotFour(e, i, j, l);
    }
  }

  lemma NotZeroTogether(a: nat, b: nat, c: nat)
    requires 1 <= a <= 30 && 1 <= b <= 30 && 1 <= c <= 30 && a != b
    requires Add(Add(ONE, Power(a)), Add(Power(b), Power(c))) == ZERO
    ensures Add(Add(ONE, Power5(a)), Add(Power5(b), Power5(c))) != ZERO
  {
    PowerNotOne(a);
    PowerNotOne(b);
    if a < b { PowersDistinct(a, b); } else { PowersDistinct(b, a); }
    FifthPowers(Power(a), Power(b), Power(c));
    FifthOfPower(a);
    FifthOfPower(b);
    FifthOfPower(c);
  }

  lemma {:induction false} MultipleWithConstantTerm(q: seq<bool>, e: seq<bool>)
    requires e == Mul(q, GENERATOR) && |e| <= 31 && e != [] && e[|e| - 1]
    ensures Weight(e) >= 6
  {
    hide *;
    EvenWeight(q);
    MultipleVanishes(q);
    NotTwoOrFour(e);
    WeightClear(e, |e| - 1);
  }

  /** The minimum weight: a multiple of the generator with at most 31 coefficients is zero or
      has at least 6 non-zero coefficients. */
  lemma {:induction false} MinimumWeight(q: seq<bool>)
    requires |q| <= 20
    ensures Weight(Mul(q, GENERATOR)) == 0 || Weight(Mul(q, GENERATOR)) >= 6
    decreases |q|
  {
    var e := Mul(q, GENERATOR);
    if q == [] {
      WeightZero(e);
    } else if e[|q| + 10] {
      MultipleWithConstantTerm(q, e);
    } else {
      var p := q[..|q| - 1];
      TrailingZero(q, GENERATOR);
      assert (Mul(p, GENERATOR) + [false])[..|q| + 10] == Mul(p, GENERATOR);
      MinimumWeight(p);
    }
  }
}
