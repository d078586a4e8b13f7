/** The field GF(32), as polynomials in g modulo g^5 + g^3 + 1. */
module Gf32 {

  /** c4 * g^4 + c3 * g^3 + c2 * g^2 + c1 * g + c0 */
  datatype Elem = Elem(c4: bool, c3: bool, c2: bool, c1: bool, c0: bool)

  const ZERO := Elem(false, false, false, false, false)
  const ONE := Elem(false, false, false, false, true)

  function Add(u: Elem, v: Elem): Elem {
    Elem(u.c4 != v.c4, u.c3 != v.c3, u.c2 != v.c2, u.c1 != v.c1, u.c0 != v.c0)
  }

  /** Multiplication by g, and by g^5 == g^3 + 1. */
  function TimesG(u: Elem): Elem {
    Elem(u.c3, u.c2 != u.c4, u.c1, u.c0, u.c4)
  }

  function TimesG5(u: Elem): Elem {
    Elem(u.c4 != (u.c3 != u.c1), u.c4 != (u.c3 != (u.c2 != u.c0)), u.c4 != u.c2, u.c3 != u.c1, u.c4 != (u.c2 != u.c0))
  }

  /** The product, by Horner's rule in g. */
  function Times(u: Elem, v: Elem): Elem {
    Add(Only(v.c0, u),
        TimesG(Add(Only(v.c1, u),
                   TimesG(Add(Only(v.c2, u), TimesG(Add(Only(v.c3, u), TimesG(Only(v.c4, u)))))))))
  }

  function Only(c: bool, u: Elem): Elem {
    if c then u else ZERO
  }

  /** The fifth power, written out in the coordinates of u. */
  function Fifth(u: Elem): Elem {
    Elem((u.c0 && u.c1) != (u.c2 != ((u.c0 && u.c2) != ((u.c0 && u.c3) != ((u.c1 && u.c3) !=
         (u.c4 != ((u.c0 && u.c4) != (u.c3 && u.c4))))))),
         u.c1 != ((u.c0 && u.c2) != ((u.c1 && u.c2) != ((u.c1 && u.c3) != ((u.c2 && u.c3) !=
         (u.c4 != (u.c0 && u.c4)))))),
         (u.c0 && u.c2) != ((u.c1 && u.c2) != (u.c3 != ((u.c0 && u.c3) != ((u.c2 && u.c3) !=
         (u.c4 != ((u.c0 && u.c4) != ((u.c2 && u.c4) != (u.c3 && u.c4)))))))),
         (u.c0 && u.c1) != (u.c2 != ((u.c0 && u.c2) != ((u.c1 && u.c2) != (u.c3 != ((u.c0 && u.c3) !=
         (u.c4 != ((u.c1 && u.c4) != ((u.c2 && u.c4) != (u.c3 && u.c4))))))))),
         u.c0 != (u.c1 != (u.c2 != ((u.c1 && u.c2) != (u.c4 != ((u.c2 && u.c4) != (u.c3 && u.c4)))))))
  }

  /** Squaring, which is linear in the coordinates. */
  function Square(u: Elem): Elem {
    Elem(u.c4 != (u.c3 != u.c2), u.c4, u.c1, u.c4 != u.c3, u.c0)
  }

  lemma SquareIsProduct(u: Elem)
    ensures Square(u) == Times(u, u)
  {
  }

  lemma FifthFromSquares(u: Elem)
    ensures Fifth(u) == Times(u, Square(Square(u)))
  {
  }

  lemma FifthIsProduct(u: Elem)
    ensures Fifth(u) == Times(u, Times(Times(u, u), Times(u, u)))
  {
    hide Times, Square, Fifth;
    SquareIsProduct(u);
    SquareIsProduct(Square(u));
    FifthFromSquares(u);
  }

  /** g^k and g^5k */
  function Power(k: nat): Elem {
    if k == 0 then ONE else TimesG(Power(k - 1))
  }

  function Power5(k: nat): Elem {
    if k == 0 then ONE else TimesG5(Power5(k - 1))
  }

  lemma FifthTimesG(u: Elem)
    ensures Fifth(TimesG(u)) == TimesG5(Fifth(u))
  {
  }

  lemma TimesG5IsFiveTimesG(u: Elem)
    ensures TimesG5(u) == TimesG(TimesG(TimesG(TimesG(TimesG(u)))))
  {
  }

  /** The powers of g^5 are every fifth power of g. */
  lemma {:induction false} Power5IsPower(k: nat)
    ensures Power5(k) == Power(5 * k)
  {
    if k > 0 {
      Power5IsPower(k - 1);
      TimesG5IsFiveTimesG(Power(5 * k - 5));
      FivePowers(5 * k - 5);
    }
  }

  lemma FivePowers(k: nat)
    ensures Power(k + 5) == TimesG(TimesG(TimesG(TimesG(TimesG(Power(k))))))
  {
    assert Power(k + 2) == TimesG(TimesG(Power(k)));
    assert Power(k + 4) == TimesG(TimesG(Power(k + 2)));
  }

  lemma {:induction false} FifthOfPower(k: nat)
    ensures Fifth(Power(k)) == Power5(k)
  {
    if k > 0 {
      FifthOfPower(k - 1);
      FifthTimesG(Power(k - 1));
    }
  }

  // ----- The order of g, and the equations of g and g^5 -----

  lemma PowerNotOne(k: nat)
    requires 1 <= k <= 30
    ensures Power(k) != ONE
  {
    assert Power(1) == Elem(false, false, false, true, false);
    assert Power(2) == Elem(false, false, true, false, false);
    assert Power(3) == Elem(false, true, false, false, false);
    assert Power(4) == Elem(true, false, false, false, false);
    assert Power(5) == Elem(false, true, false, false, true);
    assert Power(6) == Elem(true, false, false, true, false);
    assert Power(7) == Elem(false, true, true, false, true);
    assert Power(8) == Elem(true, true, false, true, false);
    assert Power(9) == Elem(true, true, true, false, true);
    assert Power(10) == Elem(true, false, false, true, true);
    assert Power(11) == Elem(false, true, true, true, true);
    assert Power(12) == Elem(true, true, true, true, false);
    assert Power(13) == Elem(true, false, true, false, true);
    assert Power(14) == Elem(false, false, false, true, true);
    assert Power(15) == Elem(false, false, true, true, false);
    assert Power(16) == Elem(false, true, true, false, false);
    assert Power(17) == Elem(true, true, false, false, false);
    assert Power(18) == Elem(true, true, false, false, true);
    assert Power(19) == Elem(true, true, false, true, true);
    assert Power(20) == Elem(true, true, true, true, true);
    assert Power(21) == Elem(true, false, true, true, true);
    assert Power(22) == Elem(false, false, true, true, true);
    assert Power(23) == Elem(false, true, true, true, false);
    assert Power(24) == Elem(true, true, true, false, false);
    assert Power(25) == Elem(true, false, false, false, true);
    assert Power(26) == Elem(false, true, false, true, true);
    assert Power(27) == Elem(true, false, true, true, false);
    assert Power(28) == Elem(false, false, true, false, true);
    assert Power(29) == Elem(false, true, false, true, false);
    assert Power(30) == Elem(true, false, true, false, false);
  }

  /** The first 31 powers of g are distinct. */
  lemma {:induction false} PowersDistinct(i: nat, j: nat)
    requires i < j <= 30
    ensures Power(i) != Power(j)
  {
    if i == 0 {
      PowerNotOne(j);
    } else if Power(i) == Power(j) {
      PowersDistinct(i - 1, j - 1);
    }
  }

  lemma {:induction false} PowerPeriod(k: nat)
    ensures Power(k + 31) == Power(k)
  {
    if k > 0 {
      PowerPeriod(k - 1);
    } else {
      FivePowers(0);
      FivePowers(5);
      FivePowers(10);
      FivePowers(15);
      FivePowers(20);
      FivePowers(25);
    }
  }

  lemma TimesGDecides(u: Elem, v: Elem)
    requires TimesG(u) == TimesG(v)
    ensures u == v
  {
  }

  /** The order of g is 31. */
  lemma {:induction false} PowersEqualIff(i: nat, j: nat)
    requires i <= j
    ensures Power(i) == Power(j) <==> (j - i) % 31 == 0
    decreases j
  {
    if i > 0 {
      PowersEqualIff(i - 1, j - 1);
      if Power(i) == Power(j) {
        TimesGDecides(Power(i - 1), Power(j - 1));
      }
    } else if j >= 31 {
      PowerPeriod(j - 31);
      PowersEqualIff(0, j - 31);
    } else if j > 0 {
      PowerNotOne(j);
    }
  }

  lemma PowerEquation(k: nat)
    ensures Power(k + 5) == Add(Power(k + 3), Power(k))
  {
    assert Power(k + 2) == TimesG(Power(k + 1));
    assert Power(k + 4) == TimesG(Power(k + 3));
  }

  lemma EquationG5(u: Elem)
    ensures TimesG5(TimesG5(TimesG5(TimesG5(TimesG5(u))))) ==
            Add(Add(TimesG5(TimesG5(TimesG5(TimesG5(u)))), TimesG5(TimesG5(TimesG5(u)))), Add(TimesG5(u), u))
  {
  }

  lemma Power5Equation(k: nat)
    ensures Power5(k + 5) == Add(Add(Power5(k + 4), Power5(k + 3)), Add(Power5(k + 1), Power5(k)))
  {
    assert Power5(k + 1) == TimesG5(Power5(k));
    assert Power5(k + 2) == TimesG5(Power5(k + 1));
    assert Power5(k + 3) == TimesG5(Power5(k + 2));
    assert Power5(k + 4) == TimesG5(Power5(k + 3));
    EquationG5(Power5(k));
  }

  // ----- Fifth powers -----

  lemma FifthPowers0(u: Elem, v: Elem)
    requires !u.c4 && !u.c3
    requires Add(Add(ONE, Fifth(u)), Add(Fifth(v), Fifth(Add(ONE, Add(u, v))))) == ZERO
    ensures u == v || u == ONE || v == ONE
  {
  }

  lemma FifthPowers1(u: Elem, v: Elem)
    requires !u.c4 && u.c3
    requires Add(Add(ONE, Fifth(u)), Add(Fifth(v), Fifth(Add(ONE, Add(u, v))))) == ZERO
    ensures u == v || u == ONE || v == ONE
  {
  }

  lemma FifthPowers2(u: Elem, v: Elem)
    requires u.c4 && !u.c3
    requires Add(Add(ONE, Fifth(u)), Add(Fifth(v), Fifth(Add(ONE, Add(u, v))))) == ZERO
    ensures u == v || u == ONE || v == ONE
  {
  }

  lemma FifthPowers3(u: Elem, v: Elem)
    requires u.c4 && u.c3
    requires Add(Add(ONE, Fifth(u)), Add(Fifth(v), Fifth(Add(ONE, Add(u, v))))) == ZERO
    ensures u == v || u == ONE || v == ONE
  {
  }

  /** Four field elements of which three, among them 1, are distinct cannot add up to zero
      together with their fifth powers. */
  lemma FifthPowers(u: Elem, v: Elem, w: Elem)
    requires u != v && u != ONE && v != ONE
    requires Add(Add(ONE, u), Add(v, w)) == ZERO
    ensures Add(Add(ONE, Fifth(u)), Add(Fifth(v), Fifth(w))) != ZERO
  {
    assert w == Add(ONE, Add(u, v));
    if Add(Add(ONE, Fifth(u)), Add(Fifth(v), Fifth(w))) == ZERO {
      if u.c4 {
        if u.c3 { FifthPowers3(u, v); } else { FifthPowers2(u, v); }
      } else {
        if u.c3 { FifthPowers1(u, v); } else { FifthPowers0(u, v); }
      }
    }
  }
}
