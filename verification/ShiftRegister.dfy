/** The CRC shift register as polynomial division: what the register holds after a message of
    any length, and which extended messages leave it empty. */
module ShiftRegister {
  import opened Gf2Poly

  /** The generator x^11 + x^9 + x^8 + x^7 + x^2 + 1. */
  const GENERATOR: seq<bool> :=
    [true, false, true, true, true, false, false, false, false, true, false, true]

  /** The contents of the register: 11 coefficients, highest power first. */
  type Register = t: seq<bool> | |t| == 11 witness Zeros(11)

  /** The initial contents for a header, 0x1A. */
  const INIT: Register :=
    [false, false, false, false, false, false, true, true, false, true, false]

  /** One step: shift, then add the generator if the bit shifted out differs from the message bit. */
  function Step(t: Register, b: bool): Register {
    Xor(t[1..] + [false], Scale(t[0] != b, GENERATOR[1..]))
  }

  function Feed(t: Register, m: seq<bool>): Register {
    if m == [] then t else Step(Feed(t, m[..|m| - 1]), m[|m| - 1])
  }

  /** The header CRC of a message. */
  function Crc(m: seq<bool>): Register {
    Feed(INIT, m)
  }

  // ----- The register as a linear machine -----

  lemma StepXor(s: Register, t: Register, b: bool, c: bool)
    ensures Step(Xor(s, t), b != c) == Xor(Step(s, b), Step(t, c))
  {
    forall i | 0 <= i < 11 ensures Step(Xor(s, t), b != c)[i] == Xor(Step(s, b), Step(t, c))[i] {
      if i < 10 {
        assert Xor(s, t)[1..][i] == (s[1..][i] != t[1..][i]);
      }
    }
  }

  /** Adding registers and adding messages adds the results. */
  lemma {:induction false} FeedXor(s: Register, t: Register, u: seq<bool>, v: seq<bool>)
    requires |u| == |v|
    ensures Feed(Xor(s, t), Xor(u, v)) == Xor(Feed(s, u), Feed(t, v))
  {
    if u != [] {
      var n := |u| - 1;
      FeedXor(s, t, u[..n], v[..n]);
      assert Xor(u, v)[..n] == Xor(u[..n], v[..n]);
      StepXor(Feed(s, u[..n]), Feed(t, v[..n]), u[n], v[n]);
    }
  }

  /** The CRC is affine: the CRCs of three messages add up to the CRC of their sum. */
  lemma {:induction false} CrcAffine(a: seq<bool>, b: seq<bool>, c: seq<bool>)
    requires |a| == |b| == |c|
    ensures Crc(Xor(Xor(a, b), c)) == Xor(Xor(Crc(a), Crc(b)), Crc(c))
  {
    FeedXor(INIT, INIT, a, b);
    FeedXor(Xor(INIT, INIT), INIT, Xor(a, b), c);
    assert Xor(Xor(INIT, INIT), INIT) == INIT;
  }

  /** The step run backwards.  The generator has a constant term, so the lowest bit tells
      whether it was added. */
  function Unstep(t: Register, b: bool): Register {
    [t[10] != b] + Xor(t, Scale(t[10], GENERATOR[1..]))[..10]
  }

  function Unfeed(t: Register, m: seq<bool>): Register
    decreases |m|
  {
    if m == [] then t else Unfeed(Unstep(t, m[|m| - 1]), m[..|m| - 1])
  }

  lemma UnstepStep(t: Register, b: bool)
    ensures Unstep(Step(t, b), b) == t
  {
    var p := GENERATOR[1..];
    var s := Step(t, b);
    assert s[10] == (t[0] != b);
    assert Xor(s, Scale(t[0] != b, p)) == t[1..] + [false];
  }

  lemma StepUnstep(t: Register, b: bool)
    ensures Step(Unstep(t, b), b) == t
  {
    var p := GENERATOR[1..];
    var u := Xor(t, Scale(t[10], p));
    assert Unstep(t, b)[1..] == u[..10];
    assert !u[10];
    assert u[..10] + [false] == u;
    XorCancel(t, Scale(t[10], p));
  }

  /** For every message the map from the initial to the final register is a bijection. */
  lemma {:induction false} FeedBijective(t: Register, m: seq<bool>)
    ensures Unfeed(Feed(t, m), m) == t
    ensures Feed(Unfeed(t, m), m) == t
    decreases |m|
  {
    if m != [] {
      var n := |m| - 1;
      UnstepStep(Feed(t, m[..n]), m[n]);
      StepUnstep(t, m[n]);
      FeedBijective(t, m[..n]);
      FeedBijective(Unstep(t, m[n]), m[..n]);
    }
  }

  // ----- The register as a remainder -----

  /** init * x^n + m * x^11, for a message of length n. */
  function Dividend(init: Register, m: seq<bool>): (d: seq<bool>)
    ensures |d| == |m| + 11
  {
    Xor(init + Zeros(|m|), m + Zeros(11))
  }

  /** d == q * GENERATOR + t */
  ghost predicate IsQuotient(q: seq<bool>, d: seq<bool>, t: Register) {
    |d| == |q| + 11 && d == Xor(Mul(q, GENERATOR), Zeros(|q|) + t)
  }

  ghost predicate IsRemainder(d: seq<bool>, t: Register) {
    exists q :: IsQuotient(q, d, t)
  }

  lemma DividendSnoc(init: Register, m: seq<bool>, b: bool)
    ensures Dividend(init, m + [b]) == Xor(Dividend(init, m) + [false], Zeros(|m|) + ([b] + Zeros(11)))
  {
  }

  /** The last 12 coefficients in one division step. */
  lemma StepAsDivision(t: Register, b: bool)
    ensures Xor(t + [false], [b] + Zeros(11)) == Xor(Scale(t[0] != b, GENERATOR), [false] + Step(t, b))
  {
    forall i | 0 <= i < 12
      ensures Xor(t + [false], [b] + Zeros(11))[i] == Xor(Scale(t[0] != b, GENERATOR), [false] + Step(t, b))[i]
    {
      if 0 < i < 11 {
        assert t[1..][i - 1] == t[i];
      }
    }
  }

  lemma QuotientTimesX(q: seq<bool>, d: seq<bool>, t: Register)
    requires IsQuotient(q, d, t)
    ensures d + [false] == Xor(Mul(q, GENERATOR) + [false], Zeros(|q|) + (t + [false]))
  {
    XorSnoc(Mul(q, GENERATOR), Zeros(|q|) + t, false, false);
    assert Zeros(|q|) + t + [false] == Zeros(|q|) + (t + [false]);
  }

  /** Dividing on by one message bit: the quotient gets the bit t[0] != b, the remainder makes a step. */
  lemma QuotientSnoc(q: seq<bool>, d: seq<bool>, t: Register, b: bool)
    requires IsQuotient(q, d, t)
    ensures IsQuotient(q + [t[0] != b], Xor(d + [false], Zeros(|q|) + ([b] + Zeros(11))), Step(t, b))
  {
    hide Mul, Step, Scale;
    var n, c := |q|, t[0] != b;
    var p := Mul(q, GENERATOR) + [false];
    var z := Zeros(n);
    calc {
      Xor(d + [false], z + ([b] + Zeros(11)));
      { QuotientTimesX(q, d, t); }
      Xor(Xor(p, z + (t + [false])), z + ([b] + Zeros(11)));
      { XorTail(p, n, t + [false], [b] + Zeros(11)); StepAsDivision(t, b); }
      Xor(p, z + Xor(Scale(c, GENERATOR), [false] + Step(t, b)));
      { XorTail(p, n, Scale(c, GENERATOR), [false] + Step(t, b)); }
      Xor(Xor(p, z + Scale(c, GENERATOR)), z + ([false] + Step(t, b)));
      { MulSnoc(q, c, GENERATOR); assert z + ([false] + Step(t, b)) == Zeros(n + 1) + Step(t, b); }
      Xor(Mul(q + [c], GENERATOR), Zeros(n + 1) + Step(t, b));
    }
  }

  lemma XorTail(p: seq<bool>, n: nat, u: seq<bool>, v: seq<bool>)
    requires |u| == |v| && |p| == n + |u|
    ensures Xor(Xor(p, Zeros(n) + u), Zeros(n) + v) == Xor(p, Zeros(n) + Xor(u, v))
  {
  }

  lemma FeedSnoc(t: Register, m: seq<bool>, b: bool)
    ensures Feed(t, m + [b]) == Step(Feed(t, m), b)
  {
    assert (m + [b])[..|m|] == m;
  }

  lemma DivideNothing(t: Register)
    ensures IsQuotient([], Dividend(t, []), Feed(t, []))
  {
    assert Dividend(t, []) == t;
    assert Xor(Mul([], GENERATOR), Zeros(0) + t) == t;
  }

  lemma DivideOn(q: seq<bool>, t: Register, m: seq<bool>, b: bool)
    requires IsQuotient(q, Dividend(t, m), Feed(t, m))
    ensures IsQuotient(q + [Feed(t, m)[0] != b], Dividend(t, m + [b]), Feed(t, m + [b]))
  {
    hide Step, Mul, Feed;
    QuotientSnoc(q, Dividend(t, m), Feed(t, m), b);
    DividendSnoc(t, m, b);
    FeedSnoc(t, m, b);
  }

  lemma {:induction false} FeedDivides(t: Register, m: seq<bool>) returns (q: seq<bool>)
    ensures IsQuotient(q, Dividend(t, m), Feed(t, m))
  {
    hide *;
    if m == [] {
      q := [];
      DivideNothing(t);
    } else {
      var n := |m| - 1;
      q := FeedDivides(t, m[..n]);
      DivideOn(q, t, m[..n], m[n]);
      q := q + [Feed(t, m[..n])[0] != m[n]];
      assert m[..n] + [m[n]] == m;
    }
  }

  lemma {:induction false} RemainderUnique(p: seq<bool>, q: seq<bool>, d: seq<bool>, s: Register, t: Register)
    requires IsQuotient(p, d, s) && IsQuotient(q, d, t)
    ensures s == t
  {
    var n := |p|;
    forall i | 0 <= i < n ensures Mul(p, GENERATOR)[i] == Mul(q, GENERATOR)[i] {
      assert d[i] == Xor(Mul(p, GENERATOR), Zeros(n) + s)[i];
      assert d[i] == Xor(Mul(q, GENERATOR), Zeros(n) + t)[i];
    }
    assert Mul(p, GENERATOR)[..n] == Mul(q, GENERATOR)[..n];
    LeadingPartDecides(p, q, GENERATOR);
    forall i | 0 <= i < 11 ensures s[i] == t[i] {
      assert d[n + i] == Xor(Mul(p, GENERATOR), Zeros(n) + s)[n + i];
      assert d[n + i] == Xor(Mul(q, GENERATOR), Zeros(n) + t)[n + i];
    }
  }

  /** For messages of every length n, the register after the message is the remainder of
      init * x^n + message * x^11 modulo the generator, and the only one. */
  lemma {:induction false} FeedIsRemainder(init: Register, m: seq<bool>, t: Register)
    ensures IsRemainder(Dividend(init, m), t) <==> t == Feed(init, m)
  {
    var q := FeedDivides(init, m);
    if IsRemainder(Dividend(init, m), t) {
      var p :| IsQuotient(p, Dividend(init, m), t);
      RemainderUnique(p, q, Dividend(init, m), t, Feed(init, m));
    }
  }

  // ----- The residue of an extended message -----

  lemma FeedNothing(t: Register)
    ensures Feed(t, []) == t
  {
  }

  lemma FeedConcatSnoc(t: Register, m: seq<bool>, u: seq<bool>, b: bool)
    requires Feed(t, m + u) == Feed(Feed(t, m), u)
    ensures Feed(t, m + (u + [b])) == Feed(Feed(t, m), u + [b])
  {
    hide *;
    FeedSnoc(t, m + u, b);
    FeedSnoc(Feed(t, m), u, b);
    assert m + (u + [b]) == m + u + [b];
  }

  lemma {:induction false} FeedConcat(t: Register, m: seq<bool>, u: seq<bool>)
    ensures Feed(t, m + u) == Feed(Feed(t, m), u)
    decreases |u|
  {
    hide *;
    if u == [] {
      assert m + u == m;
      FeedNothing(Feed(t, m));
    } else {
      var n := |u| - 1;
      FeedConcat(t, m, u[..n]);
      FeedConcatSnoc(t, m, u[..n], u[n]);
      assert u == u[..n] + [u[n]];
    }
  }

  lemma {:induction false} FeedCons(t: Register, u: seq<bool>)
    requires u != []
    ensures Feed(t, u) == Feed(Step(t, u[0]), u[1..])
  {
    assert u == [u[0]] + u[1..];
    FeedConcat(t, [u[0]], u[1..]);
    assert Feed(t, [u[0]]) == Step(t, u[0]);
  }

  /** A step whose result ends in 0 did not add the generator: it only shifted. */
  lemma StepEndingInZero(t: Register, b: bool, w: seq<bool>)
    requires |w| == 10
    ensures Step(t, b) == w + [false] <==> t == [b] + w
  {
    if t[0] == b {
      assert Step(t, b) == t[1..] + [false];
      assert t == [b] + t[1..];
      assert (w + [false])[..10] == w && (t[1..] + [false])[..10] == t[1..];
    } else {
      assert Step(t, b)[10] && !(w + [false])[10];
    }
  }

  /** At most 11 bits bring the register to zero exactly if they are its leading bits and the
      others are zero already. */
  lemma {:induction false} FeedToZero(t: Register, u: seq<bool>)
    requires |u| <= 11
    ensures Feed(t, u) == Zeros(11) <==> t == u + Zeros(11 - |u|)
    decreases |u|
  {
    if u == [] {
      assert u + Zeros(11) == Zeros(11);
    } else {
      var w := u[1..] + Zeros(11 - |u|);
      FeedCons(t, u);
      FeedToZero(Step(t, u[0]), u[1..]);
      ZerosAround(u, w);
      StepEndingInZero(t, u[0], w);
    }
  }

  lemma ZerosAround(u: seq<bool>, w: seq<bool>)
    requires 0 < |u| <= 11 && w == u[1..] + Zeros(11 - |u|)
    ensures u[1..] + Zeros(12 - |u|) == w + [false]
    ensures u + Zeros(11 - |u|) == [u[0]] + w
  {
  }

  /** Feeding a message and then 11 further bits leaves zero if and only if those bits are the
      register after the message. */
  lemma {:induction false} ZeroResidue(t: Register, m: seq<bool>, u: Register)
    ensures Feed(t, m + u) == Zeros(11) <==> u == Feed(t, m)
  {
    FeedConcat(t, m, u);
    FeedToZero(Feed(t, m), u);
    assert u + Zeros(0) == u;
  }

  /** From every register to every other there is exactly one way of 11 bits. */
  lemma {:induction false} FeedReaches(t: Register, u: Register, r: Register)
    ensures Feed(t, u) == r <==> u == Xor(t, Unfeed(r, Zeros(11)))
  {
    hide *;
    var s := Unfeed(r, Zeros(11));
    FeedBijective(r, Zeros(11));
    FeedXor(t, s, u, Zeros(11));
    XorWithZeros(u);
    XorWithZeros(r);
    FeedToZero(Xor(t, s), u);
    assert u + Zeros(0) == u;
    XorMoves(Feed(t, u), Zeros(11), r);
    XorCommutes(Zeros(11), r);
  }

  lemma XorWithZeros(a: seq<bool>)
    ensures Xor(a, Zeros(|a|)) == a
  {
  }
}
