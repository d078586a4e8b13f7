/** Header and CRC together as a code word, and which transmission errors the receiver's
    comparison of the CRC finds. */
module HeaderCode {
  import opened Gf2Poly
  import opened ShiftRegister
  import opened CodeDistance
  import opened FlexRayTypes
  import opened HeaderCrc
  import opened WordBits

  /** A message followed by its CRC. */
  function Encode(m: seq<bool>): seq<bool> {
    m + Crc(m)
  }

  /** The receiver's check: the last 11 bits are the CRC of the bits before them. */
  predicate Accepts(word: seq<bool>)
    requires |word| >= 11
  {
    Crc(word[..|word| - 11]) == word[|word| - 11..]
  }

  /** A multiple of the generator with as many coefficients as e. */
  ghost predicate IsMultiple(e: seq<bool>) {
    exists q :: |q| + 11 == |e| && e == Mul(q, GENERATOR)
  }

  lemma QuotientOfError(q: seq<bool>, u: seq<bool>, t: Register)
    ensures IsQuotient(q, Dividend(Zeros(11), u), t) <==> |q| == |u| && u + t == Mul(q, GENERATOR)
  {
    DividendFromZero(u);
    if |q| == |u| {
      ErrorParts(u, t);
      XorMoves(u + Zeros(11), Mul(q, GENERATOR), Zeros(|u|) + t);
    }
  }

  lemma DividendFromZero(u: seq<bool>)
    ensures Dividend(Zeros(11), u) == u + Zeros(11)
  {
  }

  lemma ErrorParts(u: seq<bool>, t: Register)
    ensures Xor(u + Zeros(11), Zeros(|u|) + t) == u + t
  {
  }

  /** An error pattern u + t on message and CRC escapes exactly if t is the register after u. */
  lemma {:induction false} UndetectedIffFeed(m: seq<bool>, u: seq<bool>, t: Register)
    requires |u| == |m|
    ensures Accepts(Xor(Encode(m), u + t)) <==> Feed(Zeros(11), u) == t
  {
    var n := |m|;
    var word := Xor(Encode(m), u + t);
    assert word[..n] == Xor(m, u) && word[n..] == Xor(Crc(m), t);
    FeedXor(INIT, Zeros(11), m, u);
    assert Xor(INIT, Zeros(11)) == INIT;
    XorCancel(Feed(Zeros(11), u), Crc(m));
    XorCancel(t, Crc(m));
    XorCommutes(Crc(m), t);
    XorCommutes(Crc(m), Feed(Zeros(11), u));
  }

  /** A polynomial is a multiple of the generator exactly if its last 11 coefficients are the
      register after the others. */
  lemma MultipleIffFeed(u: seq<bool>, t: Register)
    ensures IsMultiple(u + t) <==> Feed(Zeros(11), u) == t
  {
    hide Feed, Mul, Dividend, IsQuotient;
    FeedIsRemainder(Zeros(11), u, t);
    if IsMultiple(u + t) {
      var q :| |q| + 11 == |u + t| && u + t == Mul(q, GENERATOR);
      QuotientOfError(q, u, t);
    }
    if IsRemainder(Dividend(Zeros(11), u), t) {
      var q :| IsQuotient(q, Dividend(Zeros(11), u), t);
      QuotientOfError(q, u, t);
    }
  }

  /** An error pattern added to a code word escapes the check if and only if it is a multiple of
      the generator: for messages of every length, and independently of the message. */
  lemma {:induction false} UndetectedIffMultiple(m: seq<bool>, e: seq<bool>)
    requires |e| == |m| + 11
    ensures Accepts(Xor(Encode(m), e)) <==> IsMultiple(e)
  {
    hide Accepts, Encode, IsMultiple, Feed;
    var u, t: Register := e[..|m|], e[|m|..];
    assert e == u + t;
    UndetectedIffFeed(m, u, t);
    MultipleIffFeed(u, t);
  }

  /** A code word without errors passes, and it is the only word with its message that does. */
  lemma EncodeAccepted(m: seq<bool>, t: Register)
    ensures Accepts(m + t) <==> m + t == Encode(m)
  {
    assert (m + t)[..|m|] == m && (m + t)[|m|..] == t;
    assert Encode(m)[|m|..] == Crc(m);
  }

  // ----- Errors of small weight -----

  /** Minimum distance 6: for messages of up to 20 bits every error in one to five bits of
      message and CRC is found. */
  lemma {:induction false} FindsUpToFiveErrors(m: seq<bool>, e: seq<bool>)
    requires |m| <= 20 && |e| == |m| + 11
    requires 1 <= Weight(e) <= 5
    ensures !Accepts(Xor(Encode(m), e))
  {
    UndetectedIffMultiple(m, e);
    if IsMultiple(e) {
      var q :| |q| + 11 == |e| && e == Mul(q, GENERATOR);
      MinimumWeight(q);
    }
  }

  /** Every error in an odd number of bits is found, in messages of every length. */
  lemma FindsOddErrors(m: seq<bool>, e: seq<bool>)
    requires |e| == |m| + 11 && Weight(e) % 2 == 1
    ensures !Accepts(Xor(Encode(m), e))
  {
    hide Accepts, Encode, Weight, Mul;
    UndetectedIffMultiple(m, e);
    if IsMultiple(e) {
      var q :| |q| + 11 == |e| && e == Mul(q, GENERATOR);
      EvenWeight(q);
    }
  }

  lemma XorDifference(a: seq<bool>, b: seq<bool>)
    requires |a| == |b|
    ensures Xor(a, Xor(a, b)) == b
  {
  }

  lemma WeightOfEqual(a: seq<bool>, b: seq<bool>)
    requires |a| == |b| && Weight(Xor(a, b)) == 0
    ensures a == b
  {
    var x := Xor(a, b);
    WeightZero(x);
    assert forall j :: 0 <= j < |a| ==> a[j] == b[j] || x[j];
  }

  /** Any two different code words of at most 31 bits differ in at least six places. */
  lemma {:induction false} CodeWordsAreFarApart(m: seq<bool>, m': seq<bool>)
    requires |m| == |m'| <= 20 && m != m'
    ensures Weight(Xor(Encode(m), Encode(m'))) >= 6
  {
    var e := Xor(Encode(m), Encode(m'));
    XorDifference(Encode(m), Encode(m'));
    EncodeAccepted(m', Crc(m'));
    assert Encode(m)[..|m|] == m && Encode(m')[..|m|] == m';
    if Weight(e) == 0 {
      WeightOfEqual(Encode(m), Encode(m'));
    } else if Weight(e) <= 5 {
      FindsUpToFiveErrors(m, e);
    }
  }

  /** For the driver: if header and CRC arrive with one to five bits wrong, the CRC computed from
      the header that arrived is not the one that arrived with it. */
  lemma CorruptedHeaderIsFound(h: Header, h': Header, t: Register, crc': bv32)
    requires IsRegisterWord(crc', t)
    requires 1 <= Weight(Xor(Encode(HeaderBits(h)), HeaderBits(h') + t)) <= 5
    ensures !IsRegisterWord(crc', Crc(HeaderBits(h')))
  {
    hide HeaderBits, Crc, Weight;
    if IsRegisterWord(crc', Crc(HeaderBits(h'))) {
      HoldsString(crc' << 21, t, Crc(HeaderBits(h')));
      if HeaderBits(h) == HeaderBits(h') {
        EqualWordsDifferNowhere(Encode(HeaderBits(h)));
      } else {
        CodeWordsAreFarApart(HeaderBits(h), HeaderBits(h'));
      }
    }
  }

  lemma EqualWordsDifferNowhere(a: seq<bool>)
    ensures Weight(Xor(a, a)) == 0
  {
    assert Xor(a, a) == Zeros(|a|);
    WeightZero(Xor(a, a));
  }

  lemma {:induction false} WeightPrefixZeros(n: nat, p: seq<bool>)
    ensures Weight(Zeros(n) + p) == Weight(p)
    decreases |p|
  {
    if p == [] {
      WeightZero(Zeros(n) + p);
      assert Zeros(n) + p == Zeros(|Zeros(n) + p|);
    } else {
      WeightPrefixZeros(n, p[..|p| - 1]);
      assert (Zeros(n) + p)[..n + |p| - 1] == Zeros(n) + p[..|p| - 1];
    }
  }

  lemma ShiftedGenerator(i: nat, k: nat)
    ensures IsMultiple(Zeros(i) + GENERATOR + Zeros(k))
  {
    var q := Zeros(i) + [true] + Zeros(k);
    ShiftedMultiple(GENERATOR, i, k);
    assert |q| + 11 == |Zeros(i) + GENERATOR + Zeros(k)|;
  }

  /** Five is the most: for every message some error in six bits escapes. */
  lemma {:induction false} SixErrorsCanEscape(m: seq<bool>) returns (e: seq<bool>)
    requires m != []
    ensures |e| == |m| + 11 && Weight(e) == 6 && Accepts(Xor(Encode(m), e))
  {
    hide Weight, Encode, Accepts, IsMultiple;
    e := Zeros(|m| - 1) + GENERATOR + Zeros(0);
    ShiftedGenerator(|m| - 1, 0);
    UndetectedIffMultiple(m, e);
    SixErrorsWeight(|m| - 1, e);
  }

  lemma SixErrorsWeight(n: nat, e: seq<bool>)
    requires e == Zeros(n) + GENERATOR + Zeros(0)
    ensures Weight(e) == 6
  {
    assert e == Zeros(n) + GENERATOR;
    WeightPrefixZeros(n, GENERATOR);
    GeneratorWeight();
  }

  lemma WeightTake(p: seq<bool>, k: nat)
    requires k < |p|
    ensures Weight(p[..k + 1]) == Weight(p[..k]) + if p[k] then 1 else 0
  {
    assert p[..k + 1][..k] == p[..k];
  }

  lemma GeneratorWeight()
    ensures Weight(GENERATOR) == 6
  {
    var g := GENERATOR;
    GeneratorFrontWeight(g);
    WeightTake(g, 6);
    WeightTake(g, 7);
    WeightTake(g, 8);
    WeightTake(g, 9);
    WeightTake(g, 10);
    WeightTake(g, 11);
    assert g[..12] == g;
  }

  lemma GeneratorFrontWeight(g: seq<bool>)
    requires g == GENERATOR
    ensures Weight(g[..6]) == 4
  {
    WeightTake(g, 0);
    WeightTake(g, 1);
    WeightTake(g, 2);
    WeightTake(g, 3);
    WeightTake(g, 4);
    WeightTake(g, 5);
  }

  // ----- The longest message with minimum distance 6 -----

  lemma FiveZeros(w: bv32, t: Register, k: nat, v: bv32)
    requires Holds(w, Feed(t, Zeros(k))) && v == FiveSteps(w, false, false, false, false, false)
    ensures Holds(v, Feed(t, Zeros(k + 5)))
  {
    hide FiveSteps, Feed, Holds;
    FiveStepsHold(w, t, Zeros(k), false, false, false, false, false);
    assert Zeros(k) + [false, false, false, false, false] == Zeros(k + 5);
  }

  lemma TwentyZeros(t: Register)
    requires Holds(POLY_WORD, t)
    ensures Holds(0x00200000, Feed(t, Zeros(20)))
  {
    hide Holds;
    assert Feed(t, Zeros(0)) == t;
    FiveZeros(0x70A00000, t, 0, 0x53800000);
    FiveZeros(0x53800000, t, 5, 0x85A00000);
    FiveZeros(0x85A00000, t, 10, 0x9DC00000);
    FiveZeros(0x9DC00000, t, 15, 0x00200000);
  }

  lemma LastBitHolds()
    ensures Holds(0x00200000, Zeros(10) + [true])
  {
    var t := Zeros(10) + [true];
    assert Holds(0x80000000, t[10..]);
    assert Holds(0x40000000, t[9..]);
    assert Holds(0x20000000, t[8..]);
    assert Holds(0x10000000, t[7..]);
    assert Holds(0x08000000, t[6..]);
    assert Holds(0x04000000, t[5..]);
    assert Holds(0x02000000, t[4..]);
    assert Holds(0x01000000, t[3..]);
    assert Holds(0x00800000, t[2..]);
    assert Holds(0x00400000, t[1..]);
  }

  /** After a single 1, twenty zeros bring the register to 1. */
  lemma OneAndTwentyZeros(n: nat)
    ensures Feed(Zeros(11), Zeros(n) + [true] + Zeros(20)) == Zeros(10) + [true]
  {
    var t: Register := GENERATOR[1..];
    ZerosKeepZero(n);
    assert (Zeros(n) + [true])[..n] == Zeros(n);
    StepCases(Zeros(11), true);
    assert Xor(Zeros(11)[1..] + [false], t) == t;
    FeedConcat(Zeros(11), Zeros(n) + [true], Zeros(20));
    GeneratorHolds();
    TwentyZeros(t);
    LastBitHolds();
    HoldsString(0x00200000, Feed(t, Zeros(20)), Zeros(10) + [true]);
  }

  lemma {:induction false} ZerosKeepZero(n: nat)
    ensures Feed(Zeros(11), Zeros(n)) == Zeros(11)
  {
    if n > 0 {
      ZerosKeepZero(n - 1);
      assert Zeros(n)[..n - 1] == Zeros(n - 1);
      assert Step(Zeros(11), false) == Zeros(11);
    }
  }

  /** An error in the bits i and j of n. */
  function Pair(n: nat, i: nat, j: nat): (e: seq<bool>)
    requires i < j < n
    ensures |e| == n && forall k :: 0 <= k < n ==> e[k] == (k == i || k == j)
  {
    Zeros(n)[i := true][j := true]
  }

  lemma PairWeight(n: nat, i: nat, j: nat)
    requires i < j < n
    ensures Weight(Pair(n, i, j)) == 2
  {
    hide Weight;
    var e := Pair(n, i, j);
    WeightClear(e, i);
    WeightClear(e[i := false], j);
    assert e[i := false][j := false] == Zeros(n);
    WeightZero(Zeros(n));
  }

  lemma MultipleXor(d: seq<bool>, e: seq<bool>)
    requires |d| == |e| && IsMultiple(d) && IsMultiple(e)
    ensures IsMultiple(Xor(d, e))
  {
    hide Mul;
    var p :| |p| + 11 == |d| && d == Mul(p, GENERATOR);
    var q :| |q| + 11 == |e| && e == Mul(q, GENERATOR);
    MulXor(p, q, GENERATOR);
    assert |Xor(p, q)| + 11 == |Xor(d, e)|;
  }

  lemma MultipleTimesX(e: seq<bool>)
    requires IsMultiple(e)
    ensures IsMultiple(e + [false])
  {
    hide Mul;
    var q :| |q| + 11 == |e| && e == Mul(q, GENERATOR);
    MulTimesX(q, GENERATOR);
    assert |q + [false]| + 11 == |e + [false]|;
  }

  lemma {:induction false} PairAtDistance31(n: nat, i: nat)
    requires i + 31 < n
    ensures IsMultiple(Pair(n, i, i + 31))
  {
    hide IsMultiple, Feed;
    if n == i + 32 {
      OneAndTwentyZeros(i);
      var u, t: Register := Zeros(i) + [true] + Zeros(20), Zeros(10) + [true];
      MultipleIffFeed(u, t);
      assert u + t == Pair(n, i, i + 31);
    } else {
      PairAtDistance31(n - 1, i);
      MultipleTimesX(Pair(n - 1, i, i + 31));
      assert Pair(n - 1, i, i + 31) + [false] == Pair(n, i, i + 31);
    }
  }

  lemma {:induction false} PairIsMultiple(n: nat, i: nat, j: nat)
    requires i < j < n && (j - i) % 31 == 0
    ensures IsMultiple(Pair(n, i, j))
    decreases j - i
  {
    hide IsMultiple, Pair;
    PairAtDistance31(n, i);
    if j != i + 31 {
      PairIsMultiple(n, i + 31, j);
      MultipleXor(Pair(n, i, i + 31), Pair(n, i + 31, j));
      assert Xor(Pair(n, i, i + 31), Pair(n, i + 31, j)) == Pair(n, i, j);
    }
  }

  /** x has order 31: an error in two bits escapes if and only if their distance is a multiple of
      31, in messages of every length. */
  lemma {:induction false} TwoErrorsEscapeIff(m: seq<bool>, i: nat, j: nat)
    requires i < j < |m| + 11
    ensures Accepts(Xor(Encode(m), Pair(|m| + 11, i, j))) <==> (j - i) % 31 == 0
  {
    hide Accepts, Encode, Weight, Mul, Pair, Vanishes;
    var e := Pair(|m| + 11, i, j);
    UndetectedIffMultiple(m, e);
    if IsMultiple(e) {
      var q :| |q| + 11 == |e| && e == Mul(q, GENERATOR);
      MultipleVanishes(q);
      PairWeight(|m| + 11, i, j);
      TwoTermsAgree(e, i, j);
    } else if (j - i) % 31 == 0 {
      PairIsMultiple(|m| + 11, i, j);
    }
  }

  /** Twenty bits is the most: in every longer message some error in two bits escapes. */
  lemma {:induction false} TwoErrorsCanEscape(m: seq<bool>) returns (e: seq<bool>)
    requires |m| >= 21
    ensures |e| == |m| + 11 && Weight(e) == 2 && Accepts(Xor(Encode(m), e))
  {
    hide Accepts, Encode, Weight, Pair;
    e := Pair(|m| + 11, 0, 31);
    PairWeight(|m| + 11, 0, 31);
    TwoErrorsEscapeIff(m, 0, 31);
  }

  // ----- Bursts -----

  lemma MultipleTimesXIff(e: seq<bool>)
    requires |e| >= 11
    ensures IsMultiple(e + [false]) <==> IsMultiple(e)
  {
    hide Mul;
    if IsMultiple(e + [false]) {
      var q :| |q| + 11 == |e + [false]| && e + [false] == Mul(q, GENERATOR);
      TrailingZero(q, GENERATOR);
      var p := q[..|q| - 1];
      assert e == (e + [false])[..|e|] == (Mul(p, GENERATOR) + [false])[..|e|] == Mul(p, GENERATOR);
      assert |p| + 11 == |e|;
    } else if IsMultiple(e) {
      MultipleTimesX(e);
    }
  }

  lemma {:induction false} TrailingZerosIff(e: seq<bool>, k: nat)
    requires |e| >= 11
    ensures IsMultiple(e + Zeros(k)) <==> IsMultiple(e)
    decreases k
  {
    hide IsMultiple;
    if k == 0 {
      assert e + Zeros(0) == e;
    } else {
      TrailingZerosIff(e, k - 1);
      MultipleTimesXIff(e + Zeros(k - 1));
      assert e + Zeros(k - 1) + [false] == e + Zeros(k);
    }
  }

  lemma LeadingZerosIff(i: nat, e: seq<bool>)
    requires |e| >= 11
    ensures IsMultiple(Zeros(i) + e) <==> IsMultiple(e)
  {
    hide IsMultiple, Feed;
    var u, t: Register := e[..|e| - 11], e[|e| - 11..];
    assert e == u + t && Zeros(i) + e == Zeros(i) + u + t;
    MultipleIffFeed(u, t);
    MultipleIffFeed(Zeros(i) + u, t);
    FeedConcat(Zeros(11), Zeros(i), u);
    ZerosKeepZero(i);
  }

  /** A burst escapes if and only if its own bits are a multiple of the generator, wherever it is and
      however long the message. */
  lemma {:induction false} BurstEscapesIff(m: seq<bool>, i: nat, b: seq<bool>, k: nat)
    requires i + |b| + k == |m| + 11 && |b| >= 11
    ensures Accepts(Xor(Encode(m), Zeros(i) + b + Zeros(k))) <==> IsMultiple(b)
  {
    hide Accepts, Encode, IsMultiple;
    UndetectedIffMultiple(m, Zeros(i) + b + Zeros(k));
    TrailingZerosIff(Zeros(i) + b, k);
    LeadingZerosIff(i, b);
  }

  lemma ElevenBitsMultiple(b: seq<bool>)
    requires |b| == 11
    ensures IsMultiple(b) <==> b == Zeros(11)
  {
    var none: seq<bool> := [];
    assert Mul(none, GENERATOR) == Zeros(11);
    assert |none| + 11 == |b|;
    if IsMultiple(b) {
      var q :| |q| + 11 == |b| && b == Mul(q, GENERATOR);
      assert q == none;
    }
  }

  lemma BurstInWindow(i: nat, b: seq<bool>, k: nat, at: nat, window: seq<bool>)
    requires at <= i && i + |b| <= at + 11 <= i + |b| + k && b != Zeros(|b|)
    requires window == (Zeros(i) + b + Zeros(k))[at..at + 11]
    ensures window != Zeros(11)
  {
    var e, n := Zeros(i) + b + Zeros(k), i - at;
    assert e[i..i + |b|] == b;
    assert window[n..n + |b|] == e[i..i + |b|];
    var j :| 0 <= j < |b| && b[j] != Zeros(|b|)[j];
    assert window[n + j] == window[n..n + |b|][j] == b[j];
  }

  /** Every single burst of at most 11 bits is found, in code words of every length. */
  lemma {:induction false} FindsBursts(m: seq<bool>, i: nat, b: seq<bool>, k: nat)
    requires i + |b| + k == |m| + 11 && |b| <= 11 && b != Zeros(|b|)
    ensures !Accepts(Xor(Encode(m), Zeros(i) + b + Zeros(k)))
  {
    hide Accepts, Encode, IsMultiple;
    var e := Zeros(i) + b + Zeros(k);
    var at := if i <= |m| then i else |m|;
    var window := e[at..at + 11];
    BurstInWindow(i, b, k, at, window);
    assert e == Zeros(at) + window + Zeros(|m| - at);
    BurstEscapesIff(m, at, window, |m| - at);
    ElevenBitsMultiple(window);
  }

  lemma TwelveBitsMultiple(b: seq<bool>)
    requires |b| == 12 && b[0]
    ensures IsMultiple(b) <==> b == GENERATOR
  {
    OneCoefficient(true);
    assert |[true]| + 11 == |b|;
    if IsMultiple(b) {
      var q :| |q| + 11 == |b| && b == Mul(q, GENERATOR);
      OneCoefficient(q[0]);
      assert q == [q[0]];
    }
  }

  lemma OneCoefficient(c: bool)
    ensures Mul([c], GENERATOR) == Scale(c, GENERATOR)
  {
    MulSnoc([], c, GENERATOR);
    assert [] + [c] == [c] && Mul([], GENERATOR) + [false] == Zeros(12);
    assert Zeros(0) + Scale(c, GENERATOR) == Scale(c, GENERATOR);
    assert Xor(Zeros(12), Scale(c, GENERATOR)) == Scale(c, GENERATOR);
  }

  /** Of the bursts of 12 bits only one pattern escapes, the generator's own. */
  lemma {:induction false} BurstOfTwelve(m: seq<bool>, i: nat, b: seq<bool>, k: nat)
    requires i + 12 + k == |m| + 11 && |b| == 12 && b[0]
    ensures Accepts(Xor(Encode(m), Zeros(i) + b + Zeros(k))) <==> b == GENERATOR
  {
    hide Accepts, Encode, IsMultiple;
    BurstEscapesIff(m, i, b, k);
    TwelveBitsMultiple(b);
  }

  /** A change within a window, seen as an error pattern that leaves the CRC alone. */
  lemma WindowError(a: seq<bool>, b: seq<bool>, c: seq<bool>, d: seq<bool>, t: seq<bool>)
    requires |b| == |c| && |t| == 11
    ensures Xor(a + b + d + t, Zeros(|a|) + Xor(b, c) + Zeros(|d| + 11)) == a + c + d + t
  {
    assert Zeros(|d| + 11) == Zeros(|d|) + Zeros(11);
    assert Xor(b, Xor(b, c)) == c;
    XorConcat(a, Zeros(|a|), b, Xor(b, c));
    XorConcat(a + b, Zeros(|a|) + Xor(b, c), d, Zeros(|d|));
    XorConcat(a + b + d, Zeros(|a|) + Xor(b, c) + Zeros(|d|), t, Zeros(11));
    assert Xor(a, Zeros(|a|)) == a && Xor(d, Zeros(|d|)) == d && Xor(t, Zeros(11)) == t;
    assert Zeros(|a|) + Xor(b, c) + Zeros(|d|) + Zeros(11) == Zeros(|a|) + Xor(b, c) + Zeros(|d| + 11);
  }

  lemma DifferentWindow(a: seq<bool>, b: seq<bool>, c: seq<bool>, d: seq<bool>, m: seq<bool>, m': seq<bool>)
    requires |b| == |c| <= 11 && b != c && m == a + b + d && m' == a + c + d
    ensures Crc(m) != Crc(m')
  {
    hide Crc, Weight;
    var x := Xor(b, c);
    assert x != Zeros(|x|) by {
      var j :| 0 <= j < |b| && b[j] != c[j];
      assert x[j] && !Zeros(|x|)[j];
    }
    WindowError(a, b, c, d, Crc(m));
    FindsBursts(m, |a|, x, |d| + 11);
    EncodeAccepted(m', Crc(m));
  }

  /** Within any window of at most 11 bits the CRC tells messages apart. */
  lemma {:induction false} CrcDecidesWindow(a: seq<bool>, b: seq<bool>, c: seq<bool>, d: seq<bool>)
    requires |b| == |c| <= 11
    ensures Crc(a + b + d) == Crc(a + c + d) <==> b == c
  {
    if b != c {
      DifferentWindow(a, b, c, d, a + b + d, a + c + d);
    }
  }

  // ----- Reaching a given CRC -----

  /** The 11 bits between a and d with which the CRC is t. */
  function WindowFor(a: seq<bool>, d: seq<bool>, t: Register): Register {
    Xor(Crc(a), Unfeed(Unfeed(t, d), Zeros(11)))
  }

  /** Within any window of 11 bits every CRC is reached, by exactly one filling. */
  lemma {:induction false} OneWindowReaches(a: seq<bool>, b: Register, d: seq<bool>, t: Register)
    ensures Crc(a + b + d) == t <==> b == WindowFor(a, d, t)
  {
    hide Feed, Unfeed, Step;
    FeedConcat(INIT, a, b);
    FeedConcat(INIT, a + b, d);
    FeedBijective(Feed(Crc(a), b), d);
    FeedBijective(t, d);
    FeedReaches(Crc(a), b, Unfeed(t, d));
  }
}
