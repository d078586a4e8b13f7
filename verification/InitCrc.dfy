/** The CRC field of the header registers after the boxes that `FLEXRAY_init` configures. */
module InitCrc {
  import opened FlexRayTypes
  import opened Gf2Poly
  import opened ShiftRegister
  import opened WordBits
  import opened HeaderCrc
  import opened HeaderCode
  import opened HeaderRegisters
  import opened StoredCrc
  import opened BindCrc

  // ----- The CRCs of some headers -----

  function Steps(w: bv32, s: seq<bool>): bv32
    requires |s| == 5
  {
    FiveSteps(w, s[0], s[1], s[2], s[3], s[4])
  }

  lemma StepsHold(w: bv32, t: Register, m: seq<bool>, s: seq<bool>)
    requires |s| == 5 && Holds(w, Feed(t, m))
    ensures Holds(Steps(w, s), Feed(t, m + s))
  {
    hide FiveSteps, Feed, Holds;
    FiveStepsHold(w, t, m, s[0], s[1], s[2], s[3], s[4]);
    assert s == [s[0], s[1], s[2], s[3], s[4]];
  }

  /** The CRC of 20 bits, five at a time. */
  lemma CrcInFives(a: seq<bool>, b: seq<bool>, c: seq<bool>, d: seq<bool>)
    requires |a| == 5 && |b| == 5 && |c| == 5 && |d| == 5
    ensures Holds(Steps(Steps(Steps(Steps(INIT_WORD, a), b), c), d), Crc(a + b + c + d))
  {
    hide Steps, Feed, Holds;
    InitHolds();
    FeedNothing(INIT);
    StepsHold(INIT_WORD, INIT, [], a);
    assert [] + a == a;
    StepsHold(Steps(INIT_WORD, a), INIT, a, b);
    StepsHold(Steps(Steps(INIT_WORD, a), b), INIT, a + b, c);
    StepsHold(Steps(Steps(Steps(INIT_WORD, a), b), c), INIT, a + b + c, d);
  }

  /** Five bits, by the number they make. */
  const F0: seq<bool> := [false, false, false, false, false]
  const F1: seq<bool> := [false, false, false, false, true]
  const F4: seq<bool> := [false, false, true, false, false]
  const F8: seq<bool> := [false, true, false, false, false]
  const F13: seq<bool> := [false, true, true, false, true]
  const F15: seq<bool> := [false, true, true, true, true]
  const F16: seq<bool> := [true, false, false, false, false]
  const F23: seq<bool> := [true, false, true, true, true]
  const F30: seq<bool> := [true, true, true, true, false]

  /** The 20 bits of some frame IDs and payload lengths. */
  lemma BitsOfBoxes()
    ensures PlainBits(1, 8) == F0 + F0 + F4 + F8
    ensures PlainBits(2, 8) == F0 + F0 + F8 + F8
    ensures PlainBits(4, 8) == F0 + F0 + F16 + F8
    ensures PlainBits(8, 8) == F0 + F1 + F0 + F8
  {
  }

  lemma BitsOfOthers()
    ensures PlainBits(1145, 8) == F4 + F15 + F4 + F8
    ensures PlainBits(1130, 8) == F4 + F13 + F8 + F8
    ensures PlainBits(447, 77) == F1 + F23 + F30 + F13
  {
  }

  lemma StepsOfBoxes()
    ensures Steps(Steps(Steps(Steps(INIT_WORD, F0), F0), F4), F8) == 0xC7000000
    ensures Steps(Steps(Steps(Steps(INIT_WORD, F0), F0), F8), F8) == 0x84E00000
    ensures Steps(Steps(Steps(Steps(INIT_WORD, F0), F0), F16), F8) == 0x03200000
    ensures Steps(Steps(Steps(Steps(INIT_WORD, F0), F1), F0), F8) == 0x7C000000
    ensures Steps(Steps(Steps(Steps(INIT_WORD, F4), F15), F4), F8) == 0xC7E00000
    ensures Steps(Steps(Steps(Steps(INIT_WORD, F4), F13), F8), F8) == 0xFFE00000
    ensures Steps(Steps(Steps(Steps(INIT_WORD, F1), F23), F30), F13) == 0xFFE00000
  {
  }

  lemma CrcOfBoxes()
    ensures IsRegisterWord(0x638, Crc(PlainBits(1, 8)))
    ensures IsRegisterWord(0x427, Crc(PlainBits(2, 8)))
    ensures IsRegisterWord(0x019, Crc(PlainBits(4, 8)))
    ensures IsRegisterWord(0x3E0, Crc(PlainBits(8, 8)))
    ensures IsRegisterWord(0x63F, Crc(PlainBits(1145, 8)))
    ensures IsRegisterWord(0x7FF, Crc(PlainBits(1130, 8)))
    ensures IsRegisterWord(0x7FF, Crc(PlainBits(447, 77)))
  {
    hide Crc, PlainBits, Holds, Steps;
    BitsOfBoxes();
    BitsOfOthers();
    StepsOfBoxes();
    CrcInFives(F0, F0, F4, F8);
    CrcInFives(F0, F0, F8, F8);
    CrcInFives(F0, F0, F16, F8);
    CrcInFives(F0, F1, F0, F8);
    CrcInFives(F4, F15, F4, F8);
    CrcInFives(F4, F13, F8, F8);
    CrcInFives(F1, F23, F30, F13);
  }

  // ----- After the first two boxes -----

  lemma CrcFieldOfBox(h: Header, crc: bv32)
    requires h.sync & 0x1 == 0 && h.sfi & 0x1 == 0 && CrcCorrect(h)
    requires IsRegisterWord(crc, Crc(PlainBits(h.fid, h.pl)))
    ensures h.crc == crc
  {
    hide IsRegisterWord, Crc, HeaderBits, PlainBits;
    PlainHeaderBits(h);
    RegisterWordUnique(h.crc, crc, Crc(PlainBits(h.fid, h.pl)));
  }

  lemma FieldsAfterTwo(h: Header, h': Header)
    requires h.pl == 8 && h'.pl == 8 && h.crc == 0x638 && h'.crc == 0x427
    ensures Unpack2(Set(Set(CLEARED, h), h').w1) == Section2(8, 0x63F)
  {
    FieldsAccumulate(CLEARED, h);
    FieldsAccumulate(Set(CLEARED, h), h');
  }

  /** The first two boxes that `FLEXRAY_init` configures leave frame ID 3 with a CRC field that
      belongs to frame ID 1145: a bind of 3, which changes nothing, leaves it wrong, and of all
      IDs only 1145 makes it right. */
  lemma TwoBoxesLoseTheCrc(h: Header, h': Header, r: Words, id: bv32)
    requires h.sync == 0 && h.sfi == 0 && h.fid == 1 && h.pl == 8 && CrcCorrect(h)
    requires h'.sync == 0 && h'.sfi == 0 && h'.fid == 2 && h'.pl == 8 && CrcCorrect(h')
    requires r == Set(Set(CLEARED, h), h')
    ensures !CrcStored(r) && FrameIdField(r) == 3
    ensures !CrcStored(BoundTo(r, 3))
    ensures CrcStored(BoundTo(r, id)) <==> id & 0x7FF == 1145
  {
    hide CrcStored, FittingFrameId, BoundTo, Crc, PlainBits, Set, CrcCorrect, IsRegisterWord;
    CrcOfBoxes();
    CrcFieldOfBox(h, 0x638);
    CrcFieldOfBox(h', 0x427);
    FieldsAfterTwo(h, h');
    SecondBoxGetsFrameIdThree(h, h');
    FitsCodeWord(r, 1145, 8, 0x63F);
    CrcStoredIff(r);
    BindFitsIff(r, 3);
    BindFitsIff(r, id);
  }

  // ----- After all boxes -----

  lemma WithinJoined(v: bv32, a: bv32, b: bv32)
    ensures Within(v, a) || v == b ==> Within(v, Joined(a, b))
  {
  }

  lemma JoinedWithin(a: bv32, b: bv32, w: bv32)
    requires Within(a, w) && Within(b, w)
    ensures Within(Joined(a, b), w)
  {
  }

  /** The registers' fields have every bit of the header's. */
  predicate HasFields(r: Words, h: Header) {
    Within(Masked(h.fid, 0x7FF), FrameIdField(r)) && Within(Masked(h.pl, 0x7F), LengthField(r)) &&
    Within(Masked(h.crc, 0x7FF), CrcField(r))
  }

  lemma SetHasFields(r: Words, g: Header, h: Header)
    ensures HasFields(r, h) || g == h ==> HasFields(Set(r, g), h)
  {
    hide Within, FrameIdField, LengthField, CrcField, Set, Joined, Masked;
    FieldsAccumulate(r, g);
    WithinJoined(Masked(h.fid, 0x7FF), FrameIdField(r), Masked(g.fid, 0x7FF));
    WithinJoined(Masked(h.pl, 0x7F), LengthField(r), Masked(g.pl, 0x7F));
    WithinJoined(Masked(h.crc, 0x7FF), CrcField(r), Masked(g.crc, 0x7FF));
  }

  /** What a run wrote stays. */
  lemma {:induction false} FieldsStay(r: Words, hs: seq<Header>, h: Header)
    requires h in hs
    ensures HasFields(SetAll(r, hs), h)
  {
    hide HasFields, Set;
    var n := |hs| - 1;
    SetHasFields(SetAll(r, hs[..n]), hs[n], h);
    if h in hs[..n] {
      FieldsStay(r, hs[..n], h);
    }
  }

  /** Registers and headers without bits outside fid and pl. */
  predicate FieldsWithin(r: Words, fid: bv32, pl: bv32) {
    Within(FrameIdField(r), fid) && Within(LengthField(r), pl)
  }

  predicate HeaderWithin(h: Header, fid: bv32, pl: bv32) {
    Within(Masked(h.fid, 0x7FF), fid) && Within(Masked(h.pl, 0x7F), pl)
  }

  lemma SetKeepsWithin(r: Words, h: Header, fid: bv32, pl: bv32)
    requires FieldsWithin(r, fid, pl) && HeaderWithin(h, fid, pl)
    ensures FieldsWithin(Set(r, h), fid, pl)
  {
    hide Within, FrameIdField, LengthField, CrcField, Set, Joined, Masked;
    FieldsAccumulate(r, h);
    JoinedWithin(FrameIdField(r), Masked(h.fid, 0x7FF), fid);
    JoinedWithin(LengthField(r), Masked(h.pl, 0x7F), pl);
  }

  lemma {:induction false} RunKeepsWithin(r: Words, hs: seq<Header>, fid: bv32, pl: bv32)
    requires FieldsWithin(r, fid, pl) && forall h :: h in hs ==> HeaderWithin(h, fid, pl)
    ensures FieldsWithin(SetAll(r, hs), fid, pl)
  {
    hide FieldsWithin, HeaderWithin, Set;
    if hs != [] {
      var n := |hs| - 1;
      RunKeepsWithin(r, hs[..n], fid, pl);
      SetKeepsWithin(SetAll(r, hs[..n]), hs[n], fid, pl);
    }
  }

  /** What the registers held stays, too. */
  lemma {:induction false} OldFieldsStay(r: Words, hs: seq<Header>)
    ensures Within(FrameIdField(r), FrameIdField(SetAll(r, hs))) && Within(LengthField(r), LengthField(SetAll(r, hs)))
  {
    hide Within, FrameIdField, LengthField, CrcField, Set, Joined, Masked;
    if hs == [] {
      WithinItself(FrameIdField(r));
      WithinItself(LengthField(r));
    } else {
      var before, h := SetAll(r, hs[..|hs| - 1]), hs[|hs| - 1];
      OldFieldsStay(r, hs[..|hs| - 1]);
      FieldsAccumulate(before, h);
      WithinJoined(FrameIdField(r), FrameIdField(before), Masked(h.fid, 0x7FF));
      WithinJoined(LengthField(r), LengthField(before), Masked(h.pl, 0x7F));
    }
  }

  lemma WithinItself(v: bv32)
    ensures Within(v, v)
  {
  }

  lemma WithinEither(v: bv32, a: bv32, b: bv32)
    requires Within(v, a) || Within(v, b)
    ensures Within(v, Joined(a, b))
  {
  }

  lemma Pinned(x: bv32, a: bv32, b: bv32)
    requires Within(a, x) && Within(b, x) && Within(x, Joined(a, b))
    ensures x == Joined(a, b)
  {
  }

  lemma AllOnesPinned(x: bv32, a: bv32, b: bv32, c: bv32)
    requires Within(a, x) && Within(b, x) && Within(c, x) && x <= 0x7FF && Joined(Joined(a, b), c) == 0x7FF
    ensures x == 0x7FF
  {
  }

  /** The run has headers of payload length 8 with frame IDs up to 63, among them one of 63 and three
      whose CRCs have all bits set between them. */
  predicate IsFullRun(hs: seq<Header>, a: Header, b: Header, c: Header, d: Header) {
    (forall h :: h in hs ==> HeaderWithin(h, 63, 8)) && a in hs && b in hs && c in hs && d in hs &&
    Joined(Joined(Masked(a.crc, 0x7FF), Masked(b.crc, 0x7FF)), Masked(c.crc, 0x7FF)) == 0x7FF &&
    d.fid == 63 && d.pl == 8
  }

  lemma HeaderWithinMore(h: Header, f: bv32, p: bv32)
    requires HeaderWithin(h, 63, 8)
    ensures HeaderWithin(h, Joined(f, 63), Joined(p, 8))
  {
    hide Within, Joined, Masked;
    WithinEither(Masked(h.fid, 0x7FF), f, 63);
    WithinEither(Masked(h.pl, 0x7F), p, 8);
  }

  /** Whatever the registers held, the fields after a full run. */
  lemma FieldsOfAll(r: Words, hs: seq<Header>, a: Header, b: Header, c: Header, d: Header)
    requires IsFullRun(hs, a, b, c, d)
    ensures FrameIdField(SetAll(r, hs)) == Joined(FrameIdField(r), 63)
    ensures LengthField(SetAll(r, hs)) == Joined(LengthField(r), 8)
    ensures CrcField(SetAll(r, hs)) == 0x7FF
  {
    hide Within, FrameIdField, LengthField, CrcField, HeaderWithin, Set, SetAll, Joined;
    var f, p, after := FrameIdField(r), LengthField(r), SetAll(r, hs);
    WithinItself(f);
    WithinItself(p);
    WithinEither(f, f, 63);
    WithinEither(p, p, 8);
    forall h | h in hs ensures HeaderWithin(h, Joined(f, 63), Joined(p, 8)) {
      HeaderWithinMore(h, f, p);
    }
    RunKeepsWithin(r, hs, Joined(f, 63), Joined(p, 8));
    OldFieldsStay(r, hs);
    FieldsStay(r, hs, a);
    FieldsStay(r, hs, b);
    FieldsStay(r, hs, c);
    FieldsStay(r, hs, d);
    MaskedFields();
    Pinned(FrameIdField(after), f, 63);
    Pinned(LengthField(after), p, 8);
    CrcFieldSmall(after);
    AllOnesPinned(CrcField(after), Masked(a.crc, 0x7FF), Masked(b.crc, 0x7FF), Masked(c.crc, 0x7FF));
  }

  lemma MaskedFields()
    ensures Masked(63, 0x7FF) == 63 && Masked(8, 0x7F) == 8
  {
  }

  lemma CrcFieldSmall(r: Words)
    ensures CrcField(r) <= 0x7FF && FrameIdField(r) <= 0x7FF && LengthField(r) <= 0x7F
  {
  }

  // ----- When all bits of a CRC are set -----

  lemma ZeroHolds()
    ensures Holds(0, Zeros(11))
  {
    assert Holds(0, Zeros(11)[11..]);
    assert Holds(0, Zeros(11)[10..]);
    assert Holds(0, Zeros(11)[9..]);
    assert Holds(0, Zeros(11)[8..]);
    assert Holds(0, Zeros(11)[7..]);
    assert Holds(0, Zeros(11)[6..]);
    assert Holds(0, Zeros(11)[5..]);
    assert Holds(0, Zeros(11)[4..]);
    assert Holds(0, Zeros(11)[3..]);
    assert Holds(0, Zeros(11)[2..]);
    assert Holds(0, Zeros(11)[1..]);
  }

  /** The register word after five bits and six zeros, from an empty register. */
  function Eleven(s: seq<bool>): bv32
    requires |s| == 5
  {
    Advance(Steps(Steps(0, s), F0), false)
  }

  lemma ElevenHolds(s: seq<bool>)
    requires |s| == 5
    ensures Holds(Eleven(s), Feed(Zeros(11), Zeros(2) + s + F0 + [false]))
  {
    hide Advance, Steps, Feed, Holds;
    ZeroHolds();
    ZerosKeepZero(2);
    StepsHold(0, Zeros(11), Zeros(2), s);
    StepsHold(Steps(0, s), Zeros(11), Zeros(2) + s, F0);
    AdvanceHolds(Steps(Steps(0, s), F0), Feed(Zeros(11), Zeros(2) + s + F0), false);
    FeedSnoc(Zeros(11), Zeros(2) + s + F0, false);
  }

  lemma ElevenNotEmpty(s: seq<bool>, n: bv32)
    requires |s| == 5 && n == Eleven(s) >> 21
    requires n & 0x080 == 0 && n & 0x008 == 0 && n & 0x004 == 0 && n & 0x002 == 0 && n & 0x001 == 0
    ensures !s[0] && !s[1] && !s[2] && !s[3] && !s[4]
  {
  }

  lemma ElevenBits(u: seq<bool>, s: seq<bool>, t: Register)
    requires |s| == 5 && u == Zeros(2) + s + F0 + [false]
    requires t == Feed(Zeros(11), u) && !t[3] && !t[7] && !t[8] && !t[9] && !t[10]
    ensures u == Zeros(13)
  {
    hide Eleven, Feed, Holds, WordOf, IsRegisterWord;
    var n := Eleven(s) >> 21;
    ElevenHolds(s);
    LoweredHolds(Eleven(s), t, n);
    RegisterWordIff(n, t);
    WordOfAt(t, n);
    ElevenNotEmpty(s, n);
  }

  lemma FrontParts(u: seq<bool>)
    requires |u| == 13 && !u[0] && !u[1] && forall k :: 7 <= k < 13 ==> !u[k]
    ensures u == Zeros(2) + u[2..7] + F0 + [false]
  {
  }

  /** Two headers that agree in the last six bits of the frame ID and in bit 3 of the length, and have
      the same CRC, are equal: their difference would empty the register. */
  lemma NoSharedCrc(x: seq<bool>)
    requires |x| == 20 && !x[0] && !x[1] && !x[16] && forall k :: 7 <= k < 13 ==> !x[k]
    requires Feed(Zeros(11), x) == Zeros(11)
    ensures x == Zeros(20)
  {
    hide Feed;
    var u, v := x[..13], x[13..];
    assert x == u + v;
    FrontParts(u);
    FeedConcat(Zeros(11), u, v);
    var t := Feed(Zeros(11), u);
    FeedToZero(t, v);
    assert t == v + Zeros(4);
    ElevenBits(u, u[2..7], t);
    ZerosKeepZero(13);
    assert v == t[..7];
  }

  lemma LowIdBits(f: bv32)
    requires f & 63 == 63
    ensures forall k :: 5 <= k < 11 ==> FrameIdBits(f)[k]
  {
    hide FrameIdBits;
    FrameIdBitsHigh(f);
    FrameIdBitsLow(f);
    LowMasks(f);
    assert FrameIdBits(f)[5] && FrameIdBits(f)[6] && FrameIdBits(f)[7];
    assert FrameIdBits(f)[8] && FrameIdBits(f)[9] && FrameIdBits(f)[10];
  }

  lemma LowMasks(f: bv32)
    requires f & 63 == 63
    ensures f & 0x020 != 0 && f & 0x010 != 0 && f & 0x008 != 0 && f & 0x004 != 0 && f & 0x002 != 0 && f & 0x001 != 0
  {
  }

  lemma PlainBitsAt(f: bv32, p: bv32, m: seq<bool>)
    requires m == PlainBits(f, p)
    ensures |m| == 20 && !m[0] && !m[1] && m[2..13] == FrameIdBits(f) && m[13..] == PayloadLengthBits(p)
  {
    hide FrameIdBits, PayloadLengthBits;
  }

  lemma FullBits(f: bv32, p: bv32, m: seq<bool>)
    requires m == PlainBits(f, p) && f & 63 == 63 && p & 0x08 != 0
    ensures |m| == 20 && !m[0] && !m[1] && m[16] && forall k :: 7 <= k < 13 ==> m[k]
  {
    hide FrameIdBits, PayloadLengthBits, PlainBits;
    PlainBitsAt(f, p, m);
    LowIdBits(f);
    PayloadLengthBitsAt(p);
    assert m[16] == m[13..][3];
    assert forall k :: 7 <= k < 13 ==> m[k] == m[2..13][k - 2];
  }

  lemma PayloadMasksDecide(a: bv32, b: bv32)
    requires (a & 0x40 != 0) == (b & 0x40 != 0) && (a & 0x20 != 0) == (b & 0x20 != 0)
    requires (a & 0x10 != 0) == (b & 0x10 != 0) && (a & 0x08 != 0) == (b & 0x08 != 0)
    requires (a & 0x04 != 0) == (b & 0x04 != 0) && (a & 0x02 != 0) == (b & 0x02 != 0)
    requires (a & 0x01 != 0) == (b & 0x01 != 0)
    ensures a & 0x7F == b & 0x7F
  {
  }

  lemma PlainBitsDecide(f: bv32, p: bv32, g: bv32, q: bv32)
    requires PlainBits(f, p) == PlainBits(g, q)
    ensures f & 0x7FF == g & 0x7FF && p & 0x7F == q & 0x7F
  {
    hide FrameIdBits, PayloadLengthBits, PlainBits;
    PlainBitsAt(f, p, PlainBits(f, p));
    PlainBitsAt(g, q, PlainBits(g, q));
    FrameIdBitsDecide(f, g);
    PayloadLengthBitsAt(p);
    PayloadLengthBitsAt(q);
    PayloadMasksDecide(p, q);
  }

  lemma SameCrcSameBits(m: seq<bool>, m': seq<bool>)
    requires |m| == 20 && !m[0] && !m[1] && m[16] && forall k :: 7 <= k < 13 ==> m[k]
    requires |m'| == 20 && !m'[0] && !m'[1] && m'[16] && forall k :: 7 <= k < 13 ==> m'[k]
    requires Crc(m) == Crc(m')
    ensures m == m'
  {
    hide Feed;
    var x := Xor(m, m');
    FeedXor(INIT, INIT, m, m');
    assert Xor(INIT, INIT) == Zeros(11) == Xor(Crc(m), Crc(m'));
    NoSharedCrc(x);
    assert forall k :: 0 <= k < 20 ==> m[k] == m'[k] || x[k];
  }

  /** Of the headers whose frame ID ends in six ones and whose length has bit 3 set, exactly one has a
      CRC of all ones: frame ID 447 with payload length 77. */
  lemma AllOnesIff(f: bv32, p: bv32)
    requires f <= 0x7FF && p <= 0x7F && f & 63 == 63 && p & 0x08 != 0
    ensures CrcNumber(f, p) == 0x7FF <==> f == 447 && p == 77
  {
    hide WordOf, Crc, PlainBits, IsRegisterWord;
    var m, m' := PlainBits(f, p), PlainBits(447, 77);
    CrcOfBoxes();
    RegisterWordIff(0x7FF, Crc(m'));
    if CrcNumber(f, p) == 0x7FF {
      RegisterWordIff(0x7FF, Crc(m));
      RegisterWordDecides(0x7FF, Crc(m), Crc(m'));
      FullBits(f, p, m);
      FullBits(447, 77, m');
      SameCrcSameBits(m, m');
      PlainBitsDecide(f, p, 447, 77);
    }
  }

  // ----- The law of the whole run -----

  /** The start from which a full run ends well. */
  predicate StartFits(r: Words) {
    Joined(FrameIdField(r), 63) == 447 && Joined(LengthField(r), 8) == 77
  }

  lemma JoinedFull(f: bv32, p: bv32)
    requires f <= 0x7FF && p <= 0x7F
    ensures Joined(f, 63) <= 0x7FF && Joined(p, 8) <= 0x7F && Joined(f, 63) & 63 == 63 && Joined(p, 8) & 0x08 != 0
  {
  }

  lemma JoinedAllOnesIff(f: bv32, p: bv32)
    requires f <= 0x7FF && p <= 0x7F
    ensures CrcNumber(Joined(f, 63), Joined(p, 8)) == 0x7FF <==> Joined(f, 63) == 447 && Joined(p, 8) == 77
  {
    hide CrcNumber, Joined;
    JoinedFull(f, p);
    AllOnesIff(Joined(f, 63), Joined(p, 8));
  }

  lemma FieldsStoredIff(after: Words, f: bv32, p: bv32)
    requires f <= 0x7FF && p <= 0x7F
    requires FrameIdField(after) == Joined(f, 63) && LengthField(after) == Joined(p, 8) && CrcField(after) == 0x7FF
    ensures CrcStored(after) <==> Joined(f, 63) == 447 && Joined(p, 8) == 77
  {
    hide CrcStored, CrcNumber, FrameIdField, LengthField, CrcField, Joined;
    StoredIffNumber(after);
    JoinedAllOnesIff(f, p);
  }

  /** For every contents of the registers: a full run leaves the right CRC if and only if they held a
      frame ID that differs from 447 in its last six bits only, and a length that differs from 77 in
      bit 3 only. */
  lemma FullRunStoredIff(r: Words, hs: seq<Header>, a: Header, b: Header, c: Header, d: Header)
    requires IsFullRun(hs, a, b, c, d)
    ensures CrcStored(SetAll(r, hs)) <==> StartFits(r)
  {
    hide CrcStored, CrcNumber, FrameIdField, LengthField, CrcField, SetAll, IsFullRun, Joined;
    FieldsOfAll(r, hs, a, b, c, d);
    CrcFieldSmall(r);
    FieldsStoredIff(SetAll(r, hs), FrameIdField(r), LengthField(r));
  }

  /** And a bind after it makes the CRC right if and only if it binds the frame ID that fits. */
  lemma FullRunBoundIff(r: Words, hs: seq<Header>, a: Header, b: Header, c: Header, d: Header, id: bv32)
    requires IsFullRun(hs, a, b, c, d)
    ensures CrcStored(BoundTo(SetAll(r, hs), id)) <==>
            id & 0x7FF == WordOf(FittingBits(Section2(Joined(LengthField(r), 8), 0x7FF)))
  {
    hide CrcStored, BoundTo, WordOf, FittingBits, SetAll, IsFullRun, Unpack1;
    FieldsOfAll(r, hs, a, b, c, d);
    BindFitsIff(SetAll(r, hs), id);
  }

  /** A header of payload length 8 with clear indicators and the right CRC. */
  predicate IsBoxHeader(h: Header, fid: bv32) {
    h.sync == 0 && h.sfi == 0 && h.fid == fid && h.pl == 8 && CrcCorrect(h)
  }

  lemma BoxCrcs(h: Header)
    ensures IsBoxHeader(h, 1) ==> h.crc == 0x638
    ensures IsBoxHeader(h, 2) ==> h.crc == 0x427
    ensures IsBoxHeader(h, 4) ==> h.crc == 0x019
    ensures IsBoxHeader(h, 8) ==> h.crc == 0x3E0
  {
    hide CrcCorrect, Crc, PlainBits, IsRegisterWord;
    CrcOfBoxes();
    if IsBoxHeader(h, 1) {
      CrcFieldOfBox(h, 0x638);
    } else if IsBoxHeader(h, 2) {
      CrcFieldOfBox(h, 0x427);
    } else if IsBoxHeader(h, 4) {
      CrcFieldOfBox(h, 0x019);
    } else if IsBoxHeader(h, 8) {
      CrcFieldOfBox(h, 0x3E0);
    }
  }

  lemma BoxesAreFull(a: bv32, b: bv32, c: bv32)
    requires (a == 0x638 || a == 0x019) && b == 0x427 && c == 0x3E0
    ensures Joined(Joined(Masked(a, 0x7FF), Masked(b, 0x7FF)), Masked(c, 0x7FF)) == 0x7FF
  {
  }

  /** A run with the boxes of frame IDs 2, 8 and 63, and 1 or 4, is a full run. */
  lemma IsFull(hs: seq<Header>, a: Header, h2: Header, h8: Header, h63: Header)
    requires forall h :: h in hs ==> HeaderWithin(h, 63, 8)
    requires a in hs && h2 in hs && h8 in hs && h63 in hs
    requires (IsBoxHeader(a, 1) || IsBoxHeader(a, 4)) && IsBoxHeader(h2, 2) && IsBoxHeader(h8, 8)
    requires h63.fid == 63 && h63.pl == 8
    ensures IsFullRun(hs, a, h2, h8, h63)
  {
    hide IsBoxHeader, HeaderWithin, Joined, Masked;
    BoxCrcs(a);
    BoxCrcs(h2);
    BoxCrcs(h8);
    BoxesAreFull(a.crc, h2.crc, h8.crc);
  }

  lemma WithinMeansJoined(x: bv32, a: bv32)
    requires Within(x, a)
    ensures Joined(x, a) == a
  {
  }

  /** From registers without other bits in the two fields, cleared ones among them: the run leaves
      frame ID 63 with a CRC that belongs to 1130. */
  lemma RunLosesTheCrc(r: Words, hs: seq<Header>, h1: Header, h2: Header, h8: Header, h63: Header, id: bv32)
    requires FieldsWithin(r, 63, 8) && forall h :: h in hs ==> HeaderWithin(h, 63, 8)
    requires h1 in hs && h2 in hs && h8 in hs && h63 in hs
    requires IsBoxHeader(h1, 1) && IsBoxHeader(h2, 2) && IsBoxHeader(h8, 8) && IsBoxHeader(h63, 63)
    ensures !CrcStored(SetAll(r, hs)) && FrameIdField(SetAll(r, hs)) == 63
    ensures CrcStored(BoundTo(SetAll(r, hs), id)) <==> id & 0x7FF == 1130
  {
    hide CrcStored, FittingFrameId, BoundTo, Crc, PlainBits, Set, SetAll, CrcCorrect, IsRegisterWord, HeaderWithin,
      Within, Joined, IsFullRun, Unpack1;
    IsFull(hs, h1, h2, h8, h63);
    FieldsOfAll(r, hs, h1, h2, h8, h63);
    WithinMeansJoined(FrameIdField(r), 63);
    WithinMeansJoined(LengthField(r), 8);
    CrcOfBoxes();
    FitsCodeWord(SetAll(r, hs), 1130, 8, 0x7FF);
    CrcStoredIff(SetAll(r, hs));
    BindFitsIff(SetAll(r, hs), id);
  }
}
