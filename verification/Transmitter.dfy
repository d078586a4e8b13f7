/** The transmit side of the driver: configuring message buffers, binding frame IDs to them, and
    sending. */
module Transmitter {
  import opened FlexRayTypes
  import opened ShiftRegister
  import opened HeaderCrc
  import opened HeaderRegisters
  import opened BindTable
  import opened BindCrc
  import opened InitCrc
  import opened StoredCrc

  // ----- Binding history -----

  datatype BindCall = BindCall(ch: uint8, id: uint32, box: bv8)

  /** The binds made on one channel. */
  function BindingsOn(ch: uint8, calls: seq<BindCall>): seq<Binding> {
    if calls == [] then []
    else
      var c := calls[|calls| - 1];
      BindingsOn(ch, calls[..|calls| - 1]) + if c.ch == ch then [Binding(c.id, c.box)] else []
  }

  lemma BindingsOnSnoc(ch: uint8, calls: seq<BindCall>, c: BindCall)
    ensures BindingsOn(ch, calls + [c]) == BindingsOn(ch, calls) + if c.ch == ch then [Binding(c.id, c.box)] else []
  {
    assert (calls + [c])[..|calls|] == calls;
  }

  lemma BoundAllSnoc(t: seq<Entry>, bs: seq<Binding>, b: Binding)
    ensures BoundAll(t, bs + [b]) == Bound(BoundAll(t, bs), b.id, b.box)
  {
    assert (bs + [b])[..|bs|] == bs;
  }

  /** The table of a channel after a run of binds on all channels. */
  function TableAfter(ch: uint8, calls: seq<BindCall>): (t: seq<Entry>)
    ensures |t| == FLEXRAY_MCANMESSAGE_BOX_NUM
  {
    BoundAll(Empty(FLEXRAY_MCANMESSAGE_BOX_NUM), BindingsOn(ch, calls))
  }

  /** A bind changes the table of its own channel only. */
  lemma TableAfterBind(ch: uint8, calls: seq<BindCall>, c: BindCall)
    ensures TableAfter(ch, calls + [c]) ==
            if c.ch == ch then Bound(TableAfter(ch, calls), c.id, c.box) else TableAfter(ch, calls)
  {
    BindingsOnSnoc(ch, calls, c);
    if c.ch == ch {
      BoundAllSnoc(Empty(FLEXRAY_MCANMESSAGE_BOX_NUM), BindingsOn(ch, calls), Binding(c.id, c.box));
    } else {
      assert BindingsOn(ch, calls) + [] == BindingsOn(ch, calls);
    }
  }

  /** The box to which a send of the ID goes after a run of binds. */
  function Route(ch: uint8, calls: seq<BindCall>, id: uint32): bv8 {
    if ch == FLEXRAYA || ch == FLEXRAYB then Lookup(TableAfter(ch, calls), id) else DEFAULT_BOX
  }

  /** A send goes to the box of the last bind of its ID on its channel, for the first 64 IDs bound
      there; every other proper ID goes to box 1. */
  lemma RouteHistory(ch: uint8, calls: seq<BindCall>, id: uint32)
    requires (ch == 1 || ch == 2) && id != 0
    ensures var bs := BindingsOn(ch, calls);
            Route(ch, calls, id) == if id in Kept(bs, 64) then LastBox(bs, id) else 1
  {
    LookupAfterRun(FLEXRAY_MCANMESSAGE_BOX_NUM, BindingsOn(ch, calls), id);
  }

  /** With at most 64 distinct IDs bound on the channel, a send of any proper ID goes to the box
      of its last bind there, or to box 1 if there was none. */
  lemma RouteGivesLastBox(ch: uint8, calls: seq<BindCall>, id: uint32)
    requires (ch == 1 || ch == 2) && id != 0
    requires |Order(BindingsOn(ch, calls))| <= 64
    ensures Route(ch, calls, id) == LastBox(BindingsOn(ch, calls), id)
  {
    LookupGivesLastBox(FLEXRAY_MCANMESSAGE_BOX_NUM, BindingsOn(ch, calls), id);
  }

  function BindEach(ch: uint8, n: nat): seq<BindCall>
    requires n < 0x1_0000_0000
  {
    seq(n, i requires 0 <= i < n => BindCall(ch, (i + 1) as uint32, 2))
  }

  lemma {:induction false} BindEachOn(ch: uint8, n: nat)
    requires n < 0x1_0000_0000
    ensures BindingsOn(ch, BindEach(ch, n)) == OneEach(n)
  {
    if n > 0 {
      BindEachOn(ch, n - 1);
      assert BindEach(ch, n)[..n - 1] == BindEach(ch, n - 1);
      assert OneEach(n) == OneEach(n - 1) + [Binding(n as uint32, 2)];
    }
  }

  /** On other channels everything goes to box 1. */
  lemma RouteElsewhere(ch: uint8, calls: seq<BindCall>, id: uint32)
    requires ch != 1 && ch != 2
    ensures Route(ch, calls, id) == 1
  {
  }

  /** Sixty-four IDs fit: after binds of the IDs 1 to 64 to box 2, each of them goes there. */
  lemma SixtyFourIdsFit(ch: uint8, id: uint32)
    requires (ch == 1 || ch == 2) && 1 <= id <= 64
    ensures Route(ch, BindEach(ch, 64), id) == 2
  {
    BindEachOn(ch, 64);
    OrderOfOneEach(64);
    assert IdsUpTo(64)[id as nat - 1] == id;
    LastBoxOfOneEach(64, id);
    LookupAfterRun(64, OneEach(64), id);
  }

  /** The 65th ID is lost: after binds of the IDs 1 to 65 to box 2, a send of 65 goes to box 1. */
  lemma SixtyFifthIdIsLost(ch: uint8)
    requires ch == 1 || ch == 2
    ensures LastBox(BindingsOn(ch, BindEach(ch, 65)), 65) == 2
    ensures Route(ch, BindEach(ch, 65), 65) == 1
  {
    BindEachOn(ch, 65);
    BindCanBeLost(64);
  }

  /** The request written to IBCR for a box. */
  function SendRequest(box: bv8): bv32 {
    (box as bv32) & 0x3F
  }

  /** It is the box number modulo 64, so the box asked for exactly if that is below 64; box 64 is
      requested as box 0. */
  lemma SendRequestIsModulo(box: bv8)
    ensures SendRequest(box) == (box % 64) as bv32
    ensures SendRequest(box) == box as bv32 <==> box < 64
    ensures SendRequest(64) == 0
  {
  }

  // ----- Box configuration -----

  predicate IndicatorsClear(sync: bv32, sfi: bv32) {
    sync & 0x1 == 0 && sfi & 0x1 == 0
  }

  /** h is the header for the box, and its CRC field is the right one exactly if `right` says so. */
  predicate IsHeaderOf(h: Header, ch: uint8, b: BoxConfig, right: bool) {
    h == HeaderOf(ch, b, h.crc) && (CrcCorrect(h) <==> right)
  }

  lemma HeaderInFull(h: Header, ch: uint8, b: BoxConfig, right: bool)
    requires IsHeaderOf(h, ch, b, right)
    ensures h.mbi == 1 && h.txm == 0 && h.ppit == 0 && h.cyc == 0 && h.sync == 0 && h.sfi == 0
    ensures h.cfg == b.cfg && h.fid == b.fid && h.pl == b.pl && h.dp == b.dp
    ensures ch == 1 ==> h.cha == 1 && h.chb == 0
    ensures ch == 2 ==> h.cha == 0 && h.chb == 1
    ensures ch != 1 && ch != 2 ==> h.cha == 0 && h.chb == 0
    ensures CrcCorrect(h) <==> right
  {
    hide CrcCorrect;
    HeaderOfFields(ch, b, h.crc, h);
  }

  /** The headers for a list of boxes: each has the right CRC, the first one only if `clear` holds. */
  predicate AreHeadersOf(hs: seq<Header>, ch: uint8, boxes: seq<BoxConfig>, clear: bool) {
    |hs| == |boxes| && forall k :: 0 <= k < |hs| ==> IsHeaderOf(hs[k], ch, boxes[k], k > 0 || clear)
  }

  lemma AreHeadersOfNext(hs: seq<Header>, ch: uint8, boxes: seq<BoxConfig>, i: nat, clear: bool, h: Header)
    requires i < |boxes| && AreHeadersOf(hs, ch, boxes[..i], clear)
    requires IsHeaderOf(h, ch, boxes[i], i > 0 || clear)
    ensures AreHeadersOf(hs + [h], ch, boxes[..i + 1], clear)
  {
    hide IsHeaderOf;
    assert forall k :: 0 <= k < i ==> boxes[..i + 1][k] == boxes[..i][k];
  }

  lemma HeaderLeavesClear(h: Header, ch: uint8, b: BoxConfig, right: bool)
    requires IsHeaderOf(h, ch, b, right)
    ensures IndicatorsClear(h.sync, h.sfi)
  {
  }

  /** The CRC was computed from the header `seen`, before the indicators were cleared. */
  lemma CrcTakenEarly(seen: Header, h: Header)
    requires IsRegisterWord(h.crc, Crc(HeaderBits(seen)))
    requires h.fid == seen.fid && h.pl == seen.pl && h.sync == 0 && h.sfi == 0
    ensures CrcCorrect(h) <==> IndicatorsClear(seen.sync, seen.sfi)
  {
    SameProtectedBits(seen, h.(sync := seen.sync, sfi := seen.sfi));
    IndicatorsDecide(h, seen.sync, seen.sfi);
  }

  /** The headers written in one direction. */
  function HeadersTo(direction: uint8, boxes: seq<BoxConfig>, hs: seq<Header>): seq<Header>
    requires |hs| == |boxes|
  {
    if hs == [] then []
    else
      var n := |hs| - 1;
      HeadersTo(direction, boxes[..n], hs[..n]) + if boxes[n].direction == direction then [hs[n]] else []
  }

  lemma HeadersToNext(direction: uint8, boxes: seq<BoxConfig>, i: nat, hs: seq<Header>, h: Header, r: Words)
    requires i < |boxes| && |hs| == i
    ensures HeadersTo(direction, boxes[..i + 1], hs + [h]) ==
            HeadersTo(direction, boxes[..i], hs) + if boxes[i].direction == direction then [h] else []
    ensures var before, after := HeadersTo(direction, boxes[..i], hs), HeadersTo(direction, boxes[..i + 1], hs + [h]);
            SetAll(r, after) == if boxes[i].direction == direction then Set(SetAll(r, before), h) else SetAll(r, before)
  {
    var before := HeadersTo(direction, boxes[..i], hs);
    assert boxes[..i + 1][..i] == boxes[..i] && (hs + [h])[..i] == hs;
    assert (before + [h])[..|before|] == before && before + [] == before;
  }

  lemma {:induction false} HeadersToHas(direction: uint8, boxes: seq<BoxConfig>, hs: seq<Header>, k: nat)
    requires k < |hs| == |boxes| && boxes[k].direction == direction
    ensures hs[k] in HeadersTo(direction, boxes, hs)
  {
    var n := |hs| - 1;
    if k < n {
      HeadersToHas(direction, boxes[..n], hs[..n], k);
    }
  }

  lemma {:induction false} HeadersToFrom(direction: uint8, boxes: seq<BoxConfig>, hs: seq<Header>, h: Header)
    returns (k: nat)
    requires |hs| == |boxes| && h in HeadersTo(direction, boxes, hs)
    ensures k < |hs| && hs[k] == h && boxes[k].direction == direction
  {
    var n := |hs| - 1;
    if h in HeadersTo(direction, boxes[..n], hs[..n]) {
      k := HeadersToFrom(direction, boxes[..n], hs[..n], h);
    } else {
      k := n;
    }
  }

  /** Of the headers written to registers that held r, the last one can be read back exactly if it
      has every field bit that the registers had before or that an earlier one had. */
  lemma RunReadsBack(r: Words, written: seq<Header>)
    ensures written != [] ==>
            var n := |written| - 1;
            (Unpack(SetAll(r, written)) == FieldsOf(written[n]) <==>
             CoversRun(WordsOf(written[n]), r, written[..n]))
  {
    hide CoversRun, Unpack, FieldsOf, WordsOf, SetAll;
    if written != [] {
      var n := |written| - 1;
      assert written[..n] + [written[n]] == written;
      RunRecoversLastIff(r, written[..n], written[n]);
    }
  }

  /** The input boxes of `FLEXRAY_init`: payload length 8 and frame IDs from 1 to 63. */
  predicate IsInitBox(b: BoxConfig) {
    b.direction == INPUT ==> b.pl == 8 && 1 <= b.fid <= 63
  }

  lemma BoxHeaderWithin(h: Header, ch: uint8, b: BoxConfig, right: bool)
    requires IsHeaderOf(h, ch, b, right) && b.pl == 8 && b.fid <= 63
    ensures HeaderWithin(h, 63, 8)
    ensures right ==> IsBoxHeader(h, b.fid)
  {
    hide CrcCorrect;
    SmallIdWithin(h.fid, h.pl);
  }

  lemma SmallIdWithin(fid: bv32, pl: bv32)
    requires pl == 8 && fid <= 63
    ensures Within(Masked(fid, 0x7FF), 63) && Within(Masked(pl, 0x7F), 8)
  {
  }

  predicate IsInputBox(boxes: seq<BoxConfig>, k: nat, fid: bv32) {
    k < |boxes| && boxes[k].direction == INPUT && boxes[k].fid == fid
  }

  lemma InputHeader(ch: uint8, boxes: seq<BoxConfig>, hs: seq<Header>, clear: bool, k: nat, fid: bv32, h: Header)
    requires AreHeadersOf(hs, ch, boxes, clear) && forall b :: b in boxes ==> IsInitBox(b)
    requires IsInputBox(boxes, k, fid) && h == hs[k]
    ensures h in HeadersTo(INPUT, boxes, hs) && h.fid == fid && h.pl == 8
    ensures k > 0 || clear ==> IsBoxHeader(h, fid)
  {
    hide IsBoxHeader, HeaderWithin, CrcCorrect, HeadersTo;
    HeadersToHas(INPUT, boxes, hs, k);
    assert IsInitBox(boxes[k]);
    BoxHeaderWithin(hs[k], ch, boxes[k], k > 0 || clear);
  }

  lemma InputHeadersWithin(ch: uint8, boxes: seq<BoxConfig>, hs: seq<Header>, clear: bool, h: Header)
    requires AreHeadersOf(hs, ch, boxes, clear) && forall b :: b in boxes ==> IsInitBox(b)
    requires h in HeadersTo(INPUT, boxes, hs)
    ensures HeaderWithin(h, 63, 8)
  {
    hide IsHeaderOf, HeaderWithin, HeadersTo;
    var k := HeadersToFrom(INPUT, boxes, hs, h);
    assert IsInitBox(boxes[k]);
    BoxHeaderWithin(h, ch, boxes[k], k > 0 || clear);
  }

  /** Boxes like those of `FLEXRAY_init`, among them input boxes k2, k4, k8 and k63 with these frame
      IDs, configured on any registers: the CRC field is right afterwards if and only if the frame ID
      field was that of 447 but for its last six bits, and the length that of 77 but for bit 3.  After
      a bind it is right if and only if the ID is the one that fits. */
  lemma InitStoredIff(ch: uint8, boxes: seq<BoxConfig>, hs: seq<Header>, clear: bool, r: Words,
                      k2: nat, k4: nat, k8: nat, k63: nat, id: bv32)
    requires AreHeadersOf(hs, ch, boxes, clear) && forall b :: b in boxes ==> IsInitBox(b)
    requires IsInputBox(boxes, k2, 2) && IsInputBox(boxes, k4, 4)
    requires IsInputBox(boxes, k8, 8) && IsInputBox(boxes, k63, 63)
    requires clear || (k2 > 0 && k4 > 0 && k8 > 0)
    ensures var after := SetAll(r, HeadersTo(INPUT, boxes, hs));
            (CrcStored(after) <==> StartFits(r)) &&
            (CrcStored(BoundTo(after, id)) <==>
             id & 0x7FF == WordOf(FittingBits(Section2(Joined(LengthField(r), 8), 0x7FF))))
  {
    hide IsHeaderOf, HeaderWithin, IsBoxHeader, CrcStored, StartFits, BoundTo, SetAll, HeadersTo, WordOf, FittingBits,
      Joined, IsFullRun;
    var written := HeadersTo(INPUT, boxes, hs);
    forall h | h in written ensures HeaderWithin(h, 63, 8) {
      InputHeadersWithin(ch, boxes, hs, clear, h);
    }
    InputHeader(ch, boxes, hs, clear, k2, 2, hs[k2]);
    InputHeader(ch, boxes, hs, clear, k4, 4, hs[k4]);
    InputHeader(ch, boxes, hs, clear, k8, 8, hs[k8]);
    InputHeader(ch, boxes, hs, clear, k63, 63, hs[k63]);
    IsFull(written, hs[k4], hs[k2], hs[k8], hs[k63]);
    FullRunStoredIff(r, written, hs[k4], hs[k2], hs[k8], hs[k63]);
    FullRunBoundIff(r, written, hs[k4], hs[k2], hs[k8], hs[k63], id);
  }

  lemma OtherLength(r: Words, id: bv32)
    requires Joined(LengthField(r), 8) != 77
    ensures !StartFits(r) && !StartFits(BoundTo(r, id))
  {
  }

  /** Whatever is bound before, another initialisation does not help where the length field does not
      fit, as after a first one from cleared registers: it is 8 then, and 8 is not 77. */
  lemma InitAgainLosesTheCrc(ch: uint8, boxes: seq<BoxConfig>, hs: seq<Header>, clear: bool, r: Words,
                             k2: nat, k4: nat, k8: nat, k63: nat, id: bv32)
    requires AreHeadersOf(hs, ch, boxes, clear) && forall b :: b in boxes ==> IsInitBox(b)
    requires IsInputBox(boxes, k2, 2) && IsInputBox(boxes, k4, 4)
    requires IsInputBox(boxes, k8, 8) && IsInputBox(boxes, k63, 63)
    requires clear || (k2 > 0 && k4 > 0 && k8 > 0)
    requires Joined(LengthField(r), 8) != 77
    ensures !CrcStored(SetAll(BoundTo(r, id), HeadersTo(INPUT, boxes, hs)))
  {
    hide AreHeadersOf, CrcStored, SetAll, HeadersTo, BoundTo, StartFits, LengthField, Joined, IsInputBox,
      IsInitBox;
    InitStoredIff(ch, boxes, hs, clear, BoundTo(r, id), k2, k4, k8, k63, id);
    OtherLength(r, id);
  }

  /** From registers without other bits in the two fields, cleared ones among them: frame ID 63 with
      a CRC that belongs to 1130. */
  lemma InitLosesTheCrc(ch: uint8, boxes: seq<BoxConfig>, hs: seq<Header>, r: Words,
                        k1: nat, k2: nat, k8: nat, k63: nat, id: bv32)
    requires AreHeadersOf(hs, ch, boxes, true) && forall b :: b in boxes ==> IsInitBox(b)
    requires IsInputBox(boxes, k1, 1) && IsInputBox(boxes, k2, 2)
    requires IsInputBox(boxes, k8, 8) && IsInputBox(boxes, k63, 63)
    requires FieldsWithin(r, 63, 8)
    ensures var after := SetAll(r, HeadersTo(INPUT, boxes, hs));
            !CrcStored(after) && FrameIdField(after) == 63 &&
            (CrcStored(BoundTo(after, id)) <==> id & 0x7FF == 1130)
  {
    hide IsHeaderOf, FieldsWithin, HeaderWithin, IsBoxHeader, CrcStored, BoundTo, FrameIdField, SetAll, HeadersTo;
    var written := HeadersTo(INPUT, boxes, hs);
    forall h | h in written ensures HeaderWithin(h, 63, 8) {
      InputHeadersWithin(ch, boxes, hs, true, h);
    }
    InputHeader(ch, boxes, hs, true, k1, 1, hs[k1]);
    InputHeader(ch, boxes, hs, true, k2, 2, hs[k2]);
    InputHeader(ch, boxes, hs, true, k8, 8, hs[k8]);
    InputHeader(ch, boxes, hs, true, k63, 63, hs[k63]);
    RunLosesTheCrc(r, written, hs[k1], hs[k2], hs[k8], hs[k63], id);
  }

  lemma SameProtectedBits(g: Header, h: Header)
    requires g.sync == h.sync && g.sfi == h.sfi && g.fid == h.fid && g.pl == h.pl
    ensures HeaderBits(g) == HeaderBits(h)
  {
  }

  // ----- Frame IDs as words -----

  /** The ID as a machine word, bit by bit. */
  function IdWord(id: uint32): bv32 {
    if id == 0 then 0 else Doubled(IdWord(id / 2), id % 2 == 1)
  }

  function Doubled(w: bv32, b: bool): bv32 {
    (w << 1) | (if b then 1 else 0)
  }

  lemma DoubledBits(w: bv32, b: bool)
    ensures Doubled(w, b) & 0x001 != 0 <==> b
    ensures Doubled(w, b) & 0x002 != 0 <==> w & 0x001 != 0
    ensures Doubled(w, b) & 0x004 != 0 <==> w & 0x002 != 0
    ensures Doubled(w, b) & 0x008 != 0 <==> w & 0x004 != 0
    ensures Doubled(w, b) & 0x010 != 0 <==> w & 0x008 != 0
    ensures Doubled(w, b) & 0x020 != 0 <==> w & 0x010 != 0
    ensures Doubled(w, b) & 0x040 != 0 <==> w & 0x020 != 0
    ensures Doubled(w, b) & 0x080 != 0 <==> w & 0x040 != 0
    ensures Doubled(w, b) & 0x100 != 0 <==> w & 0x080 != 0
    ensures Doubled(w, b) & 0x200 != 0 <==> w & 0x100 != 0
    ensures Doubled(w, b) & 0x400 != 0 <==> w & 0x200 != 0
  {
  }

  /** One binary digit of a number. */
  predicate Digit(id: uint32, d: uint32)
    requires d != 0
  {
    id / d % 2 == 1
  }

  /** The low 11 bits of the word are the binary digits of the number. */
  predicate HasDigits(w: bv32, id: uint32) {
    (w & 0x001 != 0 <==> Digit(id, 0x001)) &&
    (w & 0x002 != 0 <==> Digit(id, 0x002)) &&
    (w & 0x004 != 0 <==> Digit(id, 0x004)) &&
    (w & 0x008 != 0 <==> Digit(id, 0x008)) &&
    (w & 0x010 != 0 <==> Digit(id, 0x010)) &&
    (w & 0x020 != 0 <==> Digit(id, 0x020)) &&
    (w & 0x040 != 0 <==> Digit(id, 0x040)) &&
    (w & 0x080 != 0 <==> Digit(id, 0x080)) &&
    (w & 0x100 != 0 <==> Digit(id, 0x100)) &&
    (w & 0x200 != 0 <==> Digit(id, 0x200)) &&
    (w & 0x400 != 0 <==> Digit(id, 0x400))
  }

  lemma HalfQuotient(id: uint32, half: uint32, d: uint32, twice: uint32)
    requires half == id / 2 && 0 < d <= 0x200 && twice as int == 2 * d as int
    ensures id / twice == half / d
  {
    var q := half as int / d as int;
    assert q * d as int <= half as int < q * d as int + d as int;
    assert 2 * (q * d as int) == q * twice as int;
    QuotientIs(id as int, twice as int, q);
  }

  lemma TimesGrows(a: int, b: int, n: int)
    requires n > 0
    ensures a <= b ==> a * n <= b * n
  {
  }

  lemma QuotientIs(x: int, n: int, q: int)
    requires n > 0 && q * n <= x < q * n + n
    ensures x / n == q
  {
    var p := x / n;
    assert p * n <= x < p * n + n;
    TimesGrows(p + 1, q, n);
    TimesGrows(q + 1, p, n);
  }

  lemma HalfDigit(id: uint32, half: uint32, d: uint32, twice: uint32)
    requires half == id / 2 && 0 < d <= 0x200 && twice as int == 2 * d as int
    ensures Digit(id, twice) <==> Digit(half, d)
  {
    HalfQuotient(id, half, d, twice);
  }

  lemma LastDigit(id: uint32)
    ensures Digit(id, 0x001) <==> id % 2 == 1
  {
  }

  lemma HalfDigits(id: uint32, half: uint32)
    requires half == id / 2
    ensures Digit(id, 0x001) <==> id % 2 == 1
    ensures Digit(id, 0x002) <==> Digit(half, 0x001)
    ensures Digit(id, 0x004) <==> Digit(half, 0x002)
    ensures Digit(id, 0x008) <==> Digit(half, 0x004)
    ensures Digit(id, 0x010) <==> Digit(half, 0x008)
    ensures Digit(id, 0x020) <==> Digit(half, 0x010)
    ensures Digit(id, 0x040) <==> Digit(half, 0x020)
    ensures Digit(id, 0x080) <==> Digit(half, 0x040)
    ensures Digit(id, 0x100) <==> Digit(half, 0x080)
    ensures Digit(id, 0x200) <==> Digit(half, 0x100)
    ensures Digit(id, 0x400) <==> Digit(half, 0x200)
  {
    hide Digit;
    LastDigit(id);
    HalfDigit(id, half, 0x001, 0x002);
    HalfDigit(id, half, 0x002, 0x004);
    HalfDigit(id, half, 0x004, 0x008);
    HalfDigit(id, half, 0x008, 0x010);
    HalfDigit(id, half, 0x010, 0x020);
    HalfDigit(id, half, 0x020, 0x040);
    HalfDigit(id, half, 0x040, 0x080);
    HalfDigit(id, half, 0x080, 0x100);
    HalfDigit(id, half, 0x100, 0x200);
    HalfDigit(id, half, 0x200, 0x400);
  }

  lemma DoubledDigits(w: bv32, half: uint32, id: uint32)
    requires half == id / 2 && HasDigits(w, half)
    ensures HasDigits(Doubled(w, id % 2 == 1), id)
  {
    hide Digit, Doubled;
    HalfDigits(id, half);
    DoubledBits(w, id % 2 == 1);
  }

  lemma ZeroDigits()
    ensures HasDigits(0, 0)
  {
  }

  lemma {:induction false} IdDigits(id: uint32)
    ensures HasDigits(IdWord(id), id)
  {
    hide HasDigits, Doubled;
    if id == 0 {
      ZeroDigits();
    } else {
      IdDigits(id / 2);
      DoubledDigits(IdWord(id / 2), id / 2, id);
    }
  }

  lemma BoundDigits(w: bv32, v: bv32, id: uint32)
    requires HasDigits(v, id)
    ensures HasDigits(WithFrameId(w, v), id)
  {
    hide WithFrameId, Digit;
    WithFrameIdBits(w, v);
  }

  /** The same digit by digit. */
  lemma DigitsAre(w: bv32, id: uint32)
    requires HasDigits(w, id)
    ensures w & 0x001 != 0 <==> id % 2 == 1
    ensures w & 0x002 != 0 <==> id / 0x002 % 2 == 1
    ensures w & 0x004 != 0 <==> id / 0x004 % 2 == 1
    ensures w & 0x008 != 0 <==> id / 0x008 % 2 == 1
    ensures w & 0x010 != 0 <==> id / 0x010 % 2 == 1
    ensures w & 0x020 != 0 <==> id / 0x020 % 2 == 1
    ensures w & 0x040 != 0 <==> id / 0x040 % 2 == 1
    ensures w & 0x080 != 0 <==> id / 0x080 % 2 == 1
    ensures w & 0x100 != 0 <==> id / 0x100 % 2 == 1
    ensures w & 0x200 != 0 <==> id / 0x200 % 2 == 1
    ensures w & 0x400 != 0 <==> id / 0x400 % 2 == 1
  {
  }

  /** What a bind leaves in the first register. */
  lemma BoundWord(w: bv32, id: uint32, after: bv32)
    requires after == WithFrameId(w, IdWord(id))
    ensures after & 0xFFFFF800 == w & 0xFFFFF800
    ensures after & 0x001 != 0 <==> id % 2 == 1
    ensures after & 0x002 != 0 <==> id / 0x002 % 2 == 1
    ensures after & 0x004 != 0 <==> id / 0x004 % 2 == 1
    ensures after & 0x008 != 0 <==> id / 0x008 % 2 == 1
    ensures after & 0x010 != 0 <==> id / 0x010 % 2 == 1
    ensures after & 0x020 != 0 <==> id / 0x020 % 2 == 1
    ensures after & 0x040 != 0 <==> id / 0x040 % 2 == 1
    ensures after & 0x080 != 0 <==> id / 0x080 % 2 == 1
    ensures after & 0x100 != 0 <==> id / 0x100 % 2 == 1
    ensures after & 0x200 != 0 <==> id / 0x200 % 2 == 1
    ensures after & 0x400 != 0 <==> id / 0x400 % 2 == 1
  {
    hide WithFrameId, IdWord, HasDigits;
    WithFrameIdBits(w, IdWord(id));
    IdDigits(id);
    BoundDigits(w, IdWord(id), id);
    DigitsAre(after, id);
  }

  class Transmitter {
    const tableA: Table
    const tableB: Table
    const lpdu: HeaderBuffer
    const wrds: array<bv32>
    var wrhs: Words
    var rdhs: Words
    var ibcm: bv32
    var ibcr: bv32
    ghost var calls: seq<BindCall>

    ghost predicate Valid()
      reads this, tableA.entries, tableB.entries
    {
      tableA.entries != tableB.entries && wrds.Length == DATA_WORDS &&
      wrds as object != tableA.entries && wrds as object != tableB.entries &&
      tableA.entries[..] == TableAfter(FLEXRAYA, calls) && tableB.entries[..] == TableAfter(FLEXRAYB, calls)
    }

    /** Statically allocated tables and header; the registers as the hardware has them. */
    constructor (wrhs: Words, rdhs: Words, wrds: array<bv32>)
      requires wrds.Length == 64
      ensures Valid() && calls == [] && this.wrhs == wrhs && this.rdhs == rdhs && this.wrds == wrds
      ensures lpdu.sync == 0 && lpdu.sfi == 0
      ensures fresh(lpdu) && fresh(tableA.entries) && fresh(tableB.entries)
    {
      tableA := new Table(FLEXRAY_MCANMESSAGE_BOX_NUM);
      tableB := new Table(FLEXRAY_MCANMESSAGE_BOX_NUM);
      lpdu := new HeaderBuffer();
      this.wrhs, this.rdhs, this.wrds := wrhs, rdhs, wrds;
      calls := [];
    }

    /** The frame ID in the header register: its eleven bits are the last binary digits of the ID. */
    method ReplaceFrameId(id: uint32)
      modifies this`wrhs
      ensures wrhs == BoundTo(old(wrhs), IdWord(id))
      ensures wrhs.w0 & 0xFFFFF800 == old(wrhs.w0) & 0xFFFFF800 && wrhs.w1 == old(wrhs.w1) && wrhs.w2 == old(wrhs.w2)
      ensures wrhs.w0 & 0x001 != 0 <==> id % 2 == 1
      ensures wrhs.w0 & 0x002 != 0 <==> id / 0x002 % 2 == 1
      ensures wrhs.w0 & 0x004 != 0 <==> id / 0x004 % 2 == 1
      ensures wrhs.w0 & 0x008 != 0 <==> id / 0x008 % 2 == 1
      ensures wrhs.w0 & 0x010 != 0 <==> id / 0x010 % 2 == 1
      ensures wrhs.w0 & 0x020 != 0 <==> id / 0x020 % 2 == 1
      ensures wrhs.w0 & 0x040 != 0 <==> id / 0x040 % 2 == 1
      ensures wrhs.w0 & 0x080 != 0 <==> id / 0x080 % 2 == 1
      ensures wrhs.w0 & 0x100 != 0 <==> id / 0x100 % 2 == 1
      ensures wrhs.w0 & 0x200 != 0 <==> id / 0x200 % 2 == 1
      ensures wrhs.w0 & 0x400 != 0 <==> id / 0x400 % 2 == 1
    {
      hide WithFrameId, IdWord;
      BoundWord(wrhs.w0, id, WithFrameId(wrhs.w0, IdWord(id)));
      wrhs := wrhs.(w0 := WithFrameId(wrhs.w0, IdWord(id)));
    }

    /** The table of the channel, if there is one. */
    method BindOnChannel(ch: uint8, id: uint32, box: bv8)
      requires Valid()
      modifies this`calls, tableA.entries, tableB.entries
      ensures Valid() && calls == old(calls) + [BindCall(ch, id, box)]
    {
      hide TableAfter, Bound;
      if ch == FLEXRAYA {
        tableA.Bind(id, box);
      } else if ch == FLEXRAYB {
        tableB.Bind(id, box);
      }
      TableAfterBind(FLEXRAYA, calls, BindCall(ch, id, box));
      TableAfterBind(FLEXRAYB, calls, BindCall(ch, id, box));
      calls := calls + [BindCall(ch, id, box)];
    }

    /** `FLEXRAY_Tx_bind` */
    method TxBind(ch: uint8, id: uint32, box: bv8)
      requires Valid()
      modifies this`wrhs, this`calls, tableA.entries, tableB.entries
      ensures Valid() && calls == old(calls) + [BindCall(ch, id, box)]
      ensures wrhs == BoundTo(old(wrhs), IdWord(id))
      ensures CrcStored(wrhs) <==> IdWord(id) & 0x7FF == FittingFrameId(old(wrhs))
      ensures wrhs.w0 & 0xFFFFF800 == old(wrhs.w0) & 0xFFFFF800 && wrhs.w1 == old(wrhs.w1) && wrhs.w2 == old(wrhs.w2)
      ensures wrhs.w0 & 0x001 != 0 <==> id % 2 == 1
      ensures wrhs.w0 & 0x002 != 0 <==> id / 0x002 % 2 == 1
      ensures wrhs.w0 & 0x004 != 0 <==> id / 0x004 % 2 == 1
      ensures wrhs.w0 & 0x008 != 0 <==> id / 0x008 % 2 == 1
      ensures wrhs.w0 & 0x010 != 0 <==> id / 0x010 % 2 == 1
      ensures wrhs.w0 & 0x020 != 0 <==> id / 0x020 % 2 == 1
      ensures wrhs.w0 & 0x040 != 0 <==> id / 0x040 % 2 == 1
      ensures wrhs.w0 & 0x080 != 0 <==> id / 0x080 % 2 == 1
      ensures wrhs.w0 & 0x100 != 0 <==> id / 0x100 % 2 == 1
      ensures wrhs.w0 & 0x200 != 0 <==> id / 0x200 % 2 == 1
      ensures wrhs.w0 & 0x400 != 0 <==> id / 0x400 % 2 == 1
    {
      hide CrcStored, FittingFrameId, BoundTo, TableAfter, IdWord;
      BindFitsIff(wrhs, IdWord(id));
      ReplaceFrameId(id);
      BindOnChannel(ch, id, box);
    }

    /** `Get_FlexrayMcanMESSAGE_BOX_Num` */
    method BoxNumber(ch: uint8, id: uint32) returns (box: bv8)
      requires Valid()
      ensures box == Route(ch, calls, id)
    {
      box := 1;
      if ch == FLEXRAYA {
        box := tableA.BoxOf(id);
      } else if ch == FLEXRAYB {
        box := tableB.BoxOf(id);
      }
    }

    /** `FLEXRAY_Tx`.  The length is bounded by the data section; within it the 8-bit index of the
        copying loop does not wrap. */
    method Tx(ch: uint8, id: uint32, buff: array<bv8>, len: nat)
      requires Valid() && len <= 64 && len <= buff.Length
      modifies this`ibcm, this`ibcr, wrds
      ensures Valid()
      ensures forall i :: 0 <= i < len ==> wrds[i] == old(buff[i]) as bv32
      ensures forall i :: len <= i < 64 ==> wrds[i] == old(wrds[i])
      ensures ibcm == 0x7 && ibcr == SendRequest(Route(ch, calls, id))
    {
      var i: uint8 := 0;
      while i as nat < len
        invariant i as nat <= len
        invariant Valid() && buff[..] == old(buff[..])
        invariant forall j :: 0 <= j < i as nat ==> wrds[j] == old(buff[j]) as bv32
        invariant forall j :: i as nat <= j < DATA_WORDS ==> wrds[j] == old(wrds[j])
      {
        wrds[i] := buff[i] as bv32;
        i := i + 1;
      }
      var box := BoxNumber(ch, id);
      Send(box);
    }

    /** `FlexRay_Send`, with the controller ready. */
    method Send(box: bv8)
      modifies this`ibcm, this`ibcr
      ensures ibcm == 0x7 && ibcr == SendRequest(box)
    {
      ibcm := (0x1 << 2) | (0x1 << 1) | 0x1;
      ibcr := SendRequest(box);
    }

    /** `FlexRay_Set` */
    method SetHeader(direction: uint8)
      modifies this`wrhs, this`rdhs
      ensures wrhs == if direction == 1 then Set(old(wrhs), lpdu.Value()) else old(wrhs)
      ensures rdhs == if direction == 2 then Set(old(rdhs), lpdu.Value()) else old(rdhs)
    {
      var h := lpdu.Value();
      if direction == INPUT {
        wrhs := wrhs.(w0 := Set0(wrhs.w0, h));
        wrhs := wrhs.(w1 := Set1(wrhs.w1, h));
        wrhs := wrhs.(w2 := Set2(wrhs.w2, h));
      } else if direction == OUTPUT {
        rdhs := rdhs.(w0 := Set0(rdhs.w0, h));
        rdhs := rdhs.(w1 := Set1(rdhs.w1, h));
        rdhs := rdhs.(w2 := Set2(rdhs.w2, h));
      }
    }

    /** The header of one box of `FLEXRAY_init`: the CRC is computed before the data pointer and
        the two indicators are assigned. */
    method FillHeader(ch: uint8, b: BoxConfig)
      modifies lpdu
      ensures lpdu.Value() == HeaderOf(ch, b, lpdu.crc)
      ensures lpdu.dp == b.dp && lpdu.sfi == 0 && lpdu.sync == 0 && lpdu.fid == b.fid && lpdu.pl == b.pl
      ensures ch == 1 ==> lpdu.cha == 1 && lpdu.chb == 0
      ensures ch == 2 ==> lpdu.cha == 0 && lpdu.chb == 1
      ensures ch != 1 && ch != 2 ==> lpdu.cha == 0 && lpdu.chb == 0
      ensures var seen := HeaderOf(ch, b, 0).(sync := old(lpdu.sync), sfi := old(lpdu.sfi));
              IsRegisterWord(lpdu.crc, Crc(HeaderBits(seen)))
    {
      hide Crc, HeaderBits, IsRegisterWord;
      lpdu.FillSections(ch, b);
      SameProtectedBits(lpdu.Value(), HeaderOf(ch, b, 0).(sync := lpdu.sync, sfi := lpdu.sfi));
      var crc := ComputeHeaderCrc(lpdu);
      lpdu.crc := crc;
      lpdu.dp := b.dp;
      lpdu.sfi := 0;
      lpdu.sync := 0;
    }

    /** One box of `FLEXRAY_init`. */
    method ConfigureBox(ch: uint8, b: BoxConfig) returns (ghost h: Header)
      modifies lpdu, this`wrhs, this`rdhs
      ensures IsHeaderOf(h, ch, b, IndicatorsClear(old(lpdu.sync), old(lpdu.sfi)))
      ensures lpdu.Value() == h
      ensures wrhs == if b.direction == 1 then Set(old(wrhs), h) else old(wrhs)
      ensures rdhs == if b.direction == 2 then Set(old(rdhs), h) else old(rdhs)
    {
      FillHeader(ch, b);
      h := lpdu.Value();
      CrcTakenEarly(HeaderOf(ch, b, 0).(sync := old(lpdu.sync), sfi := old(lpdu.sfi)), h);
      SetHeader(b.direction);
    }

    /** The box configurations of `FLEXRAY_init`, as a loop over their list. */
    method WriteBoxes(ch: uint8, boxes: seq<BoxConfig>) returns (ghost hs: seq<Header>)
      modifies lpdu, this`wrhs, this`rdhs
      ensures AreHeadersOf(hs, ch, boxes, IndicatorsClear(old(lpdu.sync), old(lpdu.sfi)))
      ensures wrhs == SetAll(old(wrhs), HeadersTo(INPUT, boxes, hs))
      ensures rdhs == SetAll(old(rdhs), HeadersTo(OUTPUT, boxes, hs))
    {
      hide IsHeaderOf, Set;
      hs := [];
      ghost var clear := IndicatorsClear(lpdu.sync, lpdu.sfi);
      var i := 0;
      while i < |boxes|
        invariant 0 <= i <= |boxes| && |hs| == i
        invariant IndicatorsClear(lpdu.sync, lpdu.sfi) == (i > 0 || clear)
        invariant AreHeadersOf(hs, ch, boxes[..i], clear)
        invariant wrhs == SetAll(old(wrhs), HeadersTo(INPUT, boxes[..i], hs))
        invariant rdhs == SetAll(old(rdhs), HeadersTo(OUTPUT, boxes[..i], hs))
      {
        ghost var h := ConfigureBox(ch, boxes[i]);
        HeaderLeavesClear(h, ch, boxes[i], i > 0 || clear);
        AreHeadersOfNext(hs, ch, boxes, i, clear, h);
        HeadersToNext(INPUT, boxes, i, hs, h, old(wrhs));
        HeadersToNext(OUTPUT, boxes, i, hs, h, old(rdhs));
        hs := hs + [h];
        i := i + 1;
      }
      assert boxes[..i] == boxes;
    }

    /** The boxes of `FLEXRAY_init`, and what they leave in the registers.  Every header is
        written with the right CRC, except the first one if the indicators were set before. */
    method ConfigureBoxes(ch: uint8, boxes: seq<BoxConfig>) returns (ghost hs: seq<Header>)
      modifies lpdu, this`wrhs, this`rdhs
      ensures AreHeadersOf(hs, ch, boxes, IndicatorsClear(old(lpdu.sync), old(lpdu.sfi)))
      ensures wrhs == SetAll(old(wrhs), HeadersTo(1, boxes, hs))
      ensures rdhs == SetAll(old(rdhs), HeadersTo(2, boxes, hs))
      ensures |hs| == |boxes|
      ensures forall k :: 0 <= k < |hs| ==>
                hs[k].mbi == 1 && hs[k].txm == 0 && hs[k].ppit == 0 && hs[k].cyc == 0 && hs[k].sync == 0 &&
                hs[k].sfi == 0 && hs[k].cfg == boxes[k].cfg && hs[k].fid == boxes[k].fid &&
                hs[k].pl == boxes[k].pl && hs[k].dp == boxes[k].dp
      ensures ch == 1 ==> forall k :: 0 <= k < |hs| ==> hs[k].cha == 1 && hs[k].chb == 0
      ensures ch == 2 ==> forall k :: 0 <= k < |hs| ==> hs[k].cha == 0 && hs[k].chb == 1
      ensures ch != 1 && ch != 2 ==> forall k :: 0 <= k < |hs| ==> hs[k].cha == 0 && hs[k].chb == 0
      ensures forall k :: 0 < k < |hs| ==> CrcCorrect(hs[k])
      ensures hs != [] ==> (CrcCorrect(hs[0]) <==> old(lpdu.sync) & 0x1 == 0 && old(lpdu.sfi) & 0x1 == 0)
      ensures var sent := HeadersTo(1, boxes, hs);
              sent != [] ==>
              var n := |sent| - 1;
              (Unpack(wrhs) == FieldsOf(sent[n]) <==> CoversRun(WordsOf(sent[n]), old(wrhs), sent[..n]))
      ensures var received := HeadersTo(2, boxes, hs);
              received != [] ==>
              var n := |received| - 1;
              (Unpack(rdhs) == FieldsOf(received[n]) <==> CoversRun(WordsOf(received[n]), old(rdhs), received[..n]))
    {
      hide IsHeaderOf, Set, SetAll, HeadersTo, CoversRun, Unpack, FieldsOf, WordsOf, CrcCorrect;
      ghost var clear := IndicatorsClear(lpdu.sync, lpdu.sfi);
      hs := WriteBoxes(ch, boxes);
      RunReadsBack(old(wrhs), HeadersTo(INPUT, boxes, hs));
      RunReadsBack(old(rdhs), HeadersTo(OUTPUT, boxes, hs));
      forall k | 0 <= k < |hs| {
        HeaderInFull(hs[k], ch, boxes[k], k > 0 || clear);
      }
    }
  }
}
