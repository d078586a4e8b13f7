# FlexRay driver: CRC, queues, bindings and header registers

This project models the FlexRay driver of the Security_Platform firmware
(`Security_Platform/communication/FlexRay.c`, with the types and constants of
`Security_Platform/communication/FlexRay.h`) and proves what its four working parts do.

1. **The header CRC.** `header_crc` runs an 11-bit shift register at the top of a 32-bit word
   over the 20 protected header bits. `Gf2Poly` defines polynomials over GF(2) with the school
   product, `ShiftRegister` proves that the register is the remainder of a polynomial division for
   messages of every length, and `HeaderCrc` proves that the driver's loop on 32-bit words computes
   exactly that. `HeaderCode` derives which transmission errors the CRC finds: all errors in up to
   five of the 31 bits, all errors in an odd number of bits, all bursts of up to 11 bits, and the
   exact limits of these. The hard case, four errors, is settled in `CodeDistance` with the roots of
   the generator in the field with 32 elements (`Gf32`): with g a root of x^5+x^3+1, the generator
   x^11+x^9+x^8+x^7+x^2+1 = (x+1)(x^5+x^3+1)(x^5+x^4+x^3+x+1) vanishes at 1, g and g^5.
2. **The receive queues.** `RecvQueue` proves that each ring of slots holds the last size-1 frames
   of its channel, in order, for any interleaving of calls; with the driver's
   `FLEXRAY_QUEUEMAX` of 10 these are nine.
3. **The binding tables.** `BindTable` proves that the array searched from the front is a bounded
   map, over every run of binds.
4. **The transmit side.** `HeaderRegisters` covers packing headers into registers; `StoredCrc`,
   `BindCrc` and `InitCrc` when the CRC in them is right after writes, after a bind and after the
   initialisation; `Transmitter` box configuration, binding and sending.

Words are bit-vectors of the source's width (`bv32`, `bv8`), lengths and queue indices an 8-bit `newtype`
and frame IDs a 32-bit one. `int` and `unsigned long` are taken to be 32 bits wide, as on the
TMS570. The relation between a word and a bit string is `WordBits.Holds`: the string is read from
bit 31 downwards and all lower bits are zero.

The loops and in-place updates of the driver are methods on classes (`HeaderBuffer`, `Queue`,
`Receiver`, `Table`, `Transmitter`); each is proved against a function on values (`Crc`, `Push`,
`Bound`, `Lookup`, `Set`), and the properties are proved about runs of those functions.

## Where the code does not do what one may expect

- `FlexRay_Set` writes with `|=`, and `FLEXRAY_init` never clears the registers between boxes. A
  header can be read back if and only if the registers had no field bit set that it does not have
  (`SetRecoversIff`), over a run if and only if it covers what was there before and every earlier
  header (`RunRecoversLastIff`); the first two boxes of `FLEXRAY_init` already fail
  (`SecondBoxGetsFrameIdThree`).
- So the CRC field need not fit the frame ID either. After a write to any registers it does if and
  only if the or of the two CRCs is the CRC of the or-ed frame IDs and lengths (`SetStoredIff`; over
  a run, `RunStoredIff`). Where registers and header were right, that is the case if and only if the
  bits that they share are a header with its own CRC (`SetStoredIffShared`).
- After all boxes of `FLEXRAY_init` it fits if and only if, before, the frame ID field was 447 but
  for its last six bits and the length field 77 but for bit 3 (`InitStoredIff`). From cleared
  registers it is wrong after two boxes (`TwoBoxesLoseTheCrc`) and after all (`InitLosesTheCrc`), and
  after a second initialisation too, whatever is bound in between (`InitAgainLosesTheCrc`).
- `FLEXRAY_init` computes the CRC before it assigns the two indicators that the CRC covers. The
  result is right if and only if they were clear before (`IndicatorsDecide`), which holds from the
  second box on whatever the start (`Transmitter.ConfigureBoxes`).
- `FLEXRAY_Tx_bind` replaces the frame ID in the header register but leaves the CRC. For every
  contents of the registers exactly one of the 2048 frame IDs fits, and it is computed from the
  registers before the call (`BindFitsIff`). Where the CRC was right it is the old frame ID
  (`BindKeepsCrcIff`); after the boxes of `FLEXRAY_init` on cleared registers it is 1130, so a bind of
  any of their own frame IDs leaves it wrong.
- The table takes no more than 64 IDs per channel; later ones are dropped silently, and sends of
  them go to box 1 (`RouteHistory`; `SixtyFifthIdIsLost` is such a run).
- Box numbers are requested modulo 64 (`SendRequestIsModulo`).

## Model

| member | source | states |
|---|---|---|
| Gf2Poly.MulXor | Security_Platform/communication/FlexRay.c:2156-2183 | Multiplication by the CRC polynomial is linear: (p + q) g = p g + q g |
| Gf2Poly.LeadingPartDecides | Security_Platform/communication/FlexRay.c:2156-2183 | Two multiples of a polynomial with the same leading part have the same quotient: division has at most one result |
| ShiftRegister.FeedIsRemainder | Security_Platform/communication/FlexRay.c:2164-2187 | For messages of every length n, a register value is a remainder of init x^n + message x^11 modulo the generator if and only if it is the one the step algorithm reaches |
| ShiftRegister.QuotientSnoc | Security_Platform/communication/FlexRay.c:2173-2183 | One step is one step of long division: the feedback bit is the next coefficient of the quotient |
| ShiftRegister.FeedXor | Security_Platform/communication/FlexRay.c:2167-2183 | The register is linear in initial value and message together |
| ShiftRegister.CrcAffine | Security_Platform/communication/FlexRay.c:2157-2183 | The CRC of the sum of three equally long messages is the sum of their CRCs |
| ShiftRegister.FeedBijective | Security_Platform/communication/FlexRay.c:2167-2183 | For every message, running the steps backwards undoes them and the other way round: the map from first to last register value is a bijection |
| ShiftRegister.FeedToZero | Security_Platform/communication/FlexRay.c:2167-2183 | Up to 11 bits empty the register if and only if they are its leading bits and the rest is zero |
| ShiftRegister.FeedReaches | Security_Platform/communication/FlexRay.c:2167-2183 | From any register to any other there is exactly one way of 11 bits, and which |
| ShiftRegister.ZeroResidue | Security_Platform/communication/FlexRay.c:2167-2187 | A message followed by 11 more bits leaves the register empty if and only if those bits are its CRC |
| HeaderCrc.HeaderWordHolds | Security_Platform/communication/FlexRay.c:2160-2168 | After packing and the first shift, the word holds the 20 header bits from bit 31 down: sync, startup, frame ID, payload length |
| HeaderCrc.StepHolds | Security_Platform/communication/FlexRay.c:2168-2183 | Shift and conditional XOR at the top of a 32-bit word are the step on bit strings |
| HeaderCrc.ShiftBit | Security_Platform/communication/FlexRay.c:2168-2183 | One pass of the loop takes the next header bit and makes one step with it |
| HeaderCrc.RunRegister | Security_Platform/communication/FlexRay.c:2162-2184 | After the loop the register word holds the CRC of the 20 bits |
| HeaderCrc.LoweredHolds | Security_Platform/communication/FlexRay.c:2185-2187 | Moved down by 21, the word is the 11-bit register value and nothing else |
| HeaderCrc.RegisterWordUnique | Security_Platform/communication/FlexRay.c:2185-2187 | Only one word is the 11-bit register value, so the result of `header_crc` is fixed as a number |
| HeaderCrc.ComputeHeaderCrc | Security_Platform/communication/FlexRay.c:2149-2188 | The function returns the CRC of the protected bits of the header, as an 11-bit number |
| Gf32.PowersDistinct | Security_Platform/communication/FlexRay.c:2156-2156 | The first 31 powers of the generator's root g are different |
| Gf32.PowersEqualIff | Security_Platform/communication/FlexRay.c:2156-2156 | Two powers of g are equal if and only if their exponents differ by a multiple of 31 |
| Gf32.FifthOfPower | Security_Platform/communication/FlexRay.c:2156-2156 | The powers of g^5 are the fifth powers of the powers of g |
| Gf32.FifthIsProduct | Security_Platform/communication/FlexRay.c:2156-2156 | The written-out fifth power is u times u^2 times u^2 in the product of the field |
| Gf32.Power5IsPower | Security_Platform/communication/FlexRay.c:2156-2156 | The k-th power of g^5 is the 5k-th power of g |
| Gf32.FifthPowers | Security_Platform/communication/FlexRay.c:2156-2156 | Four elements 1, u, v, w that add up to zero, with 1, u and v distinct, have fifth powers that do not |
| CodeSums.SumMultiple | Security_Platform/communication/FlexRay.c:2156-2183 | A sum over exponents that vanishes for the generator times every power of x vanishes for every multiple of the generator |
| CodeDistance.EvenWeight | Security_Platform/communication/FlexRay.c:2156-2183 | Every multiple of the generator has even weight |
| CodeDistance.MultipleVanishes | Security_Platform/communication/FlexRay.c:2156-2183 | Every multiple of the generator vanishes at g and at g^5 |
| CodeDistance.NotTwoOrFour | Security_Platform/communication/FlexRay.c:2156-2183 | A polynomial with constant term 1 and up to 31 coefficients that vanishes at g and g^5 has neither weight 2 nor 4 |
| CodeDistance.MinimumWeight | Security_Platform/communication/FlexRay.c:2156-2183 | A multiple of the generator with up to 31 coefficients is zero or has weight 6 or more |
| HeaderCode.EncodeAccepted | Security_Platform/communication/FlexRay.c:2149-2188 | A message with 11 more bits passes the comparison of the CRC if and only if they are its CRC |
| HeaderCode.UndetectedIffMultiple | Security_Platform/communication/FlexRay.c:2149-2188 | An error in message and CRC goes unnoticed if and only if it is a multiple of the generator, for messages of every length |
| HeaderCode.FindsUpToFiveErrors | Security_Platform/communication/FlexRay.c:2149-2188 | Every error in one to five bits of a header of up to 20 bits and its CRC is noticed |
| HeaderCode.FindsOddErrors | Security_Platform/communication/FlexRay.c:2156-2183 | Every error in an odd number of bits is noticed, in messages of every length |
| HeaderCode.CodeWordsAreFarApart | Security_Platform/communication/FlexRay.c:2149-2188 | Two different headers with their CRCs differ in at least six bits |
| HeaderCode.CorruptedHeaderIsFound | Security_Platform/communication/FlexRay.c:2149-2188 | If header and CRC arrive with one to five bits wrong, the CRC computed from the header that arrived is not the word that arrived |
| HeaderCode.SixErrorsCanEscape | Security_Platform/communication/FlexRay.c:2149-2188 | Five is the limit: for every message some error in six bits goes unnoticed |
| HeaderCode.TwoErrorsEscapeIff | Security_Platform/communication/FlexRay.c:2156-2183 | An error in two bits goes unnoticed if and only if their distance is a multiple of 31, in messages of every length |
| HeaderCode.TwoErrorsCanEscape | Security_Platform/communication/FlexRay.c:2154-2154 | Twenty bits is the limit: for every longer message some error in two bits goes unnoticed |
| HeaderCode.BurstEscapesIff | Security_Platform/communication/FlexRay.c:2156-2183 | A burst of 11 bits or more goes unnoticed if and only if its own bits are a multiple of the generator, at any position and in messages of every length |
| HeaderCode.FindsBursts | Security_Platform/communication/FlexRay.c:2156-2183 | Every error confined to 11 neighbouring bits is noticed, at any position and for messages of every length |
| HeaderCode.BurstOfTwelve | Security_Platform/communication/FlexRay.c:2156-2183 | Of the bursts of 12 bits exactly the generator's own pattern goes unnoticed |
| HeaderCode.CrcDecidesWindow | Security_Platform/communication/FlexRay.c:2149-2188 | Messages that agree outside a window of up to 11 bits have the same CRC if and only if they are equal |
| HeaderCode.OneWindowReaches | Security_Platform/communication/FlexRay.c:2149-2188 | In a window of 11 bits, between any bits before and after it, every CRC is reached by exactly one filling, given by running the register backwards |
| RecvQueue.PushAllKeepsLast | Security_Platform/communication/FlexRay.c:2496-2548 | After any run of enqueues a queue holds the last n of all its frames, in order |
| RecvQueue.ChannelsAreIndependent | Security_Platform/communication/FlexRay.c:2499-2546 | In any interleaving of calls for A, B and other directions each queue is what its own frames produce alone |
| RecvQueue.QueuesHoldLastFrames | Security_Platform/communication/FlexRay.c:2496-2548 | From empty queues, after any interleaved run, each queue is the last n frames of its channel |
| RecvQueue.LiveUnderWrite | Security_Platform/communication/FlexRay.c:2503-2508 | Writing the slot at tail changes no queued frame |
| RecvQueue.LiveTurns | Security_Platform/communication/FlexRay.c:2501-2511 | When the ring is full, moving head and tail drops exactly the oldest frame and adds the new one at the end |
| RecvQueue.RingPush | Security_Platform/communication/FlexRay.c:2501-2521 | From every well-formed ring, one enqueue adds the frame at the end and drops the first one only when full |
| RecvQueue.Queue.Enqueue | Security_Platform/communication/FlexRay.c:2501-2521 | From every well-formed state: the slot at the old tail has ID, len and the first len data words, no other slot changes, tail advances by one modulo the size, head too if the ring was full, and the contents get the frame at the end |
| RecvQueue.Queue.WriteFrame | Security_Platform/communication/FlexRay.c:2503-2508 | Only the slot at tail changes: its ID and len are the given ones, its words 0 to len-1 the data, the words after them the old ones |
| RecvQueue.Queue.ContentsAt | Security_Platform/communication/FlexRay.c:2501-2521 | The contents are (tail - head) modulo size frames, the k-th being ID and first len words of the slot head + k modulo size |
| RecvQueue.Queue.constructor | Security_Platform/communication/FlexRay.c:30-31 | A queue starts empty |
| RecvQueue.Receiver.RecvQueueIn | Security_Platform/communication/FlexRay.c:2496-2548 | Direction 1 fills the slot at the tail of queue A with ID, len and data words, direction 2 that of queue B; a queue that is not addressed keeps head, tail and slots; the record of calls that the contents follow grows by the call |
| RecvQueue.Receiver.HoldsLastFrames | Security_Platform/communication/FlexRay.c:2496-2548 | After any run of calls on a new receiver its two queues hold the last size-1 frames of their channels |
| BindTable.BindKeepsWellFormed | Security_Platform/communication/FlexRay.c:2452-2466 | Bound IDs stay in front of free entries and stay distinct, although the search stops at the first free entry |
| BindTable.BindMovesNothing | Security_Platform/communication/FlexRay.c:2452-2466 | A bind moves no bound ID and changes no entry of another ID |
| BindTable.RunMovesNothing | Security_Platform/communication/FlexRay.c:2452-2466 | Over every run of binds an ID keeps its entry |
| BindTable.BindRefinesMap | Security_Platform/communication/FlexRay.c:2444-2486 | On the abstract map a bind is an update if the ID is proper and bound already or there is room, and nothing otherwise |
| BindTable.LookupReadsMap | Security_Platform/communication/FlexRay.c:2404-2432 | Lookup of a proper ID gives the map's value, or box 1 |
| BindTable.RunRefinesMap | Security_Platform/communication/FlexRay.c:2404-2486 | After every run of binds from the initial table, ID 0 included, the table is well formed and equals the bounded map |
| BindTable.MapHistory | Security_Platform/communication/FlexRay.c:2444-2486 | The bounded map has exactly the first IDs bound, as many as fit, each with the box of its last bind |
| BindTable.LookupAfterRun | Security_Platform/communication/FlexRay.c:2404-2486 | After every run a lookup gives the last box bound to the ID if it was among the first IDs that fit, else box 1 |
| BindTable.LookupGivesLastBox | Security_Platform/communication/FlexRay.c:2404-2486 | With no more distinct IDs than entries a lookup gives the box of the last bind, or box 1 if there was none |
| BindTable.BindCanBeLost | Security_Platform/communication/FlexRay.c:2452-2466 | For every table size, binding one ID more than it has entries leaves the last one at the default box |
| BindTable.Table.Bind | Security_Platform/communication/FlexRay.c:2452-2466 | The first entry that is free or has the ID becomes ID and box, every other entry stays; without such an entry nothing changes |
| BindTable.Table.BoxOf | Security_Platform/communication/FlexRay.c:2410-2418 | The box of the first entry with the ID, or 1 if there is none; ID 0 included |
| BindTable.Table.constructor | Security_Platform/communication/FlexRay.c:17-26 | All entries are ID 0, box 0 |
| HeaderRegisters.SetCombinesFields | Security_Platform/communication/FlexRay.c:2199-2214 | Every field has its own bits: after a write each holds its old value or-ed with the header's, and no other |
| HeaderRegisters.SetKeepsReserved | Security_Platform/communication/FlexRay.c:2199-2214 | A write leaves every register bit outside the fields as it was, by literal masks |
| HeaderRegisters.SetPositions0 | Security_Platform/communication/FlexRay.c:2201-2208 | At which bits of the first register each field of header section 1 is or-ed in |
| HeaderRegisters.SetPositions12 | Security_Platform/communication/FlexRay.c:2210-2213 | At which bits of the other two registers payload length, CRC and data pointer are or-ed in |
| HeaderRegisters.FirstBoxWords | Security_Platform/communication/FlexRay.c:143-172 | The first box for channel A leaves 0x25000001, 0x00080638 and 0x80 in cleared registers |
| HeaderRegisters.SetRecoversIff | Security_Platform/communication/FlexRay.c:2199-2214 | The header's fields can be read back if and only if the registers had no field bit set that the header lacks |
| HeaderRegisters.SetRoundTrip | Security_Platform/communication/FlexRay.c:2199-2214 | From cleared registers every field can be read back |
| HeaderRegisters.RunRecoversLastIff | Security_Platform/communication/FlexRay.c:2199-2214 | After any run of writes to any registers the last header can be read back if and only if it has every field bit that the registers had before or that an earlier header had |
| HeaderRegisters.FieldsAccumulate | Security_Platform/communication/FlexRay.c:2199-2214 | Frame ID, payload length and CRC field: the old field or-ed with the masked new value |
| HeaderRegisters.SecondBoxGetsFrameIdThree | Security_Platform/communication/FlexRay.c:154-204 | The first two boxes of the initialisation, frame IDs 1 and 2, leave frame ID 3 in the register |
| HeaderRegisters.IndicatorsDecide | Security_Platform/communication/FlexRay.c:158-163 | A CRC taken before the indicators are cleared is right if and only if they were clear |
| HeaderRegisters.WithFrameIdUnpacks | Security_Platform/communication/FlexRay.c:2447-2448 | A bind replaces the frame ID field and no other |
| HeaderRegisters.WithFrameIdBits | Security_Platform/communication/FlexRay.c:2447-2448 | The eleven low bits of the register become those of the ID, the others stay, bit by bit |
| StoredCrc.CrcNumberAffine | Security_Platform/communication/FlexRay.c:2149-2188 | The CRC as a number is affine in frame ID and payload length |
| StoredCrc.SetStoredIff | Security_Platform/communication/FlexRay.c:2199-2214 | For every contents of the registers and every header: the CRC field is right after the write if and only if the or of the two CRCs is the CRC of the or-ed frame IDs and lengths, all known before it |
| StoredCrc.SetStoredIffShared | Security_Platform/communication/FlexRay.c:2199-2214 | Where registers and header are right by themselves: the CRC field is right after the write if and only if the bits that they share are a header with its own CRC |
| StoredCrc.SetStoresCrc | Security_Platform/communication/FlexRay.c:2199-2214 | The case of cleared registers: a header with the right CRC and clear indicators leaves a CRC field that can be recomputed from the registers |
| StoredCrc.RunStoredIff | Security_Platform/communication/FlexRay.c:2199-2214 | For every contents of the registers and every run of writes: the CRC field is right afterwards if and only if the or of all CRCs is the CRC of the or of all frame IDs and lengths |
| BindCrc.BindFitsIff | Security_Platform/communication/FlexRay.c:2447-2448 | For every contents of the registers: after a bind the CRC field belongs to the header if and only if the ID is the one frame ID computed from the CRC and payload length in the registers |
| BindCrc.BindKeepsCrcIff | Security_Platform/communication/FlexRay.c:2447-2448 | Where the CRC field was right, it stays right if and only if the ID is the old frame ID |
| InitCrc.TwoBoxesLoseTheCrc | Security_Platform/communication/FlexRay.c:154-204 | From cleared registers the first two boxes leave frame ID 3 with a wrong CRC; a bind of 3 leaves it wrong, and of all IDs only 1145 makes it right |
| InitCrc.AllOnesIff | Security_Platform/communication/FlexRay.c:2149-2188 | Of the headers with clear indicators whose frame ID ends in six ones and whose length has bit 3 set, exactly one has the CRC 0x7FF: frame ID 447, length 77 |
| InitCrc.FieldsOfAll | Security_Platform/communication/FlexRay.c:141-2096 | Whatever the registers held, headers of payload length 8 with frame IDs up to 63, among them 63 and three whose CRCs have all bits between them, leave the old frame ID or 63, the old length or 8, and CRC 0x7FF |
| InitCrc.FullRunStoredIff | Security_Platform/communication/FlexRay.c:141-2096 | For every contents of the registers before: after such a run the CRC field is right if and only if the frame ID field was 447 but for the last six bits and the length field 77 but for bit 3 |
| InitCrc.FullRunBoundIff | Security_Platform/communication/FlexRay.c:141-2096 | For every contents of the registers before: a bind after such a run makes the CRC field right if and only if the ID is the one that fits the CRC 0x7FF and the or-ed length |
| InitCrc.RunLosesTheCrc | Security_Platform/communication/FlexRay.c:141-2096 | The case of registers without other frame ID and length bits: frame ID 63 with a wrong CRC that only ID 1130 makes right |
| FlexRayTypes.HeaderBuffer.FillSections | Security_Platform/communication/FlexRay.c:143-157 | The fields of header sections 1 and 2 of a box, with the indicator of its own channel only |
| FlexRayTypes.HeaderBuffer.FillChannel | Security_Platform/communication/FlexRay.c:147-152 | On channel 1 cha is 1 and chb 0, on channel 2 cha is 0 and chb 1, on any other both are 0 |
| FlexRayTypes.HeaderOfFields | Security_Platform/communication/FlexRay.c:143-163 | The header of a box field by field: the constants, the values of its configuration, and 1 in the indicator of its own channel only |
| Transmitter.Transmitter.FillHeader | Security_Platform/communication/FlexRay.c:143-163 | The complete header of a box, with its data pointer, cleared indicators and the channel indicator in numbers; its CRC is that of the header with the old indicators |
| Transmitter.CrcTakenEarly | Security_Platform/communication/FlexRay.c:158-163 | The CRC of a box is right if and only if the indicators were clear when it was computed |
| Transmitter.HeadersToHas | Security_Platform/communication/FlexRay.c:2197-2231 | The header of every box with the direction is written in it |
| Transmitter.HeadersToFrom | Security_Platform/communication/FlexRay.c:2197-2231 | Nothing else is written in it |
| Transmitter.InitStoredIff | Security_Platform/communication/FlexRay.c:141-2127 | For every contents of the registers before: the input boxes of the initialisation leave a right CRC field if and only if it was 447 and 77 as above, and after a bind if and only if the ID is the fitting one; the indicators need not be clear at the start |
| Transmitter.InitAgainLosesTheCrc | Security_Platform/communication/FlexRay.c:141-2127 | Where the length field is not 77 but for bit 3, as after an initialisation of cleared registers, a bind of any ID and another initialisation leave a wrong CRC |
| Transmitter.InitLosesTheCrc | Security_Platform/communication/FlexRay.c:141-2127 | The case of registers without other frame ID and length bits: frame ID 63 with a CRC that belongs to 1130 |
| Transmitter.Transmitter.ConfigureBox | Security_Platform/communication/FlexRay.c:143-173 | One box: its header, and the registers of its direction or-ed with it |
| Transmitter.Transmitter.WriteBoxes | Security_Platform/communication/FlexRay.c:141-2127 | The loop: the headers of all boxes and the registers after them, for every list of boxes |
| Transmitter.Transmitter.ConfigureBoxes | Security_Platform/communication/FlexRay.c:141-2127 | For every list of boxes: every field of the headers written, in numbers and values of the configuration, each CRC right (the first if and only if the indicators were clear), the registers after all of them, and exactly when the last header of each direction can be read back |
| Transmitter.Transmitter.SetHeader | Security_Platform/communication/FlexRay.c:2197-2231 | Direction 1 or-s the header into WRHS, direction 2 into RDHS; the other registers stay, and an unknown direction changes nothing |
| Transmitter.Transmitter.TxBind | Security_Platform/communication/FlexRay.c:2444-2486 | The eleven frame ID bits of the register become the last binary digits of the ID, its other bits and the other registers stay; the table of the channel follows the run of binds and the other one stays; the CRC field is right afterwards if and only if the ID is the one that fitted before |
| Transmitter.BoundWord | Security_Platform/communication/FlexRay.c:2447-2448 | What a bind leaves in the register, digit by digit of the ID |
| Transmitter.TableAfterBind | Security_Platform/communication/FlexRay.c:2449-2485 | A bind is seen on its own channel only |
| Transmitter.Transmitter.BoxNumber | Security_Platform/communication/FlexRay.c:2404-2432 | The box for an ID after the binds so far; 1 on unknown channels |
| Transmitter.RouteHistory | Security_Platform/communication/FlexRay.c:2276-2289 | After any run of binds a send goes to the box of the last bind of its ID on its channel if the ID was among the first 64 there, else to box 1 |
| Transmitter.RouteGivesLastBox | Security_Platform/communication/FlexRay.c:2276-2289 | With at most 64 distinct IDs on the channel: to the box of the last bind, or box 1 if there was none |
| Transmitter.RouteElsewhere | Security_Platform/communication/FlexRay.c:2406-2408 | On a channel other than 1 and 2 every ID goes to box 1 |
| Transmitter.SixtyFourIdsFit | Security_Platform/communication/FlexRay.c:2449-2467 | After binds of the IDs 1 to 64 on a channel to box 2, each of them goes there |
| Transmitter.SixtyFifthIdIsLost | Security_Platform/communication/FlexRay.c:2449-2467 | After binds of the IDs 1 to 65 on a channel to box 2, a send of 65 goes to box 1 |
| Transmitter.Transmitter.Tx | Security_Platform/communication/FlexRay.c:2276-2289 | The bytes are written zero-extended to the first len data words, the others stay, and the box that the binds so far give to the ID is requested |
| Transmitter.Transmitter.Send | Security_Platform/communication/FlexRay.c:2297-2313 | The command mask is 7 and the request is for the given box |
| Transmitter.SendRequestIsModulo | Security_Platform/communication/FlexRay.c:2303-2303 | The requested box is the box number modulo 64: the box itself if and only if it is below 64, and box 0 for box 64 |
| Transmitter.Transmitter.constructor | Security_Platform/communication/FlexRay.c:17-29 | The driver starts with nothing bound and clear indicators |

## Left out

- Busy waits in `Fr_TransmitTxRx`, `FlexRay_Send`, `FLERAY_Rx` and the controller start-up: they depend on the E-Ray controller; waits count as satisfied and registers are plain words.
- `Fr_TransmitTxRx`: it writes the mask register twice, so the buffer it selects is not decided by this code; the struct `Fr_LSduPtr` that only it reads is left out with it.
- The interrupt handlers: the masks of bits 11 and 4 are compared with 1, so their branches cannot be taken; the queue is modelled at `FLEXRAY_RecvQueueIn`.
- Controller timing and the numbers of the 64 boxes: one loop over any list of box configurations stands for the 64 written-out blocks, and frame IDs need not be distinct in it (boxes 42 to 45 share two IDs).
- Lookup of ID 0: it matches free entries, so it is outside the map; the loop itself is covered by `Table.BoxOf`.
- Transmitter.Transmitter.Tx: requires len within the 64 data words and the caller's buffer; beyond them the source writes past the data section, and from 256 on its 8-bit index never reaches len.
- RecvQueue.Queue.Enqueue: requires len within the 64 words of a slot and the received data; beyond them the source writes past the slot. That the received words are not the ring itself is a precondition (`Outside`), true in C by type.
- The two switch branches per channel are one loop on the channel's own table or ring, since their texts are the same; the two branches of the enqueue share the filling of the slot.
- Consumers of the receive queues are not in this repository's driver; the queue law holds from every well-formed head and tail, and `Receiver.Restart` lets its record start again after one.
- CAN, Ethernet, lwIP and the device headers: tables, constants and register maps that carry no further state.
