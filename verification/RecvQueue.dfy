/** The receive queue of one channel: a ring of frame slots that drops the oldest frame when full. */
module RecvQueue {
  import opened FlexRayTypes

  /** A slot of the ring (FLEXRAY_REVICE_BUFF); words beyond len are left over from older frames. */
  datatype Slot = Slot(len: uint8, id: uint32, words: seq<bv32>)

  /** What a receiver reads from a slot. */
  datatype Frame = Frame(id: uint32, words: seq<bv32>)

  predicate SlotOk(s: Slot) {
    |s.words| == DATA_WORDS && s.len as nat <= DATA_WORDS
  }

  function View(s: Slot): Frame
    requires SlotOk(s)
  {
    Frame(s.id, s.words[..s.len as nat])
  }

  function Views(slots: seq<Slot>): (fs: seq<Frame>)
    requires forall s :: s in slots ==> SlotOk(s)
    ensures |fs| == |slots|
  {
    seq(|slots|, i requires 0 <= i < |slots| => View(slots[i]))
  }

  // ----- Specification: the last frames, in order -----

  /** The last n elements. */
  function Last<T>(s: seq<T>, n: nat): seq<T> {
    if |s| <= n then s else s[|s| - n..]
  }

  /** Enqueueing into a queue that keeps n frames. */
  function Push<T>(s: seq<T>, x: T, n: nat): seq<T> {
    Last(s + [x], n)
  }

  function PushAll<T>(s: seq<T>, xs: seq<T>, n: nat): seq<T> {
    if xs == [] then s else Push(PushAll(s, xs[..|xs| - 1], n), xs[|xs| - 1], n)
  }

  lemma PushLast<T>(a: seq<T>, x: T, n: nat)
    ensures Push(Last(a, n), x, n) == Last(a + [x], n)
  {
  }

  /** After any run of enqueues the queue holds the last n of all frames, in order. */
  lemma {:induction false} PushAllKeepsLast<T>(s: seq<T>, xs: seq<T>, n: nat)
    requires |s| <= n
    ensures PushAll(s, xs, n) == Last(s + xs, n)
  {
    if xs == [] {
      assert s + xs == s;
    } else {
      var k := |xs| - 1;
      assert s + xs == s + xs[..k] + [xs[k]];
      PushLast(s + xs[..k], xs[k], n);
      PushAllKeepsLast(s, xs[..k], n);
    }
  }

  // ----- Runs over both channels -----

  datatype Event = Event(dir: uint8, frame: Frame)

  datatype Queues = Queues(a: seq<Frame>, b: seq<Frame>)

  /** One call of `FLEXRAY_RecvQueueIn`, for either channel or for neither. */
  function Receive(q: Queues, e: Event, n: nat): Queues {
    if e.dir == FLEXRAYA then Queues(Push(q.a, e.frame, n), q.b)
    else if e.dir == FLEXRAYB then Queues(q.a, Push(q.b, e.frame, n))
    else q
  }

  function ReceiveAll(q: Queues, es: seq<Event>, n: nat): Queues {
    if es == [] then q else Receive(ReceiveAll(q, es[..|es| - 1], n), es[|es| - 1], n)
  }

  /** The frames received on one channel. */
  function FramesOn(dir: uint8, es: seq<Event>): seq<Frame> {
    if es == [] then []
    else FramesOn(dir, es[..|es| - 1]) + if es[|es| - 1].dir == dir then [es[|es| - 1].frame] else []
  }

  lemma PushAllSnoc<T>(s: seq<T>, xs: seq<T>, x: T, n: nat)
    ensures PushAll(s, xs + [x], n) == Push(PushAll(s, xs, n), x, n)
  {
    assert (xs + [x])[..|xs|] == xs;
  }

  /** In any interleaving each queue is the one that its own channel's frames alone produce. */
  lemma {:induction false} ChannelsAreIndependent(q: Queues, es: seq<Event>, n: nat)
    ensures ReceiveAll(q, es, n) ==
            Queues(PushAll(q.a, FramesOn(FLEXRAYA, es), n), PushAll(q.b, FramesOn(FLEXRAYB, es), n))
  {
    if es != [] {
      var k := |es| - 1;
      ChannelsAreIndependent(q, es[..k], n);
      PushAllSnoc(q.a, FramesOn(FLEXRAYA, es[..k]), es[k].frame, n);
      PushAllSnoc(q.b, FramesOn(FLEXRAYB, es[..k]), es[k].frame, n);
      assert FramesOn(FLEXRAYA, es[..k]) + [] == FramesOn(FLEXRAYA, es[..k]);
      assert FramesOn(FLEXRAYB, es[..k]) + [] == FramesOn(FLEXRAYB, es[..k]);
    }
  }

  /** From empty queues, after any interleaved run, each channel's queue holds the last n frames
      received on that channel, in order; calls for other channels leave no trace. */
  lemma {:induction false} QueuesHoldLastFrames(es: seq<Event>, n: nat)
    ensures ReceiveAll(Queues([], []), es, n) ==
            Queues(Last(FramesOn(FLEXRAYA, es), n), Last(FramesOn(FLEXRAYB, es), n))
  {
    ChannelsAreIndependent(Queues([], []), es, n);
    var a, b := FramesOn(FLEXRAYA, es), FramesOn(FLEXRAYB, es);
    PushAllKeepsLast([], a, n);
    PushAllKeepsLast([], b, n);
    assert [] + a == a && [] + b == b;
  }

  lemma ReceiveAllSnoc(q: Queues, es: seq<Event>, e: Event, n: nat)
    ensures ReceiveAll(q, es + [e], n) == Receive(ReceiveAll(q, es, n), e, n)
  {
    assert (es + [e])[..|es|] == es;
  }

  // ----- The ring -----

  function Next(i: nat, size: nat): nat
    requires i < size
  {
    if i + 1 == size then 0 else i + 1
  }

  lemma NextIsModulo(i: nat, size: nat)
    requires i < size
    ensures (i + 1) % size == Next(i, size)
  {
  }

  /** The slots from head to tail, around the end of the ring. */
  function Live(slots: seq<Slot>, head: nat, tail: nat): seq<Slot>
    requires head < |slots| && tail < |slots|
  {
    if head <= tail then slots[head..tail] else slots[head..] + slots[..tail]
  }

  lemma LiveLength(slots: seq<Slot>, head: nat, tail: nat)
    requires head < |slots| && tail < |slots|
    ensures |Live(slots, head, tail)| < |slots|
    ensures |Live(slots, head, tail)| == |slots| - 1 <==> Next(tail, |slots|) == head
    ensures forall s :: s in Live(slots, head, tail) ==> s in slots
  {
  }

  lemma LiveAt(slots: seq<Slot>, head: nat, tail: nat, k: nat)
    requires head < |slots| && tail < |slots|
    ensures |Live(slots, head, tail)| == (tail - head) % |slots|
    ensures k < |Live(slots, head, tail)| ==> Live(slots, head, tail)[k] == slots[(head + k) % |slots|]
  {
    var n := |slots|;
    if head <= tail {
      SmallModulo(tail - head, n);
      if k < tail - head {
        SmallModulo(head + k, n);
      }
    } else {
      SmallModulo(tail - head + n, n);
      if head + k < n {
        SmallModulo(head + k, n);
      } else if head + k < n + tail {
        SmallModulo(head + k - n, n);
      }
    }
  }

  /** Remainders of numbers that differ from one below n by n or not at all. */
  lemma SmallModulo(x: nat, n: nat)
    requires x < n
    ensures x % n == x && (x + n) % n == x && (x - n) % n == x
  {
  }

  /** The slot at tail is not live: writing it changes no queued frame. */
  lemma LiveUnderWrite(slots: seq<Slot>, head: nat, tail: nat, s: Slot)
    requires head < |slots| && tail < |slots|
    ensures Live(slots[tail := s], head, tail) == Live(slots, head, tail)
  {
  }

  /** Moving tail over a slot queues it; a full ring gives up its first frame for it. */
  lemma LiveGrows(slots: seq<Slot>, head: nat, tail: nat)
    requires head < |slots| && tail < |slots| && Next(tail, |slots|) != head
    ensures Live(slots, head, Next(tail, |slots|)) == Live(slots, head, tail) + [slots[tail]]
  {
  }

  lemma LiveTurns(slots: seq<Slot>, head: nat, tail: nat)
    requires head < |slots| && tail < |slots| && Next(tail, |slots|) == head
    ensures Live(slots, Next(head, |slots|), head) == (Live(slots, head, tail) + [slots[tail]])[1..]
  {
    var all := Live(slots, head, tail) + [slots[tail]];
    if head == 0 {
      assert all == slots;
      assert slots[1..] + slots[..0] == slots[1..];
    } else {
      assert all == slots[head..] + slots[..head];
      assert all[1..] == slots[head + 1..] + slots[..head];
      assert slots[|slots|..] + slots[..head] == slots[..head];
    }
  }

  predicate AllOk(slots: seq<Slot>) {
    forall i :: 0 <= i < |slots| ==> SlotOk(slots[i])
  }

  function QueueOf(slots: seq<Slot>, head: nat, tail: nat): seq<Frame>
    requires AllOk(slots) && head < |slots| && tail < |slots|
  {
    LiveLength(slots, head, tail);
    Views(Live(slots, head, tail))
  }

  /** The whole step on the ring: write the slot at tail, move tail, and when the ring was full
      move head. */
  lemma RingPush(slots: seq<Slot>, head: nat, tail: nat, s: Slot, head': nat)
    requires AllOk(slots) && SlotOk(s) && head < |slots| && tail < |slots|
    requires head' == if Next(tail, |slots|) == head then Next(head, |slots|) else head
    ensures AllOk(slots[tail := s])
    ensures QueueOf(slots[tail := s], head', Next(tail, |slots|)) ==
            Push(QueueOf(slots, head, tail), View(s), |slots| - 1)
  {
    var slots' := slots[tail := s];
    LiveLength(slots, head, tail);
    LiveUnderWrite(slots, head, tail, s);
    if Next(tail, |slots|) == head {
      LiveTurns(slots', head, tail);
    } else {
      LiveGrows(slots', head, tail);
    }
    LiveLength(slots', head', Next(tail, |slots|));
    var live := Live(slots, head, tail);
    assert Views(live + [s]) == Views(live) + [View(s)];
    assert Views((live + [s])[1..]) == Views(live + [s])[1..];
  }

  class Queue {
    const size: nat
    var head: uint8
    var tail: uint8
    const frame: array<Slot>

    ghost predicate Valid()
      reads this, frame
    {
      1 <= size <= 0x100 && frame.Length == size &&
      head as nat < size && tail as nat < size && AllOk(frame[..])
    }

    /** The queued frames, oldest first. */
    ghost function Contents(): seq<Frame>
      requires Valid()
      reads this, frame
    {
      QueueOf(frame[..], head as nat, tail as nat)
    }

    /** What the contents are: from head on, as many slots as lie between head and tail around the
        end of the ring, and of each slot the ID and the first len words. */
    lemma ContentsAt(k: nat)
      requires Valid()
      ensures |Contents()| == (tail as int - head as int) % size
      ensures k < |Contents()| ==>
              var s := frame[(head as nat + k) % size];
              s.len as nat <= |s.words| && Contents()[k] == Frame(s.id, s.words[..s.len as nat])
    {
      LiveAt(frame[..], head as nat, tail as nat, k);
      LiveLength(frame[..], head as nat, tail as nat);
    }

    /** Statically allocated: all zero. */
    constructor (size: nat)
      requires 1 <= size <= 0x100
      ensures Valid() && this.size == size && head == 0 && tail == 0 && Contents() == []
      ensures fresh(frame)
    {
      this.size := size;
      head, tail := 0, 0;
      frame := new Slot[size](_ => Slot(0, 0, seq(DATA_WORDS, _ => 0)));
    }

    /** The received words lie outside the ring: they have another type.  The verifier has to be
        told. */
    ghost predicate Outside(data: array<bv32>)
      reads this
    {
      data as object != frame
    }

    /** `FLEXRAY_RecvQueueIn` for the channel of this queue. */
    method Enqueue(id: uint32, data: array<bv32>, len: uint8)
      requires Valid() && Outside(data) && len as nat <= 64 && len as nat <= data.Length
      modifies this, frame
      ensures Valid()
      ensures Contents() == Push(old(Contents()), Frame(id, data[..len as nat]), size - 1)
      ensures tail as nat == (old(tail) as nat + 1) % size
      ensures head as nat == if tail == old(head) then (old(head) as nat + 1) % size else old(head) as nat
      ensures frame[..] == old(frame[..])[old(tail) as nat := frame[old(tail)]]
      ensures frame[old(tail)].id == id && frame[old(tail)].len == len && |frame[old(tail)].words| == 64
      ensures forall j :: 0 <= j < len as nat ==> frame[old(tail)].words[j] == data[j]
    {
      hide Push, QueueOf, View;
      NextIsModulo(tail as nat, size);
      NextIsModulo(head as nat, size);
      ghost var slots, h, t := frame[..], head as nat, tail as nat;
      ghost var s: Slot;
      var next := After(tail);
      if next == head {
        s := WriteFrame(id, data, len);
        head := After(head);
        tail := next;
      } else {
        s := WriteFrame(id, data, len);
        tail := next;
      }
      RingPush(slots, h, t, s, head as nat);
    }

    /** The next index of the ring. */
    method After(i: uint8) returns (j: uint8)
      requires Valid() && i as nat < size
      ensures j as nat == Next(i as nat, size) == (i as nat + 1) % size
    {
      NextIsModulo(i as nat, size);
      j := ((i as nat + 1) % size) as uint8;
    }

    /** Both branches fill the slot at tail, field by field. */
    method WriteFrame(id: uint32, data: array<bv32>, len: uint8) returns (ghost s: Slot)
      requires Valid() && Outside(data) && len as nat <= 64 && len as nat <= data.Length
      modifies frame
      ensures frame[..] == old(frame[..])[tail as nat := s]
      ensures SlotOk(s) && View(s) == Frame(id, data[..len as nat])
      ensures s.id == id && s.len == len && |s.words| == 64
      ensures forall j :: 0 <= j < len as nat ==> s.words[j] == data[j]
      ensures forall j :: len as nat <= j < 64 ==> s.words[j] == old(frame[tail].words[j])
    {
      ghost var slots := frame[..];
      frame[tail] := frame[tail].(id := id);
      frame[tail] := frame[tail].(len := len);
      var i: uint8 := 0;
      while i < len
        invariant i <= len
        invariant frame[..] == slots[tail as nat := frame[tail]]
        invariant |frame[tail].words| == DATA_WORDS && frame[tail].id == id && frame[tail].len == len
        invariant forall j :: 0 <= j < i as nat ==> frame[tail].words[j] == data[j]
        invariant forall j :: i as nat <= j < 64 ==> frame[tail].words[j] == old(frame[tail].words[j])
      {
        frame[tail] := frame[tail].(words := frame[tail].words[i as nat := data[i]]);
        i := i + 1;
      }
      s := frame[tail];
      assert s.words[..len as nat] == data[..len as nat];
    }
  }

  /** The receive side of the driver.  The ghost fields record the contents at some moment and the
      calls since then. */
  class Receiver {
    const queueA: Queue
    const queueB: Queue
    ghost var start: Queues
    ghost var events: seq<Event>

    ghost predicate WellFormed()
      reads this, queueA, queueB, queueA.frame, queueB.frame
    {
      queueA != queueB && queueA.frame != queueB.frame && queueA.Valid() && queueB.Valid() &&
      queueA.size == queueB.size
    }

    ghost function Contents(): Queues
      requires WellFormed()
      reads this, queueA, queueB, queueA.frame, queueB.frame
    {
      Queues(queueA.Contents(), queueB.Contents())
    }

    ghost predicate Valid()
      reads this, queueA, queueB, queueA.frame, queueB.frame
    {
      WellFormed() && Contents() == ReceiveAll(start, events, queueA.size - 1)
    }

    constructor (size: nat)
      requires 1 <= size <= 0x100
      ensures Valid() && queueA.size == size && start == Queues([], []) && events == []
      ensures fresh(queueA) && fresh(queueB) && fresh(queueA.frame) && fresh(queueB.frame)
    {
      queueA := new Queue(size);
      queueB := new Queue(size);
      start, events := Queues([], []), [];
    }

    /** A consumer has moved head: the record starts again from what is left. */
    ghost method Restart()
      requires WellFormed()
      modifies `start, `events
      ensures Valid() && start == old(Contents()) && events == []
    {
      start, events := Contents(), [];
    }

    /** The queue of the direction, if there is one. */
    method Dispatch(dir: uint8, id: uint32, data: array<bv32>, len: uint8)
      requires WellFormed() && queueA.Outside(data) && queueB.Outside(data)
      requires len as nat <= 64 && len as nat <= data.Length
      modifies queueA, queueB, queueA.frame, queueB.frame
      ensures WellFormed()
      ensures Contents() == Receive(old(Contents()), Event(dir, Frame(id, data[..len as nat])), queueA.size - 1)
      ensures dir == 1 ==> var s := queueA.frame[old(queueA.tail)];
                           s.id == id && s.len == len && |s.words| == 64 &&
                           forall j :: 0 <= j < len as nat ==> s.words[j] == data[j]
      ensures dir == 2 ==> var s := queueB.frame[old(queueB.tail)];
                           s.id == id && s.len == len && |s.words| == 64 &&
                           forall j :: 0 <= j < len as nat ==> s.words[j] == data[j]
      ensures dir != 1 ==> queueA.head == old(queueA.head) && queueA.tail == old(queueA.tail) &&
                           queueA.frame[..] == old(queueA.frame[..])
      ensures dir != 2 ==> queueB.head == old(queueB.head) && queueB.tail == old(queueB.tail) &&
                           queueB.frame[..] == old(queueB.frame[..])
    {
      hide Push, QueueOf;
      if dir == FLEXRAYA {
        queueA.Enqueue(id, data, len);
      }
      if dir == FLEXRAYB {
        queueB.Enqueue(id, data, len);
      }
    }

    /** `FLEXRAY_RecvQueueIn` */
    method RecvQueueIn(dir: uint8, id: uint32, data: array<bv32>, len: uint8)
      requires Valid() && queueA.Outside(data) && queueB.Outside(data)
      requires len as nat <= 64 && len as nat <= data.Length
      modifies `events, queueA, queueB, queueA.frame, queueB.frame
      ensures Valid() && events == old(events) + [Event(dir, Frame(id, data[..len as nat]))]
      ensures Contents() == Receive(old(Contents()), Event(dir, Frame(id, data[..len as nat])), queueA.size - 1)
      ensures dir == 1 ==> var s := queueA.frame[old(queueA.tail)];
                           s.id == id && s.len == len && |s.words| == 64 &&
                           forall j :: 0 <= j < len as nat ==> s.words[j] == data[j]
      ensures dir == 2 ==> var s := queueB.frame[old(queueB.tail)];
                           s.id == id && s.len == len && |s.words| == 64 &&
                           forall j :: 0 <= j < len as nat ==> s.words[j] == data[j]
      ensures dir != 1 ==> queueA.head == old(queueA.head) && queueA.tail == old(queueA.tail) &&
                           queueA.frame[..] == old(queueA.frame[..])
      ensures dir != 2 ==> queueB.head == old(queueB.head) && queueB.tail == old(queueB.tail) &&
                           queueB.frame[..] == old(queueB.frame[..])
    {
      hide Receive, ReceiveAll, QueueOf;
      ghost var e := Event(dir, Frame(id, data[..len as nat]));
      Dispatch(dir, id, data, len);
      ReceiveAllSnoc(start, events, e, queueA.size - 1);
      events := events + [e];
    }

    /** After any run of calls on a new receiver each queue holds the last size - 1 frames of its
        channel. */
    lemma HoldsLastFrames()
      requires Valid() && start == Queues([], [])
      ensures Contents() == Queues(Last(FramesOn(FLEXRAYA, events), queueA.size - 1),
                                   Last(FramesOn(FLEXRAYB, events), queueA.size - 1))
    {
      QueuesHoldLastFrames(events, queueA.size - 1);
    }
  }
}
