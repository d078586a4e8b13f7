/** The table that binds frame IDs to message boxes: a fixed array searched from the front, in
    which an entry with ID 0 is free. */
module BindTable {
  import opened FlexRayTypes

  /** FLEXRAY_McanMESSAGE_BOX */
  datatype Entry = Entry(id: uint32, box: bv8)

  const DEFAULT_BOX: bv8 := 1

  // ----- What one call does to the entries -----

  /** The first entry that is free or has the ID is overwritten; a full table without the ID is
      left alone. */
  function Bound(t: seq<Entry>, id: uint32, box: bv8): (r: seq<Entry>)
    ensures |r| == |t|
  {
    if t == [] then []
    else if t[0].id == 0 || t[0].id == id then [Entry(id, box)] + t[1..]
    else [t[0]] + Bound(t[1..], id, box)
  }

  /** The box of the first entry with the ID, or the default box. */
  function Lookup(t: seq<Entry>, id: uint32): bv8 {
    if t == [] then DEFAULT_BOX
    else if t[0].id == id then t[0].box
    else Lookup(t[1..], id)
  }

  /** The search passes the first i entries. */
  predicate Passes(t: seq<Entry>, id: uint32, i: nat)
    requires i <= |t|
  {
    forall j :: 0 <= j < i ==> t[j].id != 0 && t[j].id != id
  }

  /** Where the search of a bind stops. */
  function StopOf(t: seq<Entry>, id: uint32): (i: nat)
    ensures i <= |t| && Passes(t, id, i)
    ensures i < |t| ==> t[i].id == 0 || t[i].id == id
  {
    if t == [] || t[0].id == 0 || t[0].id == id then 0
    else
      var i := StopOf(t[1..], id);
      assert forall j :: 0 < j < 1 + i ==> t[j] == t[1..][j - 1];
      1 + i
  }

  lemma {:induction false} BoundAt(t: seq<Entry>, id: uint32, box: bv8, i: nat)
    requires i <= |t| && Passes(t, id, i)
    requires i < |t| ==> t[i].id == 0 || t[i].id == id
    ensures Bound(t, id, box) == if i < |t| then t[i := Entry(id, box)] else t
    decreases i
  {
    if i > 0 {
      assert Passes(t[1..], id, i - 1);
      BoundAt(t[1..], id, box, i - 1);
    }
  }

  // ----- The table as a bounded map -----

  /** Entries with IDs come before free entries, and no ID occurs twice. */
  ghost predicate WellFormed(t: seq<Entry>) {
    (forall i, j :: 0 <= i < j < |t| && t[i].id == 0 ==> t[j].id == 0) &&
    (forall i, j :: 0 <= i < j < |t| && t[i].id != 0 ==> t[j].id != t[i].id)
  }

  function AsMap(t: seq<Entry>): map<uint32, bv8> {
    if t == [] then map[]
    else if t[0].id == 0 then AsMap(t[1..])
    else AsMap(t[1..])[t[0].id := t[0].box]
  }

  /** A map update, as long as the map has at most n keys; ID 0 is not a key. */
  function MapBind(m: map<uint32, bv8>, id: uint32, box: bv8, n: nat): map<uint32, bv8> {
    if id != 0 && (id in m || |m| < n) then m[id := box] else m
  }

  lemma {:induction false} FreeIsEmpty(t: seq<Entry>)
    requires forall j :: 0 <= j < |t| ==> t[j].id == 0
    ensures AsMap(t) == map[]
  {
    if t != [] {
      FreeIsEmpty(t[1..]);
    }
  }

  lemma {:induction false} KeysAreIds(t: seq<Entry>, id: uint32)
    ensures id in AsMap(t) <==> id != 0 && exists j :: 0 <= j < |t| && t[j].id == id
  {
    if t != [] {
      KeysAreIds(t[1..], id);
      if id != 0 && id in AsMap(t[1..]) {
        var j :| 0 <= j < |t[1..]| && t[1..][j].id == id;
        assert t[j + 1].id == id;
      }
      if j :| 0 <= j < |t| && t[j].id == id && t[0].id != id {
        assert t[1..][j - 1].id == id;
      }
    }
  }

  lemma WellFormedTail(t: seq<Entry>)
    requires t != [] && WellFormed(t)
    ensures WellFormed(t[1..])
    ensures t[0].id != 0 ==> t[0].id !in AsMap(t[1..])
    ensures t[0].id == 0 ==> AsMap(t) == map[]
  {
    if t[0].id == 0 {
      assert forall j :: 0 <= j < |t| ==> t[j].id == 0;
      FreeIsEmpty(t);
    } else {
      KeysAreIds(t[1..], t[0].id);
    }
  }

  lemma WellFormedAt(t: seq<Entry>, id: uint32, box: bv8, i: nat)
    requires WellFormed(t) && i < |t| && Passes(t, id, i) && (t[i].id == 0 || t[i].id == id)
    ensures WellFormed(t[i := Entry(id, box)])
  {
  }

  /** Stopping at the first free entry never makes an ID occur twice. */
  lemma BindKeepsWellFormed(t: seq<Entry>, id: uint32, box: bv8)
    requires WellFormed(t)
    ensures WellFormed(Bound(t, id, box))
  {
    var i := StopOf(t, id);
    BoundAt(t, id, box, i);
    if i < |t| {
      WellFormedAt(t, id, box, i);
    }
  }

  /** An ID, once bound, keeps its entry. */
  lemma BindMovesNothing(t: seq<Entry>, id: uint32, box: bv8, j: nat)
    requires j < |t| && t[j].id != 0
    ensures Bound(t, id, box)[j].id == t[j].id
    ensures t[j].id != id ==> Bound(t, id, box)[j] == t[j]
  {
    BoundAt(t, id, box, StopOf(t, id));
  }

  lemma MapBindOver(m: map<uint32, bv8>, k: uint32, v: bv8, id: uint32, box: bv8, n: nat)
    requires k !in m && k != id
    ensures MapBind(m[k := v], id, box, n + 1) == MapBind(m, id, box, n)[k := v]
  {
    assert m[k := v][id := box] == m[id := box][k := v];
  }

  /** On a well-formed table a bind is a bounded map update. */
  lemma {:induction false} BindRefinesMap(t: seq<Entry>, id: uint32, box: bv8)
    requires WellFormed(t)
    ensures AsMap(Bound(t, id, box)) == MapBind(AsMap(t), id, box, |t|)
  {
    if t != [] {
      var rest, r := t[1..], Bound(t, id, box);
      WellFormedTail(t);
      if t[0].id == 0 {
        assert r[1..] == rest;
        FreeIsEmpty(rest);
      } else if t[0].id == id {
        assert r[1..] == rest;
        assert AsMap(t) == AsMap(rest)[t[0].id := t[0].box];
      } else {
        BindRefinesMap(rest, id, box);
        assert r[1..] == Bound(rest, id, box);
        MapBindOver(AsMap(rest), t[0].id, t[0].box, id, box, |rest|);
      }
    }
  }

  /** A lookup of a proper ID reads the map, with the default box for IDs that are not bound. */
  lemma {:induction false} LookupReadsMap(t: seq<Entry>, id: uint32)
    requires id != 0
    ensures Lookup(t, id) == if id in AsMap(t) then AsMap(t)[id] else DEFAULT_BOX
  {
    if t != [] {
      LookupReadsMap(t[1..], id);
    }
  }

  // ----- Runs of binds on one channel -----

  datatype Binding = Binding(id: uint32, box: bv8)

  function Empty(size: nat): seq<Entry> {
    seq(size, _ => Entry(0, 0))
  }

  function BoundAll(t: seq<Entry>, bs: seq<Binding>): (r: seq<Entry>)
    ensures |r| == |t|
  {
    if bs == [] then t
    else Bound(BoundAll(t, bs[..|bs| - 1]), bs[|bs| - 1].id, bs[|bs| - 1].box)
  }

  /** Over a run an ID keeps its entry for ever. */
  lemma {:induction false} RunMovesNothing(t: seq<Entry>, bs: seq<Binding>, j: nat)
    requires j < |t| && t[j].id != 0
    ensures BoundAll(t, bs)[j].id == t[j].id
  {
    if bs != [] {
      RunMovesNothing(t, bs[..|bs| - 1], j);
      BindMovesNothing(BoundAll(t, bs[..|bs| - 1]), bs[|bs| - 1].id, bs[|bs| - 1].box, j);
    }
  }

  /** The proper IDs of a run in the order of their first bind. */
  function Order(bs: seq<Binding>): seq<uint32> {
    if bs == [] then []
    else
      var o, id := Order(bs[..|bs| - 1]), bs[|bs| - 1].id;
      if id == 0 || id in o then o else o + [id]
  }

  /** The box of the last bind of the ID, or the default box if there was none. */
  function LastBox(bs: seq<Binding>, id: uint32): bv8 {
    if bs == [] then DEFAULT_BOX
    else if bs[|bs| - 1].id == id then bs[|bs| - 1].box
    else LastBox(bs[..|bs| - 1], id)
  }

  /** The IDs for which a table of the given size had room: the first ones. */
  function Kept(bs: seq<Binding>, size: nat): seq<uint32> {
    if |Order(bs)| <= size then Order(bs) else Order(bs)[..size]
  }

  function MapBindAll(bs: seq<Binding>, size: nat): map<uint32, bv8> {
    if bs == [] then map[]
    else MapBind(MapBindAll(bs[..|bs| - 1], size), bs[|bs| - 1].id, bs[|bs| - 1].box, size)
  }

  lemma {:induction false} RunRefinesMap(size: nat, bs: seq<Binding>)
    ensures WellFormed(BoundAll(Empty(size), bs))
    ensures AsMap(BoundAll(Empty(size), bs)) == MapBindAll(bs, size)
  {
    if bs == [] {
      FreeIsEmpty(Empty(size));
    } else {
      var k := |bs| - 1;
      RunRefinesMap(size, bs[..k]);
      BindKeepsWellFormed(BoundAll(Empty(size), bs[..k]), bs[k].id, bs[k].box);
      BindRefinesMap(BoundAll(Empty(size), bs[..k]), bs[k].id, bs[k].box);
    }
  }

  lemma KeptNext(bs: seq<Binding>, size: nat)
    requires bs != []
    ensures var before, id := Kept(bs[..|bs| - 1], size), bs[|bs| - 1].id;
            Kept(bs, size) == if id == 0 || id in before || |before| >= size then before else before + [id]
  {
    var o, id := Order(bs[..|bs| - 1]), bs[|bs| - 1].id;
    if id != 0 && id !in o && |o| >= size {
      assert (o + [id])[..size] == o[..size];
    }
  }

  /** The bounded map after a run: its keys are the kept IDs, each with its last box. */
  lemma {:induction false} MapHistory(bs: seq<Binding>, size: nat, id: uint32)
    requires id != 0
    ensures |MapBindAll(bs, size)| == |Kept(bs, size)|
    ensures id in MapBindAll(bs, size) <==> id in Kept(bs, size)
    ensures id in MapBindAll(bs, size) ==> MapBindAll(bs, size)[id] == LastBox(bs, id)
  {
    if bs != [] {
      var k := |bs| - 1;
      MapHistory(bs[..k], size, id);
      if bs[k].id != 0 {
        MapHistory(bs[..k], size, bs[k].id);
      }
      KeptNext(bs, size);
    }
  }

  /** The table after any run: an ID among the first ones bound has the box of its last bind, any
      other proper ID has the default box. */
  lemma LookupAfterRun(size: nat, bs: seq<Binding>, id: uint32)
    requires id != 0
    ensures Lookup(BoundAll(Empty(size), bs), id) == if id in Kept(bs, size) then LastBox(bs, id) else DEFAULT_BOX
  {
    RunRefinesMap(size, bs);
    LookupReadsMap(BoundAll(Empty(size), bs), id);
    MapHistory(bs, size, id);
  }

  lemma {:induction false} OrderHasAll(bs: seq<Binding>, id: uint32)
    requires id != 0 && id !in Order(bs)
    ensures LastBox(bs, id) == DEFAULT_BOX
  {
    if bs != [] {
      OrderHasAll(bs[..|bs| - 1], id);
    }
  }

  /** With no more distinct IDs than entries, a lookup gives the box of the last bind. */
  lemma LookupGivesLastBox(size: nat, bs: seq<Binding>, id: uint32)
    requires id != 0 && |Order(bs)| <= size
    ensures Lookup(BoundAll(Empty(size), bs), id) == LastBox(bs, id)
  {
    LookupAfterRun(size, bs, id);
    if id !in Order(bs) {
      OrderHasAll(bs, id);
    }
  }

  /** One bind for each of the IDs 1 to n, all to box 2. */
  function OneEach(n: nat): seq<Binding>
    requires n < 0x1_0000_0000
  {
    seq(n, i requires 0 <= i < n => Binding((i + 1) as uint32, 2))
  }

  function IdsUpTo(n: nat): seq<uint32>
    requires n < 0x1_0000_0000
  {
    seq(n, i requires 0 <= i < n => (i + 1) as uint32)
  }

  lemma {:induction false} OrderOfOneEach(n: nat)
    requires n < 0x1_0000_0000
    ensures Order(OneEach(n)) == IdsUpTo(n)
  {
    if n > 0 {
      OrderOfOneEach(n - 1);
      assert OneEach(n)[..n - 1] == OneEach(n - 1);
      assert IdsUpTo(n) == IdsUpTo(n - 1) + [n as uint32];
    }
  }

  lemma {:induction false} LastBoxOfOneEach(n: nat, id: uint32)
    requires n < 0x1_0000_0000 && 1 <= id as nat <= n
    ensures LastBox(OneEach(n), id) == 2
  {
    assert OneEach(n)[..n - 1] == OneEach(n - 1);
    if id as nat < n {
      LastBoxOfOneEach(n - 1, id);
    }
  }

  /** A bind can be lost: with one ID more than entries, the last one has the default box. */
  lemma BindCanBeLost(size: nat)
    requires size + 1 < 0x1_0000_0000
    ensures LastBox(OneEach(size + 1), (size + 1) as uint32) == 2
    ensures Lookup(BoundAll(Empty(size), OneEach(size + 1)), (size + 1) as uint32) == DEFAULT_BOX == 1
  {
    OrderOfOneEach(size + 1);
    LookupAfterRun(size, OneEach(size + 1), (size + 1) as uint32);
  }

  // ----- The table in memory -----

  class Table {
    const entries: array<Entry>

    /** The index that searches it is 8 bits wide. */
    ghost predicate Valid() {
      1 <= entries.Length <= 0xFF
    }

    /** Statically allocated: all entries free. */
    constructor (size: nat)
      requires 1 <= size <= 0xFF
      ensures Valid() && fresh(entries) && entries[..] == Empty(size)
      ensures entries.Length == size && forall i :: 0 <= i < size ==> entries[i] == Entry(0, 0)
    {
      entries := new Entry[size](_ => Entry(0, 0));
    }

    /** `FLEXRAY_Tx_bind` for the channel of this table. */
    method Bind(id: uint32, box: bv8)
      requires Valid()
      modifies entries
      ensures entries[..] == Bound(old(entries[..]), id, box)
      ensures forall i |
                0 <= i < entries.Length && (old(entries[i].id) == 0 || old(entries[i].id) == id) &&
                forall j :: 0 <= j < i ==> old(entries[j].id) != 0 && old(entries[j].id) != id ::
                entries[i] == Entry(id, box) &&
                forall j :: 0 <= j < entries.Length && j != i ==> entries[j] == old(entries[j])
      ensures (forall j :: 0 <= j < entries.Length ==> old(entries[j].id) != 0 && old(entries[j].id) != id) ==>
              entries[..] == old(entries[..])
    {
      ghost var t := entries[..];
      var i: uint8 := 0;
      while i as nat < entries.Length
        invariant i as nat <= entries.Length
        invariant entries[..] == t && Passes(t, id, i as nat)
      {
        if entries[i].id != id && entries[i].id == 0 {
          entries[i] := entries[i].(id := id);
          entries[i] := entries[i].(box := box);
          BoundAt(t, id, box, i as nat);
          return;
        } else if entries[i].id == id {
          entries[i] := entries[i].(id := id);
          entries[i] := entries[i].(box := box);
          BoundAt(t, id, box, i as nat);
          return;
        }
        i := i + 1;
      }
      BoundAt(t, id, box, |t|);
    }

    /** `Get_FlexrayMcanMESSAGE_BOX_Num` for the channel of this table. */
    method BoxOf(id: uint32) returns (box: bv8)
      requires Valid()
      ensures box == Lookup(entries[..], id)
      ensures forall i |
                0 <= i < entries.Length && entries[i].id == id && forall j :: 0 <= j < i ==> entries[j].id != id ::
                box == entries[i].box
      ensures (forall j :: 0 <= j < entries.Length ==> entries[j].id != id) ==> box == 1
    {
      ghost var t := entries[..];
      box := 1;
      var i: uint8 := 0;
      while i as nat < entries.Length
        invariant i as nat <= entries.Length
        invariant box == 1 && Lookup(t, id) == Lookup(t[i as nat..], id)
        invariant forall j :: 0 <= j < i as nat ==> entries[j].id != id
      {
        assert t[i as nat..][0] == entries[i] && t[i as nat..][1..] == t[i as nat + 1..];
        if entries[i].id == id {
          box := entries[i].box;
          break;
        }
        i := i + 1;
      }
    }
  }
}
