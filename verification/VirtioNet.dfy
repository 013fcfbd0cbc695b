/** What every run of the receive queue guarantees, and the driver object that takes the driver's steps. */
module VirtioNet {
  import opened Optional
  import opened Bytes
  import opened RxRing

  // ----- guarantees of every run

  /** A descriptor is in the one place recorded for it and in no other. */
  lemma ExactlyOnePlace(s: System, id: nat)
    requires Inv(s) && id < QUEUE_SIZE
    ensures forall c :: s.taken <= c < |s.posted| ==> (s.posted[c] == id <==> s.place[id] == PostedAt(c))
    ensures forall c :: s.received <= c < |s.written| ==> (s.written[c].id == id <==> s.place[id] == DoneAt(c))
    ensures id in s.held <==> s.place[id] == Held
    ensures InHand(s.driver) == [id] <==> s.place[id] == Hand
    ensures s.place[id].PostedAt? ==> s.taken <= s.place[id].c < |s.posted|
    ensures s.place[id].DoneAt? ==> s.received <= s.place[id].c < |s.written|
  {
    assert Backed(s, id);
    forall c | s.taken <= c < |s.posted| ensures s.posted[c] == id <==> s.place[id] == PostedAt(c) {
      assert At(s.place, s.posted[c], PostedAt(c));
    }
    forall c | s.received <= c < |s.written| ensures s.written[c].id == id <==> s.place[id] == DoneAt(c) {
      assert At(s.place, s.written[c].id, DoneAt(c));
    }
    if id in s.held { assert At(s.place, id, Held); }
  }

  /** Comparing wrapped indices for equality is comparing the unbounded counts, at every wrap. */
  lemma EmptyTestsExact(s: System)
    requires Inv(s)
    ensures s.q.lastUsed == s.q.usedIdx <==> s.received == s.published
    ensures s.devTaken == s.q.availIdx <==> s.taken == |s.posted|
    ensures |s.posted| - s.received == QUEUE_SIZE - |InHand(s.driver)|
  {
    if s.received < s.published { NearbyDiffer(s.received, s.published); }
    if s.taken < |s.posted| { NearbyDiffer(s.taken, |s.posted|); }
  }

  /** A party about to write a ring slot never hits an entry the other party has yet to read. */
  lemma NoOverwrite(s: System)
    requires Inv(s)
    ensures s.driver.Copied? ==> forall c :: s.taken <= c < |s.posted| ==> c % QUEUE_SIZE != Slot(s.q.availIdx)
    ensures s.held != {} ==> forall c :: s.received <= c < |s.written| ==> c % QUEUE_SIZE != Slot(s.devWritten)
  {
    SlotOfCounter(|s.posted|);
    SlotOfCounter(|s.written|);
    if s.driver.Copied? {
      forall c | s.taken <= c < |s.posted| ensures c % QUEUE_SIZE != |s.posted| % QUEUE_SIZE {
        NearbyDiffer(c, |s.posted|);
      }
    }
    if s.held != {} {
      assert |s.held| > 0;
      forall c | s.received <= c < |s.written| ensures c % QUEUE_SIZE != |s.written| % QUEUE_SIZE {
        NearbyDiffer(c, |s.written|);
      }
    }
  }

  /**
   * The packet in a buffer of 1524 bytes of which the device reports len used: what stands behind the ten
   * bytes of header, and at most 1514 bytes of it.
   */
  predicate PacketOf(packet: seq<byte>, len: nat, data: seq<byte>) {
    && |data| == 1524
    && |packet| == (if len <= 10 then 0 else if len <= 1524 then len - 10 else 1514)
    && forall j :: 0 <= j < |packet| ==> packet[j] == data[10 + j]
  }

  lemma PayloadIsPacket(data: seq<byte>, len: nat)
    requires |data| == BUF_SIZE
    ensures PacketOf(Payload(data, len), len, data)
  {
  }

  /** Delivery in every interleaving: packets come out once each, in completion order, as the device left them. */
  lemma {:induction false} DeliveryTheorem(s: System, es: seq<Step>)
    requires Initial(s) && Executable(s, es)
    ensures var t := Run(s, es);
      && Inv(t)
      && |t.delivered| + |InHand(t.driver)| == t.received <= t.published <= |t.written|
      && forall i :: 0 <= i < |t.delivered| ==>
        t.delivered[i] == t.written[i].Packet() && PacketOf(t.delivered[i], t.written[i].len, t.written[i].data)
  {
    InitialInv(s);
    RunKeeps(s, es);
    var t := Run(s, es);
    forall i | 0 <= i < |t.delivered| ensures PacketOf(t.delivered[i], t.written[i].len, t.written[i].data) {
      PayloadIsPacket(t.written[i].data, t.written[i].len);
    }
  }

  // ----- one call of `receive`

  /** `receive` with nothing happening in between: the queue it leaves and the packet it returns. */
  function ReceiveSpec(q: Queue): (Queue, Option<seq<byte>>)
    requires Sized(q)
  {
    if q.lastUsed == q.usedIdx then (q, None)
    else
      var elem := q.usedRing[Slot(q.lastUsed)];
      var q1 := q.(lastUsed := Bump(q.lastUsed));
      if elem.id >= QUEUE_SIZE then (q1, None)
      else
        (q1.(availRing := q1.availRing[Slot(q1.availIdx) := elem.id], availIdx := Bump(q1.availIdx)),
         Some(Payload(q.bufs[elem.id], elem.len)))
  }

  /** `receive` is the five driver steps in a row; it returns the oldest completion not yet received. */
  lemma ReceiveIsDriverSteps(s: System)
    requires Inv(s) && s.driver.Idle?
    ensures s.received == s.published ==> ReceiveSpec(s.q) == (s.q, None)
    ensures s.received < s.published ==>
      var c := CopyOut(TakeUsed(Check(s)));
      c.driver.Copied? &&
      var t := PublishAvail(FillSlot(c));
      && Inv(t) && t.driver.Idle? && t.received == s.received + 1
      && ReceiveSpec(s.q) == (t.q, Some(s.written[s.received].Packet()))
      && t.delivered == s.delivered + [s.written[s.received].Packet()]
  {
    EmptyTestsExact(s);
    if s.received < s.published {
      var s1 := Check(s);
      CheckKeeps(s);
      var s2 := TakeUsed(s1);
      TakeUsedKeeps(s1);
      var s3 := CopyOut(s2);
      CopyOutKeeps(s2);
      var s4 := FillSlot(s3);
      FillSlotKeeps(s3);
      PublishAvailKeeps(s4);
    }
  }

  /** The system around a queue just set up, its device idle. */
  function Start(q: Queue): System {
    System(q, Idle, 0, 0, {},
           seq(QUEUE_SIZE, i requires 0 <= i < QUEUE_SIZE => i), 0, [], 0, 0, [],
           seq(QUEUE_SIZE, i requires 0 <= i < QUEUE_SIZE => PostedAt(i)))
  }

  // ----- the driver object

  const DESC_F_WRITE: u16 := 2
  const RX_QUEUE: u16 := 0

  /** A descriptor: the physical address of a buffer, with its size. */
  datatype Desc = Desc(addr: nat, len: u32, flags: u16, next: u16)

  class VirtioNet {
    const desc: array<Desc>
    var availIdx: u16
    const availRing: array<u16>
    var usedIdx: u16
    const usedRing: array<UsedElem>
    const rxBufs: array<seq<byte>>
    var rxLastUsed: u16
    /** The queue numbers written to the device's notification register. */
    var notified: seq<u16>

    ghost predicate Valid()
      reads this, availRing, usedRing, rxBufs
    {
      && availRing.Length == usedRing.Length == rxBufs.Length == desc.Length == QUEUE_SIZE
      && Sized(Shared())
    }

    ghost function Shared(): Queue
      reads this, availRing, usedRing, rxBufs
    {
      Queue(availIdx, availRing[..], usedIdx, usedRing[..], rxBufs[..], rxLastUsed)
    }

    /**
     * `init`: zeroed queues, then every descriptor names its buffer and is posted in order. The buffers
     * start at the virtual addresses `bufPtrs`; physical memory is mapped `physOffset` higher.
     */
    constructor (bufPtrs: seq<nat>, physOffset: nat)
      requires |bufPtrs| == QUEUE_SIZE && forall i :: 0 <= i < QUEUE_SIZE ==> physOffset <= bufPtrs[i]
      ensures Valid() && fresh(desc) && fresh(availRing) && fresh(usedRing) && fresh(rxBufs)
      ensures forall i :: 0 <= i < QUEUE_SIZE ==>
        desc[i].addr + physOffset == bufPtrs[i] && desc[i].len == 1524 && desc[i].flags == 2 && desc[i].next == 0
      ensures Initial(Start(Shared())) && notified == []
      ensures availIdx == 16 == availRing.Length == usedRing.Length == rxBufs.Length
      ensures forall i :: 0 <= i < 16 ==> availRing[i] == i && |rxBufs[i]| == 1524
    {
      var zero: byte := 0;
      desc := new Desc[QUEUE_SIZE](_ => Desc(0, 0, 0, 0));
      availRing := new u16[QUEUE_SIZE](_ => 0);
      usedRing := new UsedElem[QUEUE_SIZE](_ => UsedElem(0, 0));
      rxBufs := new seq<byte>[QUEUE_SIZE](_ => seq(BUF_SIZE, _ => zero));
      availIdx, usedIdx, rxLastUsed, notified := 0, 0, 0, [];
      new;
      for i := 0 to QUEUE_SIZE
        invariant forall j :: 0 <= j < i ==> desc[j] == Desc(bufPtrs[j] - physOffset, BUF_SIZE, DESC_F_WRITE, 0)
        invariant forall j :: 0 <= j < i ==> availRing[j] == j
        invariant forall j :: 0 <= j < 16 ==> |rxBufs[j]| == 1524
        invariant usedIdx == rxLastUsed == 0 && notified == []
      {
        desc[i] := Desc(bufPtrs[i] - physOffset, BUF_SIZE, DESC_F_WRITE, 0);
        availRing[i] := i;
      }
      availIdx := QUEUE_SIZE;
    }

    /** Returns the oldest packet, recycles its descriptor and tells the device so. */
    method Receive() returns (packet: Option<seq<byte>>)
      requires Valid()
      modifies this, availRing
      ensures Valid() && (Shared(), packet) == ReceiveSpec(old(Shared()))
      ensures usedIdx == old(usedIdx) && usedRing[..] == old(usedRing[..]) && rxBufs[..] == old(rxBufs[..])
      ensures notified == old(notified) + if packet.Some? then [0] else []
      ensures old(rxLastUsed) == usedIdx ==> packet == None && Shared() == old(Shared())
      ensures old(rxLastUsed) != usedIdx ==>
        var elem := usedRing[old(rxLastUsed) % 16];
        && rxLastUsed == (old(rxLastUsed) + 1) % 0x1_0000 && (packet.Some? <==> elem.id < 16)
        && (packet.Some? ==>
            && PacketOf(packet.value, elem.len, rxBufs[elem.id]) && availIdx == (old(availIdx) + 1) % 0x1_0000
            && availRing[..] == old(availRing[..])[old(availIdx) % 16 := elem.id])
        && (packet.None? ==> availIdx == old(availIdx) && availRing[..] == old(availRing[..]))
    {
      ghost var before := Shared();
      if rxLastUsed == usedIdx {
        return None;
      }
      var slot := Slot(rxLastUsed);
      var usedElem := usedRing[slot];
      rxLastUsed := Bump(rxLastUsed);
      var descIdx := usedElem.id;
      if descIdx >= QUEUE_SIZE {
        return None;
      }
      var payloadLen := PayloadLen(usedElem.len);
      packet := Some(rxBufs[descIdx][HDR_LEN..HDR_LEN + payloadLen]);
      PayloadIsPacket(rxBufs[descIdx], usedElem.len);
      availRing[Slot(availIdx)] := descIdx;
      assert availRing[..] == before.availRing[Slot(before.availIdx) := descIdx];
      availIdx := Bump(availIdx);
      notified := notified + [RX_QUEUE];
    }
  }
}
