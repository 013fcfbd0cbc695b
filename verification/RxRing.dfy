/** The receive virtqueue as a two-party protocol: driver and device steps in any interleaving. */
module RxRing {
  import opened Bytes

  const QUEUE_SIZE: nat := 16
  const HDR_LEN: nat := 10
  const PKT_SIZE: nat := 1514
  const BUF_SIZE: nat := PKT_SIZE + HDR_LEN

  const WRAP: nat := 0x1_0000

  type u16 = x: nat | x < WRAP
  type u32 = x: nat | x < 0x1_0000_0000

  datatype UsedElem = UsedElem(id: u32, len: u32)

  /** What driver and device share, with the driver's private cursor. */
  datatype Queue = Queue(
    availIdx: u16, availRing: seq<u16>,
    usedIdx: u16, usedRing: seq<UsedElem>,
    bufs: seq<seq<byte>>,
    lastUsed: u16)

  predicate Sized(q: Queue) {
    && |q.availRing| == |q.usedRing| == |q.bufs| == QUEUE_SIZE
    && forall i :: 0 <= i < QUEUE_SIZE ==> |q.bufs[i]| == BUF_SIZE
  }

  function Bump(x: u16): u16 {
    (x + 1) % WRAP
  }

  function Slot(x: u16): nat {
    x % QUEUE_SIZE
  }

  function PayloadLen(len: nat): nat {
    var rest := if len >= HDR_LEN then len - HDR_LEN else 0;
    if rest <= PKT_SIZE then rest else PKT_SIZE
  }

  /** The bytes behind the header, up to the reported length and the packet size. */
  function Payload(buf: seq<byte>, len: nat): seq<byte>
    requires |buf| == BUF_SIZE
  {
    buf[HDR_LEN..HDR_LEN + PayloadLen(len)]
  }

  // ----- the system and its steps

  /** Where the driver is inside `receive`. */
  datatype DriverAt =
    | Idle
    | Checked
    | Taken(elem: UsedElem)
    | Copied(id: u16, packet: seq<byte>)
    | Slotted(id: u16, packet: seq<byte>)

  type Buffer = b: seq<byte> | |b| == BUF_SIZE witness seq(BUF_SIZE, _ => 0)

  /** A buffer as the device returned it. */
  datatype Completion = Completion(id: nat, len: u32, data: Buffer) {
    function Packet(): seq<byte> {
      Payload(data, len)
    }
  }

  /** Where a descriptor is: in the available ring at a count, held by the device, in the used ring at
      a count, published or not, or in the hand of `receive`. */
  datatype Place = PostedAt(c: nat) | Held | DoneAt(c: nat) | Hand

  /** The queue, both parties, and the history of the run: descriptors posted, buffers the device has
      written out and how many of them it has published, how many of each the other side has consumed,
      packets returned by `receive`, and the place of every descriptor. The history is written by the
      steps and never read by them. */
  datatype System = System(
    q: Queue, driver: DriverAt,
    devTaken: u16, devWritten: u16, held: set<nat>,
    posted: seq<nat>, taken: nat,
    written: seq<Completion>, published: nat, received: nat,
    delivered: seq<seq<byte>>,
    place: seq<Place>)

  datatype Step =
    | DriverCheck
    | DriverTake
    | DriverCopy
    | DriverSlot
    | DriverBump
    | DeviceTake
    | DeviceFill(fid: u16, data: seq<byte>)
    | DeviceElem(eid: u16, len: u32)
    | DeviceBump(n: nat)

  /** The device contract: it takes what is posted, writes and returns only buffers it holds, and
      publishes what it has written, one entry or several at a time. */
  predicate Enabled(s: System, e: Step)
    requires Sized(s.q)
  {
    match e
    case DriverCheck => s.driver.Idle?
    case DriverTake => s.driver.Checked?
    case DriverCopy => s.driver.Taken?
    case DriverSlot => s.driver.Copied?
    case DriverBump => s.driver.Slotted?
    case DeviceTake => s.devTaken != s.q.availIdx
    case DeviceFill(id, data) => id in s.held && id < QUEUE_SIZE && |data| == BUF_SIZE
    case DeviceElem(id, _) => id in s.held && id < QUEUE_SIZE
    case DeviceBump(n) => 0 < n <= |s.written| - s.published
  }

  // One function per step, each a single read or write of shared memory with its private bookkeeping.

  function Moved(place: seq<Place>, id: nat, p: Place): seq<Place> {
    if id < |place| then place[id := p] else place
  }

  function Check(s: System): System {
    if s.q.lastUsed == s.q.usedIdx then s else s.(driver := Checked)
  }

  function TakeUsed(s: System): System
    requires Sized(s.q)
  {
    s.(q := s.q.(lastUsed := Bump(s.q.lastUsed)),
       driver := Taken(s.q.usedRing[Slot(s.q.lastUsed)]),
       received := s.received + 1,
       place := Moved(s.place, s.q.usedRing[Slot(s.q.lastUsed)].id, Hand))
  }

  /** An id out of range makes `receive` give up on the packet. */
  function CopyOut(s: System): System
    requires Sized(s.q) && s.driver.Taken?
  {
    var elem := s.driver.elem;
    if elem.id >= QUEUE_SIZE then s.(driver := Idle)
    else s.(driver := Copied(elem.id, Payload(s.q.bufs[elem.id], elem.len)))
  }

  function FillSlot(s: System): System
    requires Sized(s.q) && s.driver.Copied?
  {
    s.(q := s.q.(availRing := s.q.availRing[Slot(s.q.availIdx) := s.driver.id]),
       driver := Slotted(s.driver.id, s.driver.packet))
  }

  function PublishAvail(s: System): System
    requires s.driver.Slotted?
  {
    s.(q := s.q.(availIdx := Bump(s.q.availIdx)), driver := Idle,
       posted := s.posted + [s.driver.id], delivered := s.delivered + [s.driver.packet],
       place := Moved(s.place, s.driver.id, PostedAt(|s.posted|)))
  }

  function TakeAvail(s: System): System
    requires Sized(s.q)
  {
    var id := s.q.availRing[Slot(s.devTaken)];
    s.(devTaken := Bump(s.devTaken), held := s.held + {id}, taken := s.taken + 1,
       place := Moved(s.place, id, Held))
  }

  function FillBuffer(s: System, id: nat, data: seq<byte>): System
    requires Sized(s.q) && id < QUEUE_SIZE
  {
    s.(q := s.q.(bufs := s.q.bufs[id := data]))
  }

  function FillElem(s: System, id: nat, len: u32): System
    requires Sized(s.q) && id < QUEUE_SIZE
  {
    s.(q := s.q.(usedRing := s.q.usedRing[Slot(s.devWritten) := UsedElem(id, len)]),
       devWritten := Bump(s.devWritten), held := s.held - {id},
       written := s.written + [Completion(id, len, s.q.bufs[id])],
       place := Moved(s.place, id, DoneAt(|s.written|)))
  }

  function PublishUsed(s: System, n: nat): System {
    s.(q := s.q.(usedIdx := (s.q.usedIdx + n) % WRAP), published := s.published + n)
  }

  function Apply(s: System, e: Step): (t: System)
    requires Sized(s.q) && Enabled(s, e)
    ensures Sized(t.q)
  {
    match e
    case DriverCheck => Check(s)
    case DriverTake => TakeUsed(s)
    case DriverCopy => CopyOut(s)
    case DriverSlot => FillSlot(s)
    case DriverBump => PublishAvail(s)
    case DeviceTake => TakeAvail(s)
    case DeviceFill(id, data) => FillBuffer(s, id, data)
    case DeviceElem(id, len) => FillElem(s, id, len)
    case DeviceBump(n) => PublishUsed(s, n)
  }

  predicate Executable(s: System, es: seq<Step>)
    requires Sized(s.q)
    decreases |es|
  {
    es == [] || (Enabled(s, es[0]) && Executable(Apply(s, es[0]), es[1..]))
  }

  function Run(s: System, es: seq<Step>): (t: System)
    requires Sized(s.q) && Executable(s, es)
    ensures Sized(t.q)
    decreases |es|
  {
    if es == [] then s else Run(Apply(s, es[0]), es[1..])
  }

  /** After `init`: all descriptors posted in order, nothing taken, used or received. */
  predicate Initial(s: System) {
    && Sized(s.q) && s.driver.Idle?
    && s.q.availIdx == QUEUE_SIZE && (forall i :: 0 <= i < QUEUE_SIZE ==> s.q.availRing[i] == i)
    && s.q.usedIdx == s.q.lastUsed == s.devTaken == s.devWritten == 0 && s.held == {}
    && |s.posted| == QUEUE_SIZE && (forall i :: 0 <= i < QUEUE_SIZE ==> s.posted[i] == i)
    && s.taken == s.published == s.received == 0 && s.written == [] && s.delivered == []
    && |s.place| == QUEUE_SIZE && (forall i :: 0 <= i < QUEUE_SIZE ==> s.place[i] == PostedAt(i))
  }

  // ----- the invariant

  /** The descriptor in the driver's hand, if any. */
  function InHand(d: DriverAt): seq<nat> {
    match d
    case Taken(elem) => [elem.id]
    case Copied(id, _) => [id]
    case Slotted(id, _) => [id]
    case _ => []
  }

  /** The wrapped 16-bit indices are the unbounded counts of the history, and the counts balance. */
  predicate Counted(s: System) {
    && s.received <= s.published <= |s.written| && s.taken <= |s.posted|
    && s.q.availIdx == |s.posted| % WRAP && s.devTaken == s.taken % WRAP
    && s.q.usedIdx == s.published % WRAP && s.devWritten == |s.written| % WRAP && s.q.lastUsed == s.received % WRAP
    && s.taken == |s.written| + |s.held|
    && |s.posted| + |InHand(s.driver)| == s.received + QUEUE_SIZE
  }

  /** Each descriptor is in one place, and each occupied place holds one descriptor. */
  predicate Owned(s: System) {
    && |s.place| == QUEUE_SIZE
    && (forall c :: s.taken <= c < |s.posted| ==> At(s.place, s.posted[c], PostedAt(c)))
    && (forall c :: s.received <= c < |s.written| ==> At(s.place, s.written[c].id, DoneAt(c)))
    && (forall id :: id in s.held ==> At(s.place, id, Held))
    && (forall id :: 0 <= id < QUEUE_SIZE ==> Backed(s, id))
  }

  predicate At(place: seq<Place>, id: nat, p: Place) {
    id < |place| && place[id] == p
  }

  /** The recorded place of a descriptor really holds it. */
  predicate Backed(s: System, id: nat)
    requires id < |s.place|
  {
    match s.place[id]
    case PostedAt(c) => s.taken <= c < |s.posted| && s.posted[c] == id
    case DoneAt(c) => s.received <= c < |s.written| && s.written[c].id == id
    case Held => id in s.held
    case Hand => InHand(s.driver) == [id]
  }

  /** The descriptor in hand is recorded as such. */
  predicate OwnedInTransit(s: System) {
    InHand(s.driver) != [] ==> At(s.place, InHand(s.driver)[0], Hand)
  }

  /** The available ring still holds every posting the device has yet to take. */
  predicate AvailHolds(ring: seq<u16>, posted: seq<nat>, taken: nat) {
    && |ring| == QUEUE_SIZE && taken <= |posted|
    && forall c :: taken <= c < |posted| ==> ring[c % QUEUE_SIZE] == posted[c]
  }

  /** Completion k is in its used slot, and its bytes in its buffer. */
  predicate Intact(elem: UsedElem, bufs: seq<seq<byte>>, k: Completion) {
    elem.id == k.id < |bufs| && elem.len == k.len && bufs[k.id] == k.data
  }

  /** The used ring still holds every completion the driver has yet to read. */
  predicate UsedHolds(ring: seq<UsedElem>, bufs: seq<seq<byte>>, written: seq<Completion>, received: nat) {
    && |ring| == |bufs| == QUEUE_SIZE && received <= |written|
    && forall c :: received <= c < |written| ==> Intact(ring[c % QUEUE_SIZE], bufs, written[c])
  }

  predicate Readable(s: System)
    requires Sized(s.q)
  {
    && AvailHolds(s.q.availRing, s.posted, s.taken)
    && UsedHolds(s.q.usedRing, s.q.bufs, s.written, s.received)
    && (s.driver.Slotted? ==> s.q.availRing[|s.posted| % QUEUE_SIZE] == s.driver.id)
  }

  /** What the driver holds comes from completion k. */
  predicate WorksOn(d: DriverAt, bufs: seq<seq<byte>>, k: Completion) {
    match d
    case Taken(elem) => Intact(elem, bufs, k)
    case Copied(id, packet) => id == k.id && packet == k.Packet()
    case Slotted(id, packet) => id == k.id && packet == k.Packet()
    case _ => true
  }

  /** The driver works on the latest completion it has received. */
  predicate InStep(s: System)
    requires Counted(s)
  {
    && (s.driver.Checked? ==> s.received < s.published)
    && (InHand(s.driver) != [] ==> s.received > 0 && WorksOn(s.driver, s.q.bufs, s.written[s.received - 1]))
  }

  /** `receive` has returned every received packet but the one in hand, in completion order. */
  predicate Delivered(s: System)
    requires Counted(s)
  {
    && |s.delivered| + |InHand(s.driver)| == s.received
    && (forall i :: 0 <= i < |s.delivered| ==> s.delivered[i] == s.written[i].Packet())
  }

  predicate Inv(s: System) {
    Sized(s.q) && Counted(s) && Owned(s) && OwnedInTransit(s) && Readable(s) && InStep(s) && Delivered(s)
  }

  // ----- arithmetic of the two wraparounds

  /** The slot of a wrapped index is the slot of the unbounded counter. */
  lemma SlotOfCounter(c: nat)
    ensures Slot(c % WRAP) == c % QUEUE_SIZE
    ensures Bump(c % WRAP) == (c + 1) % WRAP
  {
  }

  /** Two counters less than a queue length apart use different slots and different indices. */
  lemma NearbyDiffer(c: nat, d: nat)
    requires c < d
    ensures d < c + QUEUE_SIZE ==> c % QUEUE_SIZE != d % QUEUE_SIZE
    ensures d < c + WRAP ==> c % WRAP != d % WRAP
  {
  }

  // ----- the rings

  /** Writing the next available slot disturbs no posting the device has yet to take. */
  lemma AvailWrite(ring: seq<u16>, posted: seq<nat>, taken: nat, id: u16)
    requires AvailHolds(ring, posted, taken) && |posted| < taken + QUEUE_SIZE
    ensures var r := ring[|posted| % QUEUE_SIZE := id]; AvailHolds(r, posted, taken) && r[|posted| % QUEUE_SIZE] == id
  {
    forall c | taken <= c < |posted| ensures c % QUEUE_SIZE != |posted| % QUEUE_SIZE {
      NearbyDiffer(c, |posted|);
    }
  }

  /** Writing the next used slot disturbs no completion the driver has yet to read. */
  lemma UsedWrite(ring: seq<UsedElem>, bufs: seq<seq<byte>>, written: seq<Completion>, received: nat, elem: UsedElem)
    requires UsedHolds(ring, bufs, written, received) && |written| < received + QUEUE_SIZE
    ensures UsedHolds(ring[|written| % QUEUE_SIZE := elem], bufs, written, received)
  {
    forall c | received <= c < |written| ensures c % QUEUE_SIZE != |written| % QUEUE_SIZE {
      NearbyDiffer(c, |written|);
    }
  }

  lemma AvailPublish(ring: seq<u16>, posted: seq<nat>, taken: nat, id: nat)
    requires AvailHolds(ring, posted, taken) && ring[|posted| % QUEUE_SIZE] == id
    ensures AvailHolds(ring, posted + [id], taken)
  {
  }

  lemma UsedPublish(ring: seq<UsedElem>, bufs: seq<seq<byte>>, written: seq<Completion>, received: nat, k: Completion)
    requires UsedHolds(ring, bufs, written, received) && Intact(ring[|written| % QUEUE_SIZE], bufs, k)
    ensures UsedHolds(ring, bufs, written + [k], received)
  {
  }

  lemma InitialInv(s: System)
    requires Initial(s)
    ensures Inv(s)
  {
  }

  // ----- ownership, step by step

  lemma TakeUsedOwned(s: System)
    requires Sized(s.q) && Counted(s) && Owned(s) && OwnedInTransit(s)
    requires InHand(s.driver) == [] && s.received < s.published
    requires s.q.usedRing[Slot(s.q.lastUsed)].id == s.written[s.received].id
    ensures Counted(TakeUsed(s)) && Owned(TakeUsed(s)) && OwnedInTransit(TakeUsed(s))
  {
    var t := TakeUsed(s);
    SlotOfCounter(s.received);
    assert At(s.place, s.written[s.received].id, DoneAt(s.received));
    forall i | 0 <= i < QUEUE_SIZE ensures Backed(t, i) {
      assert Backed(s, i);
    }
  }

  lemma PublishAvailOwned(s: System)
    requires Sized(s.q) && Counted(s) && Owned(s) && OwnedInTransit(s)
    requires s.driver.Slotted?
    ensures Counted(PublishAvail(s)) && Owned(PublishAvail(s)) && OwnedInTransit(PublishAvail(s))
  {
    var t := PublishAvail(s);
    SlotOfCounter(|s.posted|);
    forall i | 0 <= i < QUEUE_SIZE ensures Backed(t, i) {
      assert Backed(s, i);
    }
  }

  lemma TakeAvailOwned(s: System)
    requires Sized(s.q) && Counted(s) && Owned(s) && OwnedInTransit(s)
    requires s.taken < |s.posted| && s.q.availRing[Slot(s.devTaken)] == s.posted[s.taken]
    ensures Counted(TakeAvail(s)) && Owned(TakeAvail(s)) && OwnedInTransit(TakeAvail(s))
  {
    var t := TakeAvail(s);
    SlotOfCounter(s.taken);
    assert At(s.place, s.posted[s.taken], PostedAt(s.taken));
    forall i | 0 <= i < QUEUE_SIZE ensures Backed(t, i) {
      assert Backed(s, i);
    }
  }

  lemma FillElemOwned(s: System, id: u16, len: u32)
    requires Sized(s.q) && Counted(s) && Owned(s) && OwnedInTransit(s)
    requires id in s.held && id < QUEUE_SIZE
    ensures Counted(FillElem(s, id, len)) && Owned(FillElem(s, id, len)) && OwnedInTransit(FillElem(s, id, len))
  {
    var t := FillElem(s, id, len);
    SlotOfCounter(|s.written|);
    assert At(s.place, id, Held);
    assert t.held + {id} == s.held;
    forall i | 0 <= i < QUEUE_SIZE ensures Backed(t, i) {
      assert Backed(s, i);
    }
  }

  /** Steps that only move a party along leave every place as it was. */
  lemma SamePlaces(s: System, t: System)
    requires Owned(s) && OwnedInTransit(s)
    requires t.place == s.place && t.posted == s.posted && t.taken == s.taken && t.held == s.held
    requires t.written == s.written && t.received == s.received
    requires InHand(t.driver) == InHand(s.driver)
    ensures Owned(t) && OwnedInTransit(t)
  {
    forall i | 0 <= i < QUEUE_SIZE ensures Backed(t, i) {
      assert Backed(s, i);
    }
  }

  // ----- every step keeps the invariant

  lemma CheckKeeps(s: System)
    requires Inv(s) && s.driver.Idle?
    ensures Inv(Check(s))
  {
    SamePlaces(s, Check(s));
  }

  lemma TakeUsedKeeps(s: System)
    requires Inv(s) && s.driver.Checked?
    ensures Inv(TakeUsed(s))
  {
    SlotOfCounter(s.received);
    assert Intact(s.q.usedRing[s.received % QUEUE_SIZE], s.q.bufs, s.written[s.received]);
    TakeUsedOwned(s);
  }

  lemma CopyOutKeeps(s: System)
    requires Inv(s) && s.driver.Taken?
    ensures Inv(CopyOut(s)) && CopyOut(s).driver.Copied?
  {
    SamePlaces(s, CopyOut(s));
  }

  /** For any entry at all: a descriptor out of range is dropped, with nothing delivered and nothing posted. */
  lemma CopyOutRange(s: System)
    requires Sized(s.q) && s.driver.Taken?
    ensures s.driver.elem.id >= 16 <==> CopyOut(s).driver == Idle
    ensures CopyOut(s).(driver := s.driver) == s
  {
  }

  lemma FillSlotKeeps(s: System)
    requires Inv(s) && s.driver.Copied?
    ensures Inv(FillSlot(s))
  {
    SlotOfCounter(|s.posted|);
    AvailWrite(s.q.availRing, s.posted, s.taken, s.driver.id);
    SamePlaces(s, FillSlot(s));
  }

  lemma PublishAvailKeeps(s: System)
    requires Inv(s) && s.driver.Slotted?
    ensures Inv(PublishAvail(s))
  {
    PublishAvailOwned(s);
    AvailPublish(s.q.availRing, s.posted, s.taken, s.driver.id);
  }

  lemma TakeAvailKeeps(s: System)
    requires Inv(s) && s.devTaken != s.q.availIdx
    ensures Inv(TakeAvail(s))
  {
    SlotOfCounter(s.taken);
    TakeAvailOwned(s);
  }

  lemma FillBufferKeeps(s: System, id: u16, data: seq<byte>)
    requires Inv(s) && Enabled(s, DeviceFill(id, data))
    ensures Inv(FillBuffer(s, id, data))
  {
    var t := FillBuffer(s, id, data);
    SamePlaces(s, t);
    assert At(s.place, id, Held);
    forall c | s.received <= c < |s.written| ensures s.written[c].id != id {
      assert At(s.place, s.written[c].id, DoneAt(c));
    }
  }

  lemma FillElemKeeps(s: System, id: u16, len: u32)
    requires Inv(s) && Enabled(s, DeviceElem(id, len))
    ensures Inv(FillElem(s, id, len))
  {
    SlotOfCounter(|s.written|);
    FillElemOwned(s, id, len);
    var elem := UsedElem(id, len);
    UsedWrite(s.q.usedRing, s.q.bufs, s.written, s.received, elem);
    UsedPublish(s.q.usedRing[|s.written| % QUEUE_SIZE := elem], s.q.bufs, s.written, s.received,
                Completion(id, len, s.q.bufs[id]));
  }

  /** What the device writes into a buffer it holds is what the completion records and the buffer keeps. */
  lemma {:induction false} FilledIsCompleted(s: System, id: u16, data: seq<byte>, len: u32)
    requires Inv(s) && Enabled(s, DeviceFill(id, data))
    ensures Enabled(Apply(s, DeviceFill(id, data)), DeviceElem(id, len))
    ensures var t := Apply(Apply(s, DeviceFill(id, data)), DeviceElem(id, len));
      t.written == s.written + [Completion(id, len, data)] && t.q.bufs == s.q.bufs[id := data]
  {
  }

  lemma PublishUsedKeeps(s: System, n: nat)
    requires Inv(s) && Enabled(s, DeviceBump(n))
    ensures Inv(PublishUsed(s, n))
  {
    AddWrapped(s.published, n);
    SamePlaces(s, PublishUsed(s, n));
  }

  lemma AddWrapped(c: nat, n: nat)
    ensures (c % WRAP + n) % WRAP == (c + n) % WRAP
  {
  }

  lemma StepKeeps(s: System, e: Step)
    requires Inv(s) && Enabled(s, e)
    ensures Inv(Apply(s, e))
  {
    match e
    case DriverCheck => CheckKeeps(s);
    case DriverTake => TakeUsedKeeps(s);
    case DriverCopy => CopyOutKeeps(s);
    case DriverSlot => FillSlotKeeps(s);
    case DriverBump => PublishAvailKeeps(s);
    case DeviceTake => TakeAvailKeeps(s);
    case DeviceFill(id, data) => FillBufferKeeps(s, id, data);
    case DeviceElem(id, len) => FillElemKeeps(s, id, len);
    case DeviceBump(n) => PublishUsedKeeps(s, n);
  }

  lemma {:induction false} RunKeeps(s: System, es: seq<Step>)
    requires Inv(s) && Executable(s, es)
    ensures Inv(Run(s, es))
    decreases |es|
  {
    if es != [] {
      StepKeeps(s, es[0]);
      RunKeeps(Apply(s, es[0]), es[1..]);
    }
  }
}
