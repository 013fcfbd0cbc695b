/** Why the order of two memory accesses of `receive` matters, on either side of the queue. */
module RxOrder {
  import opened Bytes
  import opened RxRing

  // ----- the available ring: slot before index

  /** The new available index is visible, the slot it announces is not yet written. */
  function EarlyBump(s: System): System
    requires s.driver.Copied?
  {
    s.(q := s.q.(availIdx := Bump(s.q.availIdx)), posted := s.posted + [s.driver.id],
       place := Moved(s.place, s.driver.id, PostedAt(|s.posted|)))
  }

  /** What a device that looks now takes next. */
  function Seen(s: System): nat
    requires Sized(s.q)
  {
    s.q.availRing[Slot(s.devTaken)]
  }

  /** In program order a device that has caught up takes the descriptor just recycled. */
  lemma SlotFirst(s: System)
    requires Inv(s) && s.driver.Copied? && s.taken == |s.posted|
    ensures var t := PublishAvail(FillSlot(s)); t.devTaken != t.q.availIdx && Seen(t) == s.driver.id
  {
    SlotOfCounter(s.taken);
    NearbyDiffer(s.taken, s.taken + 1);
  }

  /** With the index first it takes what the slot held before: the right one only if that was the same. */
  lemma BumpFirst(s: System)
    requires Inv(s) && s.driver.Copied? && s.taken == |s.posted|
    ensures var t := EarlyBump(s); t.devTaken != t.q.availIdx
    ensures Seen(EarlyBump(s)) == s.driver.id <==> s.q.availRing[Slot(s.q.availIdx)] == s.driver.id
  {
    SlotOfCounter(s.taken);
    NearbyDiffer(s.taken, s.taken + 1);
  }

  lemma {:induction false} RunAppend(s: System, a: seq<Step>, b: seq<Step>)
    requires Sized(s.q) && Executable(s, a) && Executable(Run(s, a), b)
    ensures Executable(s, a + b) && Run(s, a + b) == Run(Run(s, a), b)
    decreases |a|
  {
    if a == [] {
      assert a + b == b;
    } else {
      assert (a + b)[1..] == a[1..] + b;
      RunAppend(Apply(s, a[0]), a[1..], b);
    }
  }

  lemma {:induction false} RunOne(s: System, e: Step)
    requires Sized(s.q) && Enabled(s, e)
    ensures Executable(s, [e]) && Run(s, [e]) == Apply(s, e)
  {
    assert [e][1..] == [];
  }

  /** One more step after a run. */
  lemma {:induction false} RunMore(s: System, es: seq<Step>, e: Step)
    requires Sized(s.q) && Executable(s, es) && Enabled(Run(s, es), e)
    ensures Executable(s, es + [e]) && Run(s, es + [e]) == Apply(Run(s, es), e)
  {
    RunOne(Run(s, es), e);
    RunAppend(s, es, [e]);
  }

  /** From the start the device may take n of the sixteen postings in a row. */
  lemma {:induction false} TakeMany(s: System, n: nat) returns (es: seq<Step>)
    requires Initial(s) && n <= QUEUE_SIZE
    ensures Executable(s, es)
    ensures var t := Run(s, es);
      && t.q == s.q && t.driver == s.driver && t.written == [] && t.published == 0
      && t.taken == t.devTaken == n && t.posted == s.posted && t.devWritten == 0
      && forall id :: id in t.held <==> 0 <= id < n
  {
    if n == 0 {
      es := [];
    } else {
      es := TakeMany(s, n - 1);
      RunMore(s, es, DeviceTake);
      es := es + [DeviceTake];
    }
  }

  /** The device takes everything, and returns descriptor 1 first. */
  lemma ReturnOne(s: System) returns (es: seq<Step>)
    requires Initial(s)
    ensures Executable(s, es)
    ensures var t := Run(s, es); t.driver.Copied? && t.driver.id == 1 && t.taken == |t.posted| && 0 in t.held
    ensures Run(s, es).q.availRing == s.q.availRing && Run(s, es).q.availIdx == QUEUE_SIZE
  {
    es := TakeMany(s, QUEUE_SIZE);
    RunMore(s, es, DeviceElem(1, 0));
    es := es + [DeviceElem(1, 0)];
    RunMore(s, es, DeviceBump(1));
    es := es + [DeviceBump(1)];
    RunMore(s, es, DriverCheck);
    es := es + [DriverCheck];
    RunMore(s, es, DriverTake);
    es := es + [DriverTake];
    RunMore(s, es, DriverCopy);
    es := es + [DriverCopy];
  }

  /** A run in which the early index makes the device take a descriptor that it still holds. */
  lemma BumpBeforeSlotFails(s: System) returns (es: seq<Step>)
    requires Initial(s)
    ensures Executable(s, es) && Run(s, es).driver.Copied?
    ensures var t := EarlyBump(Run(s, es));
      && t.devTaken != t.q.availIdx && t.driver.id == 1 && Seen(t) == 0 && 0 in t.held
      && !Inv(TakeAvail(t))
  {
    es := ReturnOne(s);
    InitialInv(s);
    RunKeeps(s, es);
    var t := Run(s, es);
    BumpFirst(t);
    assert t.held + {0} == t.held;
  }

  // ----- the used ring: index before entry

  /** A run in which an entry read ahead of the index check is not the entry the check announces. */
  lemma EntryBeforeIndexFails(s: System) returns (es: seq<Step>)
    requires Initial(s)
    ensures Executable(s, es)
    ensures var t := Run(s, es);
      && t.driver.Checked? && t.q.lastUsed == s.q.lastUsed
      && t.q.usedRing[Slot(t.q.lastUsed)] != s.q.usedRing[Slot(s.q.lastUsed)]
  {
    var len: u32 := if s.q.usedRing[0].len == 0 then 1 else 0;
    es := TakeMany(s, 1);
    RunMore(s, es, DeviceElem(0, len));
    es := es + [DeviceElem(0, len)];
    RunMore(s, es, DeviceBump(1));
    es := es + [DeviceBump(1)];
    RunMore(s, es, DriverCheck);
    es := es + [DriverCheck];
  }
}
