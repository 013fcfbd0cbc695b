/** The round-robin scheduler: a cyclic cursor over a queue that only grows. */
module Scheduler {
  import opened Optional
  import opened Bits

  const USIZE_MAX: nat := 0xFFFF_FFFF_FFFF_FFFF
  const ISIZE_MAX: nat := 0x7FFF_FFFF_FFFF_FFFF

  datatype ProcessState = Running | Ready | Blocked | Zombie

  datatype Entry = Entry(pid: nat, state: ProcessState) {
    predicate Runnable() {
      state.Ready? || state.Running?
    }
  }

  /** The queue and the cursor; the cursor starts at the largest usize, one step before entry 0. */
  datatype Sched = Sched(queue: seq<Entry>, current: nat)

  predicate InRange(s: Sched) {
    |s.queue| <= ISIZE_MAX && (s.current < |s.queue| || s.current == USIZE_MAX)
  }

  /** `current.wrapping_add(1) % len`. */
  function Advance(current: nat, len: nat): (r: nat)
    requires len > 0
    ensures r < len
  {
    (current + 1) % (USIZE_MAX + 1) % len
  }

  /** k rounds of the loop in `next`: the cursor left, and the position found. */
  function Scan(queue: seq<Entry>, current: nat, k: nat): (nat, Option<nat>)
    requires queue != []
    decreases k
  {
    if k == 0 then (current, None)
    else
      var c := Advance(current, |queue|);
      if queue[c].Runnable() then (c, Some(c)) else Scan(queue, c, k - 1)
  }

  function NextOf(s: Sched): (Sched, Option<nat>) {
    if s.queue == [] then (s, None)
    else
      var (c, r) := Scan(s.queue, s.current, |s.queue|);
      (s.(current := c), r)
  }

  function Added(s: Sched, e: Entry): Sched {
    s.(queue := s.queue + [e])
  }

  /** Only the first entry with the given pid changes. */
  function SetFirst(queue: seq<Entry>, pid: nat, state: ProcessState): (r: seq<Entry>)
    ensures |r| == |queue|
  {
    if queue == [] then []
    else if queue[0].pid == pid then [queue[0].(state := state)] + queue[1..]
    else [queue[0]] + SetFirst(queue[1..], pid, state)
  }

  /** Entry i is the one that changes when no earlier one has the pid. */
  lemma {:induction false} SetFirstAt(queue: seq<Entry>, i: nat, pid: nat, state: ProcessState)
    requires i <= |queue| && forall j :: 0 <= j < i ==> queue[j].pid != pid
    requires i < |queue| ==> queue[i].pid == pid
    ensures SetFirst(queue, pid, state) == if i < |queue| then queue[i := queue[i].(state := state)] else queue
    decreases i
  {
    if i > 0 {
      SetFirstAt(queue[1..], i - 1, pid, state);
    }
  }

  // ----- the cursor as a position

  /** The cursor as a position, -1 before the first call. */
  function Position(current: nat): int {
    if current == USIZE_MAX then -1 else current
  }

  /** How many steps of the cursor lead from a to p. */
  function Distance(a: int, p: int, len: int): int {
    if a < p then p - a else p - a + len
  }

  /** Going round from the cursor a, entry b comes up before entry p. */
  predicate Before(p: int, a: int, b: int) {
    if a < p then a < b < p else b > a || b < p
  }

  lemma BeforeTransitive(p: nat, a: int, b: nat, c: nat)
    requires Before(p, a, b) && Before(p, b, c)
    ensures Before(p, a, c) && c != b
  {
  }

  lemma AdvancePosition(current: nat, len: nat)
    requires 0 < len <= ISIZE_MAX && (current < len || current == USIZE_MAX)
    ensures Advance(current, len) == if Position(current) + 1 < len then Position(current) + 1 else 0
  {
    var x := Position(current) + 1;
    if current < USIZE_MAX { SmallMod(current + 1, USIZE_MAX + 1); }
    assert Advance(current, len) == x % len;
    if x < len { SmallMod(x, len); }
  }

  /** A scan long enough to reach a runnable p finds p, or something on the way to it. */
  lemma {:induction false} ScanReaches(queue: seq<Entry>, current: nat, k: nat, p: nat)
    requires InRange(Sched(queue, current)) && p < |queue| && queue[p].Runnable()
    requires Distance(Position(current), p, |queue|) <= k
    ensures var (c, r) := Scan(queue, current, k);
      r == Some(c) && c < |queue| && queue[c].Runnable() && (c == p || Before(p, Position(current), c))
    decreases k
  {
    AdvancePosition(current, |queue|);
    var c := Advance(current, |queue|);
    if !queue[c].Runnable() {
      ScanReaches(queue, c, k - 1, p);
      var (d, _) := Scan(queue, c, k - 1);
      if d != p { BeforeTransitive(p, Position(current), c, d); }
    }
  }

  /** A scan that finds nothing has only turned the cursor. */
  lemma {:induction false} ScanNothing(queue: seq<Entry>, current: nat, k: nat)
    requires InRange(Sched(queue, current)) && queue != [] && k <= |queue|
    requires forall i :: 0 <= i < |queue| ==> !queue[i].Runnable()
    ensures var (c, r) := Scan(queue, current, k);
      && r == None
      && InRange(Sched(queue, c))
      && (k > 0 ==> var x := Position(current) + k; c == if x < |queue| then x else x - |queue|)
      && (k == 0 ==> c == current)
    decreases k
  {
    if k > 0 {
      AdvancePosition(current, |queue|);
      ScanNothing(queue, Advance(current, |queue|), k - 1);
    }
  }

  /** `next` is None exactly when every entry is blocked or a zombie, and then an in-range cursor stays put. */
  lemma NextNone(s: Sched)
    requires InRange(s)
    ensures NextOf(s).1 == None <==>
      forall i :: 0 <= i < |s.queue| ==> s.queue[i].state == Blocked || s.queue[i].state == Zombie
    ensures NextOf(s).1 == None && s.current < |s.queue| ==> NextOf(s).0 == s
    ensures InRange(NextOf(s).0)
  {
    if p :| 0 <= p < |s.queue| && s.queue[p].Runnable() {
      ScanReaches(s.queue, s.current, |s.queue|, p);
      assert s.queue[p].state == Ready || s.queue[p].state == Running;
    } else if s.queue != [] {
      ScanNothing(s.queue, s.current, |s.queue|);
    }
  }

  /** `next` returns the cyclically first entry after the cursor that is Ready or Running. */
  lemma NextFirst(s: Sched, p: nat)
    requires InRange(s) && p < |s.queue| && (s.queue[p].state == Ready || s.queue[p].state == Running)
    ensures var (t, r) := NextOf(s);
      && InRange(t) && t.queue == s.queue && r == Some(t.current) && t.current < |s.queue|
      && (s.queue[t.current].state == Ready || s.queue[t.current].state == Running)
      && (t.current == p || Before(p, Position(s.current), t.current))
  {
    ScanReaches(s.queue, s.current, |s.queue|, p);
  }

  // ----- runs

  datatype Op = CallNext | CallAdd(entry: Entry) | CallSet(pid: nat, state: ProcessState)

  function Apply(s: Sched, op: Op): Sched {
    match op
    case CallNext => NextOf(s).0
    case CallAdd(e) => Added(s, e)
    case CallSet(pid, st) => s.(queue := SetFirst(s.queue, pid, st))
  }

  /** The positions returned by the calls of `next` in a run. */
  function Returned(s: Sched, ops: seq<Op>): seq<nat>
    decreases |ops|
  {
    if ops == [] then []
    else
      var rest := Returned(Apply(s, ops[0]), ops[1..]);
      if ops[0].CallNext? && NextOf(s).1.Some? then [NextOf(s).1.value] + rest else rest
  }

  /** Entry p is Ready or Running whenever a call of the run begins. */
  predicate StaysRunnable(s: Sched, ops: seq<Op>, p: nat)
    decreases |ops|
  {
    ops == [] ||
    (&& p < |s.queue| && (s.queue[p].state == Ready || s.queue[p].state == Running)
     && StaysRunnable(Apply(s, ops[0]), ops[1..], p))
  }

  function Calls(ops: seq<Op>): nat {
    if ops == [] then 0 else (if ops[0].CallNext? then 1 else 0) + Calls(ops[1..])
  }

  function Adds(ops: seq<Op>): nat {
    if ops == [] then 0 else (if ops[0].CallAdd? then 1 else 0) + Adds(ops[1..])
  }

  predicate Distinct(s: seq<nat>) {
    forall i, j :: 0 <= i < j < |s| ==> s[i] != s[j]
  }

  lemma ApplyValid(s: Sched, op: Op)
    requires InRange(s) && |Apply(s, op).queue| <= ISIZE_MAX
    ensures InRange(Apply(s, op))
  {
    if op.CallNext? { NextNone(s); }
  }

  lemma QueueGrows(s: Sched, op: Op)
    ensures |Apply(s, op).queue| == |s.queue| + Adds([op])
  {
    assert Adds([op]) == (if op.CallAdd? then 1 else 0) + Adds([]);
  }

  /** Bounded overtaking: until a runnable entry is returned, no other entry is returned twice. */
  lemma {:induction false} BoundedOvertaking(s: Sched, ops: seq<Op>, p: nat)
    requires InRange(s) && |s.queue| + Adds(ops) <= ISIZE_MAX
    requires StaysRunnable(s, ops, p) && p !in Returned(s, ops)
    ensures Distinct(Returned(s, ops))
    ensures forall b :: b in Returned(s, ops) ==> Before(p, Position(s.current), b)
    decreases |ops|
  {
    if ops != [] {
      var t := Apply(s, ops[0]);
      QueueGrows(s, ops[0]);
      ApplyValid(s, ops[0]);
      BoundedOvertaking(t, ops[1..], p);
      if ops[0].CallNext? {
        NextFirst(s, p);
        var b := t.current;
        assert Returned(s, ops) == [b] + Returned(t, ops[1..]);
        assert b in Returned(s, ops);
        forall c | c in Returned(t, ops[1..]) ensures c != b && Before(p, Position(s.current), c) {
          BeforeTransitive(p, Position(s.current), b, c);
        }
      }
    }
  }

  /** A runnable entry not yet returned bounds the calls so far: its distance from the cursor, and one per `add`. */
  lemma {:induction false} WaitBound(s: Sched, ops: seq<Op>, p: nat)
    requires InRange(s) && p < |s.queue| && |s.queue| + Adds(ops) <= ISIZE_MAX
    requires StaysRunnable(s, ops, p) && p !in Returned(s, ops)
    ensures Calls(ops) < Distance(Position(s.current), p, |s.queue|) + Adds(ops) <= |s.queue| + Adds(ops)
    decreases |ops|
  {
    if ops != [] {
      var t := Apply(s, ops[0]);
      QueueGrows(s, ops[0]);
      ApplyValid(s, ops[0]);
      if ops[0].CallNext? {
        NextFirst(s, p);
        assert Returned(s, ops) == [t.current] + Returned(t, ops[1..]);
      }
      assert p !in Returned(t, ops[1..]);
      WaitBound(t, ops[1..], p);
    }
  }

  /** An entry that stays runnable is returned within queue-length calls, and one more for each `add` meanwhile. */
  lemma {:induction false} NoStarvation(s: Sched, ops: seq<Op>, p: nat)
    requires InRange(s) && p < |s.queue| && |s.queue| + Adds(ops) <= ISIZE_MAX
    requires StaysRunnable(s, ops, p) && Calls(ops) >= |s.queue| + Adds(ops)
    ensures p in Returned(s, ops)
  {
    if p !in Returned(s, ops) { WaitBound(s, ops, p); }
  }

  // ----- the object

  class Scheduler {
    var queue: seq<Entry>
    var current: nat

    ghost predicate Valid()
      reads this
    {
      InRange(Sched(queue, current))
    }

    constructor ()
      ensures Valid() && queue == [] && current == 0xFFFF_FFFF_FFFF_FFFF
    {
      queue := [];
      current := USIZE_MAX;
    }

    /** Appends one entry; a vector cannot outgrow isize. */
    method Add(pid: nat, state: ProcessState)
      requires Valid() && |queue| < 0x7FFF_FFFF_FFFF_FFFF
      modifies this
      ensures Valid() && Sched(queue, current) == Added(old(Sched(queue, current)), Entry(pid, state))
    {
      queue := queue + [Entry(pid, state)];
    }

    method Next() returns (r: Option<nat>)
      requires Valid()
      modifies this
      ensures Valid() && Sched(queue, current) == NextOf(old(Sched(queue, current))).0
      ensures match NextOf(old(Sched(queue, current))).1
              case None => r == None
              case Some(p) => p < |queue| && r == Some(queue[p].pid)
      ensures queue == old(queue)
      ensures r.Some? ==>
        && current < |queue| && r == Some(queue[current].pid)
        && (queue[current].state == Ready || queue[current].state == Running)
      ensures r.None? <==> forall i :: 0 <= i < |queue| ==> queue[i].state == Blocked || queue[i].state == Zombie
    {
      ghost var s := Sched(queue, current);
      NextNone(s);
      var len := |queue|;
      if len == 0 {
        return None;
      }
      for i := 0 to len
        invariant queue == s.queue
        invariant Scan(queue, current, len - i) == Scan(s.queue, s.current, len)
      {
        current := Advance(current, len);
        if queue[current].Runnable() {
          return Some(queue[current].pid);
        }
      }
      return None;
    }

    method SetState(pid: nat, state: ProcessState)
      requires Valid()
      modifies this
      ensures Valid() && current == old(current) && queue == SetFirst(old(queue), pid, state)
    {
      var i := 0;
      while i < |queue|
        invariant i <= |queue| && queue == old(queue)
        invariant forall j :: 0 <= j < i ==> queue[j].pid != pid
      {
        if queue[i].pid == pid {
          SetFirstAt(queue, i, pid, state);
          queue := queue[i := queue[i].(state := state)];
          return;
        }
        i := i + 1;
      }
      SetFirstAt(queue, i, pid, state);
    }
  }
}
