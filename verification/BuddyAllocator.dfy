/** The allocator object, and what holds after any history of calls. */
module BuddyAllocator {
  import opened Bits
  import opened Blocks
  import opened FreeLists
  import opened BuddyOps
  import opened BuddyCounts
  import opened BuddyLedger

  const EMPTY_LISTS: Lists := [[], [], [], [], [], [], [], [], [], [], []]

  // ----- histories

  /** Construction: every frame is freed on its own, in the order given. */
  function Build(frames: seq<nat>): FreeResult {
    if frames == [] then Done(EMPTY_LISTS)
    else match Build(frames[..|frames| - 1])
      case Done(l) => Free(l, frames[|frames| - 1], 0)
      case Panic(l) => Panic(l)
  }

  datatype Call = Take(count: nat) | Give(frame: nat, count: nat)

  datatype Run = Live(lists: Lists, held: Held) | Stuck

  /** One call; a `free` that matches no outstanding block, or that panics, ends the run. */
  function Apply(r: Run, c: Call): Run {
    match (r, c)
    case (Stuck, _) => Stuck
    case (Live(l, held), Take(count)) =>
      (match Allocate(l, OrderOf(count))
       case NoBlock => r
       case Block(f, m) => Live(m, held[f := OrderOf(count)]))
    case (Live(l, held), Give(f, count)) =>
      if f in held && held[f] == OrderOf(count) && Free(l, f, held[f]).Done?
      then Live(Free(l, f, held[f]).lists, held - {f})
      else Stuck
  }

  function Exec(r: Run, calls: seq<Call>): Run {
    if calls == [] then r else Apply(Exec(r, calls[..|calls| - 1]), calls[|calls| - 1])
  }

  function FrameSet(frames: seq<nat>): set<nat> {
    set f | f in frames
  }

  lemma EmptyConserved()
    ensures Conserved(EMPTY_LISTS, map[], {})
  {
    EmptySize(EMPTY_LISTS, |EMPTY_LISTS|);
  }

  /** Freeing one more new frame: the books grow by it. */
  lemma BuildOne(l: Lists, managed: set<nat>, x: nat)
    requires Conserved(l, map[], managed) && x !in managed && Free(l, x, 0).Done?
    ensures Conserved(Free(l, x, 0).lists, map[], managed + {x})
  {
    AdmitConserves(l, map[], managed, x);
    var held: Held := map[x := 0];
    assert map[][x := 0] == held;
    assert held - {x} == map[];
    FreeConserves(l, held, managed + {x}, x);
  }

  /** Some aligned run of 2048 is there at least once, whatever other frames there are and how often. */
  ghost predicate TopArrives(m: multiset<nat>) {
    exists g :: Aligned(g, MAX_ORDER) && Arrivals(m, MAX_ORDER, g) > 0
  }

  lemma {:induction false} NothingArrives(k: nat, f: nat)
    ensures Arrivals(multiset{}, k, f) == 0
  {
    if k > 0 {
      NothingArrives(k - 1, f);
      NothingArrives(k - 1, f + Pow2(k - 1));
    }
  }

  lemma EmptyCounted()
    ensures CountedAll(EMPTY_LISTS, multiset{}) && !TopArrives(multiset{})
  {
    forall k: nat, f: nat ensures Arrivals(multiset{}, k, f) == 0 {
      NothingArrives(k, f);
    }
  }

  /** The lists after construction, block by block, for any frames in any order and number. */
  lemma {:induction false} BuildCounts(frames: seq<nat>)
    ensures Build(frames).Done? ==> CountedAll(Build(frames).lists, multiset(frames))
    ensures Build(frames).Panic? <==> TopArrives(multiset(frames))
  {
    if frames == [] {
      EmptyCounted();
    } else {
      var front, x := frames[..|frames| - 1], frames[|frames| - 1];
      var m := multiset(front);
      BuildCounts(front);
      assert frames == front + [x];
      assert multiset(frames) == m + multiset{x};
      if Build(front).Done? {
        FreeCounts(Build(front).lists, m, x);
      } else {
        var g :| Aligned(g, MAX_ORDER) && Arrivals(m, MAX_ORDER, g) > 0;
        ArrivalsGrow(m, multiset(frames), MAX_ORDER, g);
      }
    }
  }

  lemma TopArrivesIff(frames: seq<nat>)
    ensures TopArrives(multiset(frames)) <==> HasTopRun(FrameSet(frames))
  {
    forall g: nat ensures Arrivals(multiset(frames), MAX_ORDER, g) > 0 <==> TopRunIn(FrameSet(frames), g) {
      ArrivalsPositive(multiset(frames), MAX_ORDER, g);
    }
  }

  lemma {:induction false} BuildSize(frames: seq<nat>)
    requires Build(frames).Done?
    ensures FreeSize(Build(frames).lists, MAX_ORDER) == |frames|
  {
    if frames == [] {
      EmptySize(EMPTY_LISTS, |EMPTY_LISTS|);
    } else {
      var front := frames[..|frames| - 1];
      BuildSize(front);
      FreeOpSize(Build(front).lists, frames[|frames| - 1], 0);
    }
  }

  lemma FrameSetSnoc(front: seq<nat>, x: nat)
    ensures FrameSet(front + [x]) == FrameSet(front) + {x}
  {
    assert forall f :: f in front + [x] <==> f in front || f == x;
  }

  /** Frames are distinct exactly when none is lost by collecting them in a set. */
  lemma DistinctIff(frames: seq<nat>)
    ensures |FrameSet(frames)| <= |frames|
    ensures |FrameSet(frames)| == |frames| <==> NoDuplicates(frames)
  {
    if frames == [] {
      assert FrameSet(frames) == {};
    } else {
      var front, x := frames[..|frames| - 1], frames[|frames| - 1];
      DistinctIff(front);
      FrameSetSnoc(front, x);
      assert frames == front + [x];
      if x in front {
        var i :| 0 <= i < |front| && front[i] == x;
        assert frames[i] == frames[|front|];
      } else {
        assert forall i :: 0 <= i < |front| ==> front[i] == frames[i];
      }
    }
  }

  /**
   * Construction panics exactly when the frames hold a complete aligned run of 2048. Otherwise it leaves free
   * exactly the frames given, all in their places, if and only if they are distinct.
   */
  lemma {:induction false} BuildConserves(frames: seq<nat>)
    ensures Build(frames).Panic? <==> HasTopRun(FrameSet(frames))
    ensures Build(frames).Done? ==> (Conserved(Build(frames).lists, map[], FrameSet(frames)) <==> NoDuplicates(frames))
  {
    BuildCounts(frames);
    TopArrivesIff(frames);
    if Build(frames).Done? {
      if NoDuplicates(frames) {
        BuildDistinct(frames);
      } else {
        BuildSize(frames);
        DistinctIff(frames);
        assert HeldSize(map[]) == 0;
      }
    }
  }

  lemma {:induction false} BuildSnoc(front: seq<nat>, x: nat)
    ensures Build(front + [x]) == match Build(front) case Done(l) => Free(l, x, 0) case Panic(l) => Panic(l)
  {
    assert (front + [x])[..|front|] == front;
  }

  lemma PrefixSnoc(frames: seq<nat>, i: nat)
    requires i < |frames|
    ensures frames[..i + 1] == frames[..i] + [frames[i]]
  {
  }

  lemma FreshFrame(frames: seq<nat>, i: nat)
    requires NoDuplicates(frames) && i < |frames|
    ensures frames[i] !in FrameSet(frames[..i])
  {
  }

  lemma {:induction false} BuildDistinct(frames: seq<nat>)
    requires NoDuplicates(frames) && Build(frames).Done?
    ensures Conserved(Build(frames).lists, map[], FrameSet(frames))
  {
    if frames == [] {
      EmptyConserved();
    } else {
      var i := |frames| - 1;
      var front, x := frames[..i], frames[i];
      DistinctFront(frames, i);
      FreshFrame(frames, i);
      assert frames == front + [x];
      BuildSnoc(front, x);
      FrameSetSnoc(front, x);
      BuildDistinct(front);
      BuildOne(Build(front).lists, FrameSet(front), x);
    }
  }

  lemma DistinctFront(frames: seq<nat>, i: nat)
    requires NoDuplicates(frames) && i <= |frames|
    ensures NoDuplicates(frames[..i])
  {
  }

  function FirstFrames(n: nat): seq<nat> {
    seq(n, i => i)
  }

  /** The panic is real: frames 0 to n - 1 can be managed exactly up to n == 2047. */
  lemma FirstFramesPanic(n: nat)
    ensures Build(FirstFrames(n)).Panic? <==> n >= 2048
  {
    var frames := FirstFrames(n);
    BuildConserves(frames);
    assert Pow2(MAX_ORDER) == 2048;
    forall x: nat ensures x in FrameSet(frames) <==> x < n {
      assert x < n ==> frames[x] == x;
    }
    if n >= 2048 {
      assert Aligned(0, MAX_ORDER) && TopRunIn(FrameSet(frames), 0);
    } else {
      forall g: nat | Aligned(g, MAX_ORDER) ensures !TopRunIn(FrameSet(frames), g) {
        assert InBlock(g + 2047, g, MAX_ORDER);
      }
    }
  }

  /** Conservation over every run. */
  lemma {:induction false} ExecConserves(r: Run, calls: seq<Call>, managed: set<nat>)
    requires r.Live? && Conserved(r.lists, r.held, managed)
    ensures var s := Exec(r, calls); s.Live? ==> Conserved(s.lists, s.held, managed)
  {
    if calls != [] {
      var front, c := calls[..|calls| - 1], calls[|calls| - 1];
      ExecConserves(r, front, managed);
      var s := Exec(r, front);
      if s.Live? && Apply(s, c).Live? {
        match c
        case Take(count) =>
          if Allocate(s.lists, OrderOf(count)).Block? {
            AllocateConserves(s.lists, s.held, managed, OrderOf(count));
          }
        case Give(f, count) =>
          FreeConserves(s.lists, s.held, managed, f);
      }
    }
  }

  /** Two histories, from any frames in any order, that leave the same frames free hold the same blocks. */
  lemma {:induction false} HistoryIndependent(fs: seq<nat>, cs: seq<Call>, gs: seq<nat>, ds: seq<Call>)
    requires NoDuplicates(fs) && NoDuplicates(gs) && Build(fs).Done? && Build(gs).Done?
    requires Exec(Live(Build(fs).lists, map[]), cs).Live? && Exec(Live(Build(gs).lists, map[]), ds).Live?
    requires var l := Exec(Live(Build(fs).lists, map[]), cs).lists;
      var m := Exec(Live(Build(gs).lists, map[]), ds).lists;
      forall x :: FreeAt(l, x) <==> FreeAt(m, x)
    ensures var l := Exec(Live(Build(fs).lists, map[]), cs).lists;
      var m := Exec(Live(Build(gs).lists, map[]), ds).lists;
      forall k | 0 <= k < MAX_ORDER :: multiset(l[k]) == multiset(m[k])
  {
    BuildConserves(fs);
    BuildConserves(gs);
    ExecConserves(Live(Build(fs).lists, map[]), cs, FrameSet(fs));
    ExecConserves(Live(Build(gs).lists, map[]), ds, FrameSet(gs));
    Canonical(Exec(Live(Build(fs).lists, map[]), cs).lists, Exec(Live(Build(gs).lists, map[]), ds).lists);
  }

  /** The order in which construction sees the frames leaves no trace, even when some are repeated. */
  lemma {:induction false} BuildOrderIrrelevant(fs: seq<nat>, gs: seq<nat>)
    requires multiset(fs) == multiset(gs)
    ensures Build(fs).Done? <==> Build(gs).Done?
    ensures Build(fs).Done? ==>
      forall k | 0 <= k < MAX_ORDER :: multiset(Build(fs).lists[k]) == multiset(Build(gs).lists[k])
  {
    BuildCounts(fs);
    BuildCounts(gs);
    if Build(fs).Done? {
      forall k | 0 <= k < MAX_ORDER ensures multiset(Build(fs).lists[k]) == multiset(Build(gs).lists[k]) {
        SameCounts(Build(fs).lists[k], Build(gs).lists[k], multiset(fs), k);
      }
    }
  }

  lemma SameCounts(s: seq<nat>, t: seq<nat>, m: multiset<nat>, k: nat)
    requires CountedAt(s, m, k) && CountedAt(t, m, k)
    ensures multiset(s) == multiset(t)
  {
    assert forall f :: multiset(s)[f] == multiset(t)[f];
  }

  /** Every `free` of the run names an outstanding block and its order. */
  predicate Matched(r: Run, calls: seq<Call>) {
    calls == [] ||
    var front, c := calls[..|calls| - 1], calls[|calls| - 1];
    Matched(r, front) && (c.Give? && Exec(r, front).Live? ==> Matches(Exec(r, front), c.frame, c.count))
  }

  predicate Matches(r: Run, f: nat, count: nat) {
    r.Live? && f in r.held && r.held[f] == OrderOf(count)
  }

  /** After construction no matched `free` panics: a run ends exactly when a `free` in it is not matched. */
  lemma {:induction false} MatchedRunsLive(fs: seq<nat>, calls: seq<Call>)
    requires NoDuplicates(fs) && Build(fs).Done?
    ensures Exec(Live(Build(fs).lists, map[]), calls).Live? <==> Matched(Live(Build(fs).lists, map[]), calls)
  {
    var r := Live(Build(fs).lists, map[]);
    if calls != [] {
      var front, c := calls[..|calls| - 1], calls[|calls| - 1];
      MatchedRunsLive(fs, front);
      BuildConserves(fs);
      var s := Exec(r, front);
      if s.Live? && c.Give? && Matches(s, c.frame, c.count) {
        ExecConserves(r, front, FrameSet(fs));
        FreeInRange(s.lists, s.held, FrameSet(fs), c.frame);
      }
    }
  }

  lemma OrderOfOne()
    ensures OrderOf(1) == 0
  {
  }

  /** What construction does with frame i, given what it made of the frames before. */
  lemma BuildNext(frames: seq<nat>, i: nat, l: Lists)
    requires i < |frames| && Build(frames[..i]) == Done(l)
    ensures FrameSet(frames[..i + 1]) == FrameSet(frames[..i]) + {frames[i]}
    ensures Build(frames[..i + 1]) == Free(l, frames[i], 0)
    ensures NoDuplicates(frames) ==> frames[i] !in FrameSet(frames[..i])
  {
    var front, x := frames[..i], frames[i];
    PrefixSnoc(frames, i);
    FrameSetSnoc(front, x);
    BuildSnoc(front, x);
    if NoDuplicates(frames) { FreshFrame(frames, i); }
  }

  /** A panic part of the way is a panic of the whole. */
  lemma {:induction false} BuildStays(frames: seq<nat>, i: nat)
    requires i <= |frames| && Build(frames[..i]).Panic?
    ensures Build(frames).Panic?
    decreases |frames|
  {
    if i < |frames| {
      var front := frames[..|frames| - 1];
      assert front[..i] == frames[..i];
      BuildStays(front, i);
    } else {
      assert frames[..i] == frames;
    }
  }

  // ----- the object

  class BuddyAllocator {
    /** One vector of block starts per order. */
    const freeLists: array<seq<nat>>
    var totalFrames: nat
    ghost var held: Held
    ghost var managed: set<nat>

    ghost predicate Valid()
      reads this, freeLists
    {
      freeLists.Length == MAX_ORDER && Conserved(freeLists[..], held, managed) && totalFrames == |managed|
    }

    constructor ()
      ensures Valid() && fresh(freeLists)
      ensures freeLists[..] == EMPTY_LISTS && held == map[] && managed == {}
    {
      freeLists := new seq<nat>[MAX_ORDER](_ => []);
      totalFrames := 0;
      held, managed := map[], {};
      new;
      assert freeLists[..] == EMPTY_LISTS;
      EmptyConserved();
    }

    /** Construction panics exactly when the frames hold a complete aligned run of 2048. */
    static method NewFromFrames(frames: seq<nat>) returns (allocator: BuddyAllocator, panicked: bool)
      ensures fresh(allocator) && fresh(allocator.freeLists) && allocator.freeLists.Length == MAX_ORDER
      ensures panicked <==> Build(frames).Panic?
      ensures !panicked ==> Build(frames) == Done(allocator.freeLists[..]) && allocator.totalFrames == |frames|
      ensures panicked <==> HasTopRun(FrameSet(frames))
      ensures NoDuplicates(frames) && !panicked ==>
        allocator.Valid() && allocator.held == map[] && allocator.managed == FrameSet(frames)
    {
      allocator := new BuddyAllocator();
      panicked := allocator.IncludeAll(frames);
      BuildConserves(frames);
    }

    /** The construction loop. */
    method IncludeAll(frames: seq<nat>) returns (panicked: bool)
      requires freeLists.Length == MAX_ORDER && freeLists[..] == EMPTY_LISTS
      requires Valid() && held == map[] && managed == {}
      modifies this, freeLists
      ensures panicked <==> Build(frames).Panic?
      ensures !panicked ==> Build(frames) == Done(freeLists[..]) && totalFrames == |frames|
      ensures NoDuplicates(frames) && !panicked ==> Valid() && held == map[] && managed == FrameSet(frames)
    {
      ghost var distinct := NoDuplicates(frames);
      for i := 0 to |frames|
        invariant distinct ==> Valid() && held == map[] && managed == FrameSet(frames[..i])
        invariant totalFrames == i
        invariant Build(frames[..i]) == Done(freeLists[..])
      {
        BuildNext(frames, i, freeLists[..]);
        panicked := Include(frames[i]);
        if panicked {
          BuildStays(frames, i + 1);
          return;
        }
      }
      assert frames[..|frames|] == frames;
      panicked := false;
    }

    /** One round of construction: the frame is counted and freed. */
    method Include(frame: nat) returns (panicked: bool)
      requires freeLists.Length == MAX_ORDER
      modifies this, freeLists
      ensures BuddyOps.Free(old(freeLists[..]), frame, 0)
           == if panicked then Panic(freeLists[..]) else Done(freeLists[..])
      ensures totalFrames == old(totalFrames) + 1
      ensures old(Valid()) && frame !in old(managed) && !panicked ==>
        Valid() && held == old(held) && managed == old(managed) + {frame}
    {
      OrderOfOne();
      Admit(frame);
      panicked := Free(frame, 1);
      assert old(Valid()) && frame !in old(managed) ==> old(held)[frame := 0] - {frame} == old(held);
    }

    /** One more frame, in hand until it is freed. */
    method Admit(frame: nat)
      requires freeLists.Length == MAX_ORDER
      modifies this
      ensures totalFrames == old(totalFrames) + 1
      ensures old(Valid()) && frame !in old(managed) ==>
        Valid() && managed == old(managed) + {frame} && frame !in old(held) && held == old(held)[frame := 0]
    {
      if Valid() && frame !in managed {
        AdmitConserves(freeLists[..], held, managed, frame);
      }
      totalFrames := totalFrames + 1;
      held := held[frame := 0];
      managed := managed + {frame};
    }

    /**
     * Takes one block of the requested order out of the lists, and fails only when there is none.
     * A valid allocator stays valid and hands out a block that nobody holds.
     */
    method Allocate(count: nat) returns (frame: nat, found: bool)
      requires freeLists.Length == MAX_ORDER
      modifies this, freeLists
      ensures BuddyOps.Allocate(old(freeLists[..]), OrderOf(count))
           == if found then Block(frame, freeLists[..]) else NoBlock
      ensures managed == old(managed) && totalFrames == old(totalFrames)
      ensures held == if found then old(held)[frame := OrderOf(count)] else old(held)
      ensures !found ==> freeLists[..] == old(freeLists[..])
      ensures old(Valid()) ==> Valid() && (found ==> frame !in old(held))
    {
      var order := TrailingZeros(NextPowerOfTwo(count));
      if Valid() && BuddyOps.Allocate(freeLists[..], order).Block? {
        AllocateConserves(freeLists[..], held, managed, order);
      }
      frame, found := FindAndSplit(order);
      if found {
        held := held[frame := order];
      }
    }

    /** The search loop of `allocate`, with pop and split at the first list that is not empty. */
    method FindAndSplit(order: nat) returns (frame: nat, found: bool)
      requires freeLists.Length == MAX_ORDER
      modifies freeLists
      ensures BuddyOps.Allocate(old(freeLists[..]), order) == if found then Block(frame, freeLists[..]) else NoBlock
      ensures !found ==> freeLists[..] == old(freeLists[..])
    {
      ghost var l := freeLists[..];
      var o := order;
      while o < MAX_ORDER
        invariant order <= o && (order <= MAX_ORDER ==> o <= MAX_ORDER)
        invariant freeLists[..] == l
        invariant order < MAX_ORDER ==> FirstNonEmpty(l, order) == FirstNonEmpty(l, o)
      {
        if freeLists[o] != [] {
          frame := freeLists[o][|freeLists[o]| - 1];
          freeLists[o] := freeLists[o][..|freeLists[o]| - 1];
          assert freeLists[..] == Popped(l, o);
          SplitDown(frame, order, o);
          return frame, true;
        }
        o := o + 1;
      }
      return 0, false;
    }

    /** The split loop of `allocate`. */
    method SplitDown(frame: nat, order: nat, o: nat)
      requires freeLists.Length == MAX_ORDER && order <= o < MAX_ORDER
      modifies freeLists
      ensures freeLists[..] == Split(old(freeLists[..]), frame, order, o)
    {
      for s := o downto order
        invariant Split(freeLists[..], frame, order, s) == Split(old(freeLists[..]), frame, order, o)
      {
        var buddy := frame + Pow2(s);
        ghost var before := freeLists[..];
        freeLists[s] := freeLists[s] + [buddy];
        assert freeLists[..] == Pushed(before, s, buddy);
      }
    }

    /**
     * Gives a block back and merges it upwards; `panicked` is the index out of range at the last push.
     * What the lists become holds for any block; a valid allocator stays valid when the block matches.
     */
    method Free(frame: nat, count: nat) returns (panicked: bool)
      requires freeLists.Length == MAX_ORDER
      modifies this, freeLists
      ensures BuddyOps.Free(old(freeLists[..]), frame, OrderOf(count))
           == if panicked then Panic(freeLists[..]) else Done(freeLists[..])
      ensures managed == old(managed) && totalFrames == old(totalFrames)
      ensures old(Outstanding(frame, count)) ==>
        && (panicked <==> CompletesTopRun(old(freeLists[..]), frame, OrderOf(count)))
        && (!panicked ==> Valid() && held == old(held) - {frame})
    {
      ghost var matched := Outstanding(frame, count);
      if matched {
        FreeKeeps(freeLists[..], frame, OrderOf(count));
        if BuddyOps.Free(freeLists[..], frame, OrderOf(count)).Done? {
          FreeConserves(freeLists[..], held, managed, frame);
        }
      }
      panicked := MergeUp(frame, TrailingZeros(NextPowerOfTwo(count)));
      held := held - {frame};
    }

    /** The merge loop of `free` and its final push. */
    method MergeUp(frame: nat, order: nat) returns (panicked: bool)
      requires freeLists.Length == MAX_ORDER
      modifies freeLists
      ensures BuddyOps.Free(old(freeLists[..]), frame, order)
           == if panicked then Panic(freeLists[..]) else Done(freeLists[..])
    {
      ghost var l := freeLists[..];
      var current, currentOrder := frame, order;
      while currentOrder < MAX_ORDER
        invariant Merge(freeLists[..], current, currentOrder) == Merge(l, frame, order)
      {
        var buddy := Xor(current, Pow2(currentOrder));
        if buddy !in freeLists[currentOrder] { break; }
        ghost var before := freeLists[..];
        var pos := Position(freeLists[currentOrder], buddy);
        freeLists[currentOrder] := RemoveAt(freeLists[currentOrder], pos);
        assert freeLists[..] == Removed(before, currentOrder, buddy);
        current := Min(current, buddy);
        currentOrder := currentOrder + 1;
      }
      if currentOrder >= MAX_ORDER {
        return true;
      }
      ghost var merged := freeLists[..];
      freeLists[currentOrder] := freeLists[currentOrder] + [current];
      assert freeLists[..] == Pushed(merged, currentOrder, current);
      return false;
    }

    /** The block is handed out, with the order of `count`. */
    ghost predicate Outstanding(frame: nat, count: nat)
      reads this, freeLists
    {
      Valid() && frame in held && held[frame] == OrderOf(count)
    }
  }

  /** `allocate` then `free` puts the object back exactly, so the same request finds the same frame. */
  method AllocateFreeAllocate(a: BuddyAllocator, count: nat) returns (first: nat, second: nat, found: bool)
    requires a.Valid()
    modifies a, a.freeLists
    ensures found <==> BuddyOps.Allocate(old(a.freeLists[..]), OrderOf(count)).Block?
    ensures found ==> first == second
    ensures a.Valid()
  {
    first, found := a.Allocate(count);
    second := first;
    if found {
      ExactUndo(old(a.freeLists[..]), OrderOf(count));
      var panicked := a.Free(first, count);
      assert a.freeLists[..] == old(a.freeLists[..]);
      second, found := a.Allocate(count);
    }
  }
}
