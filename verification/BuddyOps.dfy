/** What `allocate` and `free` do to the free lists, and what they keep. */
module BuddyOps {
  import opened Bits
  import opened Blocks
  import opened FreeLists

  // ----- the order of a request

  /** The least p * 2^i at or above n. */
  function NextPowerFrom(n: nat, p: nat): (r: nat)
    requires p >= 1
    ensures r >= 1 && r >= n
    decreases if p < n then n - p else 0
  {
    if n <= p then p else NextPowerFrom(n, 2 * p)
  }

  function NextPowerOfTwo(n: nat): (r: nat)
    ensures r >= 1
  {
    NextPowerFrom(n, 1)
  }

  function TrailingZeros(n: nat): nat
    requires n >= 1
  {
    if n % 2 == 1 then 0 else 1 + TrailingZeros(n / 2)
  }

  function OrderOf(count: nat): nat {
    TrailingZeros(NextPowerOfTwo(count))
  }

  lemma {:induction false} TrailingZerosPow2(k: nat)
    ensures TrailingZeros(Pow2(k)) == k
  {
    if k > 0 { TrailingZerosPow2(k - 1); }
  }

  lemma NextPowerFromOrder(n: nat, k: nat) returns (o: nat)
    requires k == 0 || Pow2(k - 1) < n
    ensures NextPowerFrom(n, Pow2(k)) == Pow2(o) >= n && o >= k
    ensures o == 0 || Pow2(o - 1) < n
    decreases if Pow2(k) < n then n - Pow2(k) else 0
  {
    if n <= Pow2(k) {
      o := k;
    } else {
      o := NextPowerFromOrder(n, k + 1);
    }
  }

  /** The order is the least one whose blocks hold `count` frames; lists exist for it up to 1024. */
  lemma OrderOfLeast(count: nat)
    ensures Pow2(OrderOf(count)) >= count
    ensures OrderOf(count) > 0 ==> Pow2(OrderOf(count) - 1) < count
    ensures OrderOf(count) < MAX_ORDER <==> count <= 1024
  {
    var o := NextPowerFromOrder(count, 0);
    TrailingZerosPow2(o);
    assert Pow2(10) == 1024;
    if o <= 10 { Pow2Monotone(o, 10); } else { Pow2Monotone(10, o - 1); }
  }

  const WORD: nat := 0x1_0000_0000_0000_0000

  /** The order as 64-bit arithmetic has it: the power wraps to 0 above 2^63, and 0 has 64 trailing zeros. */
  function MachineOrder(count: nat): nat {
    var p := NextPowerOfTwo(count) % WORD;
    if p == 0 then 64 else TrailingZeros(p)
  }

  lemma WordIsPower()
    ensures Pow2(64) == WORD
  {
    assert Pow2(8) == 0x100 && Pow2(16) == 0x1_0000 && Pow2(24) == 0x100_0000 && Pow2(32) == 0x1_0000_0000;
    assert Pow2(40) == 0x100_0000_0000 && Pow2(48) == 0x1_0000_0000_0000;
    assert Pow2(56) == 0x100_0000_0000_0000;
  }

  /** For every 64-bit count the wrapped order is the order. */
  lemma MachineOrderExact(count: nat)
    requires count < WORD
    ensures MachineOrder(count) == OrderOf(count)
  {
    var o := NextPowerFromOrder(count, 0);
    TrailingZerosPow2(o);
    PowerInWord(o, count);
  }

  /** A power of two that a 64-bit count needs is below 2^64 or just 2^64. */
  lemma PowerInWord(o: nat, count: nat)
    requires count < WORD && (o == 0 || Pow2(o - 1) < count)
    ensures o <= 64 && (o < 64 ==> Pow2(o) < WORD) && (o == 64 ==> Pow2(o) == WORD)
  {
    WordIsPower();
    if o > 64 {
      Pow2Monotone(64, o - 1);
    } else {
      Pow2Monotone(o, 64);
    }
  }

  // ----- free: merge upwards, then push

  function Min(a: nat, b: nat): nat {
    if a <= b then a else b
  }

  /** The merge loop: the lists left, and the block to push with its order. */
  function Merge(l: Lists, f: nat, k: nat): (Lists, nat, nat)
    decreases MAX_ORDER - k
  {
    if k >= MAX_ORDER || Buddy(f, k) !in l[k] then (l, f, k)
    else Merge(Removed(l, k, Buddy(f, k)), Min(f, Buddy(f, k)), k + 1)
  }

  datatype FreeResult = Done(lists: Lists) | Panic(lists: Lists)

  /** `free`: the final push indexes the lists out of range when the merge went past the last one. */
  function Free(l: Lists, f: nat, order: nat): FreeResult {
    var (m, g, k) := Merge(l, f, order);
    if k < MAX_ORDER then Done(Pushed(m, k, g)) else Panic(m)
  }

  lemma ApartFromMerged(l: Lists, f: nat, k: nat)
    requires Coalesced(l) && k < MAX_ORDER && Aligned(f, k) && ApartFromAll(l, f, k)
    requires Holds(l, k, Buddy(f, k))
    ensures var b := Buddy(f, k); var r := Removed(l, k, b); var g := Min(f, b);
      && Coalesced(r) && Aligned(g, k + 1) && ApartFromAll(r, g, k + 1)
      && (forall x :: FreeAt(l, x) || InBlock(x, f, k) <==> FreeAt(r, x) || InBlock(x, g, k + 1))
  {
    var b := Buddy(f, k);
    var g := Min(f, b);
    var r := Removed(l, k, b);
    RemoveBlock(l, k, b);
    BuddyPair(f, k);
    forall j: nat, h: nat | Holds(r, j, h) ensures Apart(h, j, g, k + 1) {
      assert Holds(l, j, h);
      assert Apart(h, j, b, k) && Apart(h, j, f, k);
      if j > k + 1 { Laminar(g, k + 1, h, j); } else { Laminar(h, j, g, k + 1); }
      if !Apart(h, j, g, k + 1) {
        if j <= k {
          Laminar(h, j, f, k);
          Laminar(h, j, b, k);
        }
        assert false;
      }
    }
    assert forall x :: InBlock(x, g, k + 1) <==> InBlock(x, f, k) || InBlock(x, b, k);
  }

  /** Merging keeps the lists coalesced and moves frames between lists and block, losing none. */
  lemma {:induction false} MergeKeeps(l: Lists, f: nat, k: nat)
    requires Coalesced(l) && k <= MAX_ORDER && Aligned(f, k) && ApartFromAll(l, f, k)
    ensures var (m, g, o) := Merge(l, f, k);
      && Coalesced(m) && k <= o <= MAX_ORDER && Aligned(g, o) && ApartFromAll(m, g, o)
      && !Holds(m, o, Buddy(g, o)) && Within(f, k, g, o)
      && (forall x :: FreeAt(l, x) || InBlock(x, f, k) <==> FreeAt(m, x) || InBlock(x, g, o))
    decreases MAX_ORDER - k
  {
    if k < MAX_ORDER && Buddy(f, k) in l[k] {
      ApartFromMerged(l, f, k);
      BuddyPair(f, k);
      MergeKeeps(Removed(l, k, Buddy(f, k)), Min(f, Buddy(f, k)), k + 1);
    }
  }

  /** The freed block makes some aligned run of 2048 frames entirely free. */
  ghost predicate CompletesTopRun(l: Lists, f: nat, k: nat) {
    exists g :: Aligned(g, MAX_ORDER) && TopRunWith(l, g, f, k)
  }

  ghost predicate TopRunWith(l: Lists, g: nat, f: nat, k: nat) {
    forall x :: InBlock(x, g, MAX_ORDER) ==> FreeAt(l, x) || InBlock(x, f, k)
  }

  /** A merged block that finds a list: after the push no aligned run of 2048 is free. */
  lemma PushKeeps(l: Lists, f: nat, k: nat, m: Lists, g: nat, o: nat)
    requires Coalesced(m) && o < MAX_ORDER && Aligned(g, o) && ApartFromAll(m, g, o) && !Holds(m, o, Buddy(g, o))
    requires forall x :: FreeAt(l, x) || InBlock(x, f, k) <==> FreeAt(m, x) || InBlock(x, g, o)
    ensures var r := Pushed(m, o, g);
      Coalesced(r) && forall x :: FreeAt(r, x) <==> FreeAt(l, x) || InBlock(x, f, k)
    ensures !CompletesTopRun(l, f, k)
  {
    PushBlock(m, o, g);
    var r := Pushed(m, o, g);
    forall h | Aligned(h, MAX_ORDER) ensures !TopRunWith(l, h, f, k) {
      NoTopRun(r, h);
    }
  }

  /** `free` keeps the lists coalesced and frees exactly its block; it panics exactly on a full run of 2048. */
  lemma {:induction false} FreeKeeps(l: Lists, f: nat, k: nat)
    requires Coalesced(l) && k < MAX_ORDER && Aligned(f, k) && ApartFromAll(l, f, k)
    ensures var r := Free(l, f, k);
      && (r.Panic? <==> CompletesTopRun(l, f, k))
      && (r.Done? ==> Coalesced(r.lists))
      && (r.Done? ==> forall x :: FreeAt(r.lists, x) <==> FreeAt(l, x) || InBlock(x, f, k))
  {
    MergeKeeps(l, f, k);
    var (m, g, o) := Merge(l, f, k);
    if o < MAX_ORDER {
      PushKeeps(l, f, k, m, g, o);
    } else {
      assert TopRunWith(l, g, f, k);
    }
  }

  // ----- allocate: find a list, pop, split downwards

  /** The first non-empty list from `o` on, or MAX_ORDER. */
  function FirstNonEmpty(l: Lists, o: nat): (r: nat)
    requires o <= MAX_ORDER
    ensures o <= r <= MAX_ORDER
    ensures r < MAX_ORDER ==> l[r] != []
    ensures forall j :: o <= j < r ==> l[j] == []
    decreases MAX_ORDER - o
  {
    if o == MAX_ORDER || l[o] != [] then o else FirstNonEmpty(l, o + 1)
  }

  /** The split loop: halve a block of order o at f down to `order`, pushing each upper half. */
  function Split(l: Lists, f: nat, order: nat, o: nat): Lists
    requires o <= MAX_ORDER
    decreases o
  {
    if o <= order then l else Split(Pushed(l, o - 1, f + Pow2(o - 1)), f, order, o - 1)
  }

  datatype AllocResult = Block(frame: nat, lists: Lists) | NoBlock

  function Popped(l: Lists, o: nat): Lists
    requires o < MAX_ORDER && l[o] != []
  {
    l[o := l[o][..|l[o]| - 1]]
  }

  function Allocate(l: Lists, order: nat): AllocResult {
    if order >= MAX_ORDER then NoBlock
    else
      var o := FirstNonEmpty(l, order);
      if o == MAX_ORDER then NoBlock
      else Block(l[o][|l[o]| - 1], Split(Popped(l, o), l[o][|l[o]| - 1], order, o))
  }

  lemma {:induction false} PositionUnique(s: seq<nat>, i: nat)
    requires NoDuplicates(s) && i < |s|
    ensures Position(s, s[i]) == i
  {
    var p := Position(s, s[i]);
    assert s[p] == s[i];
  }

  lemma PopIsRemove(l: Lists, o: nat)
    requires Coalesced(l) && o < MAX_ORDER && l[o] != []
    ensures Popped(l, o) == Removed(l, o, l[o][|l[o]| - 1])
  {
    var s := l[o];
    PositionUnique(s, |s| - 1);
    assert RemoveAt(s, |s| - 1) == s[..|s| - 1];
  }

  /** One split: the upper half joins the lists, the lower half stays in hand. */
  lemma SplitOnce(l: Lists, f: nat, k: nat)
    requires Coalesced(l) && k < MAX_ORDER && Aligned(f, k + 1) && ApartFromAll(l, f, k + 1)
    ensures var h := f + Pow2(k); var r := Pushed(l, k, h);
      && Coalesced(r) && Aligned(f, k) && ApartFromAll(r, f, k)
      && (forall x :: FreeAt(l, x) || InBlock(x, f, k + 1) <==> FreeAt(r, x) || InBlock(x, f, k))
  {
    var h := f + Pow2(k);
    AlignedDown(f, k + 1, k);
    BuddyPair(f, k);
    BuddyPair(h, k);
    assert !Holds(l, k, f);
    PushBlock(l, k, h);
  }

  /** Splitting a block in hand keeps the lists coalesced and keeps every frame. */
  lemma {:induction false} SplitKeeps(l: Lists, f: nat, order: nat, o: nat)
    requires Coalesced(l) && order <= o <= MAX_ORDER && Aligned(f, o) && ApartFromAll(l, f, o)
    ensures var r := Split(l, f, order, o);
      && Coalesced(r) && Aligned(f, order) && ApartFromAll(r, f, order)
      && (forall x :: FreeAt(l, x) || InBlock(x, f, o) <==> FreeAt(r, x) || InBlock(x, f, order))
    decreases o
  {
    if order < o {
      SplitOnce(l, f, o - 1);
      SplitKeeps(Pushed(l, o - 1, f + Pow2(o - 1)), f, order, o - 1);
    }
  }

  /** A successful `allocate` takes one free aligned run out of the free frames and nothing else. */
  lemma AllocateKeeps(l: Lists, order: nat)
    requires Coalesced(l) && Allocate(l, order).Block?
    ensures var r := Allocate(l, order);
      && Coalesced(r.lists) && Aligned(r.frame, order) && order < MAX_ORDER
      && ApartFromAll(r.lists, r.frame, order)
      && (forall x :: FreeAt(l, x) <==> FreeAt(r.lists, x) || InBlock(x, r.frame, order))
  {
    var o := FirstNonEmpty(l, order);
    var f := l[o][|l[o]| - 1];
    assert Holds(l, o, f);
    PopIsRemove(l, o);
    RemoveBlock(l, o, f);
    SplitKeeps(Popped(l, o), f, order, o);
  }

  /** Completeness: `allocate` fails exactly when no aligned run of that order is entirely free. */
  lemma AllocateComplete(l: Lists, order: nat)
    requires Coalesced(l) && order < MAX_ORDER
    ensures Allocate(l, order).NoBlock? <==> forall f :: Aligned(f, order) ==> !RunFree(l, f, order)
  {
    if Allocate(l, order).NoBlock? {
      forall f | Aligned(f, order) ensures !RunFree(l, f, order) {
        if RunFree(l, f, order) {
          var o, b := RunInOneBlock(l, f, order);
          assert false;
        }
      }
    } else {
      AllocateKeeps(l, order);
      var f := Allocate(l, order).frame;
      assert RunFree(l, f, order);
    }
  }

  // ----- exact undo

  lemma MergeUndoesPush(l: Lists, f: nat, k: nat)
    requires k < MAX_ORDER && Aligned(f, k + 1) && l[k] == []
    ensures Merge(Pushed(l, k, f + Pow2(k)), f, k) == Merge(l, f, k + 1)
  {
    var h := f + Pow2(k);
    var m := Pushed(l, k, h);
    AlignedDown(f, k + 1, k);
    BuddyPair(f, k);
    assert m[k] == [h];
    assert RemoveAt(m[k], 0) == [];
    assert Removed(m, k, h) == l;
  }

  /** The merge loop climbs back through everything the split loop pushed. */
  lemma {:induction false} MergeUndoesSplit(l: Lists, f: nat, order: nat, o: nat)
    requires order <= o <= MAX_ORDER && Aligned(f, o)
    requires forall j :: order <= j < o ==> l[j] == []
    ensures Merge(Split(l, f, order, o), f, order) == Merge(l, f, o)
    decreases o
  {
    if order < o {
      var m := Pushed(l, o - 1, f + Pow2(o - 1));
      assert Split(l, f, order, o) == Split(m, f, order, o - 1);
      assert Merge(m, f, o - 1) == Merge(l, f, o) by { MergeUndoesPush(l, f, o - 1); }
      assert Merge(Split(m, f, order, o - 1), f, order) == Merge(m, f, o - 1) by {
        AlignedDown(f, o, o - 1);
        assert forall j :: order <= j < o - 1 ==> m[j] == l[j];
        MergeUndoesSplit(m, f, order, o - 1);
      }
    }
  }

  /** `allocate` then `free` of the same block restores every list, element for element. */
  lemma ExactUndo(l: Lists, order: nat)
    requires Coalesced(l) && Allocate(l, order).Block?
    ensures var r := Allocate(l, order); Free(r.lists, r.frame, order) == Done(l)
  {
    var o := FirstNonEmpty(l, order);
    var f := l[o][|l[o]| - 1];
    assert Holds(l, o, f);
    PopIsRemove(l, o);
    RemoveBlock(l, o, f);
    MergeUndoesSplit(Popped(l, o), f, order, o);
    assert !Holds(l, o, Buddy(f, o));
    assert l[o][..|l[o]| - 1] + [f] == l[o];
    assert Pushed(Popped(l, o), o, f) == l;
  }
}
