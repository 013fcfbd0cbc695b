/** Conservation: free blocks and handed-out blocks together are exactly the managed frames. */
module BuddyLedger {
  import opened Bits
  import opened Blocks
  import opened FreeLists
  import opened BuddyOps

  /** Blocks handed out and not yet freed: start frame to order. */
  type Held = map<nat, nat>

  ghost predicate HeldAt(held: Held, x: nat) {
    exists f :: f in held && InBlock(x, f, held[f])
  }

  /** Handed-out blocks are aligned, and overlap neither free blocks nor one another. */
  ghost predicate Separate(l: Lists, held: Held) {
    && (forall f :: f in held ==> held[f] < MAX_ORDER && Aligned(f, held[f]) && ApartFromAll(l, f, held[f]))
    && (forall f, g :: f in held && g in held && f != g ==> Apart(f, held[f], g, held[g]))
  }

  /** Free and handed-out blocks together cover exactly the managed frames. */
  ghost predicate Covers(l: Lists, held: Held, managed: set<nat>) {
    forall x: nat :: x in managed <==> FreeAt(l, x) || HeldAt(held, x)
  }

  ghost predicate Conserved(l: Lists, held: Held, managed: set<nat>) {
    && Coalesced(l) && Separate(l, held) && Covers(l, held, managed)
    && FreeSize(l, |l|) + HeldSize(held) == |managed|
  }

  // ----- sizes

  /** Frames in the first k lists, block by block. */
  function FreeSize(l: seq<seq<nat>>, k: nat): nat
    requires k <= |l|
  {
    if k == 0 then 0 else FreeSize(l, k - 1) + |l[k - 1]| * Pow2(k - 1)
  }

  ghost function HeldSize(held: Held): nat {
    if held == map[] then 0
    else var f :| f in held; Pow2(held[f]) + HeldSize(held - {f})
  }

  lemma {:induction false} HeldSizeRemove(held: Held, f: nat)
    requires f in held
    ensures HeldSize(held) == Pow2(held[f]) + HeldSize(held - {f})
    decreases |held|
  {
    var g :| g in held && HeldSize(held) == Pow2(held[g]) + HeldSize(held - {g});
    if g != f {
      HeldSizeRemove(held - {g}, f);
      HeldSizeRemove(held - {f}, g);
      assert held - {g} - {f} == held - {f} - {g};
    }
  }

  lemma HeldSizeAdd(held: Held, f: nat, k: nat)
    requires f !in held
    ensures HeldSize(held[f := k]) == Pow2(k) + HeldSize(held)
  {
    HeldSizeRemove(held[f := k], f);
    assert held[f := k] - {f} == held;
  }

  lemma FreeSizeUpdate(l: seq<seq<nat>>, i: nat, s: seq<nat>, k: nat)
    requires i < |l| && k <= |l|
    ensures FreeSize(l[i := s], k) + (if i < k then |l[i]| * Pow2(i) else 0)
         == FreeSize(l, k) + (if i < k then |s| * Pow2(i) else 0)
  {
    if k > 0 {
      FreeSizeUpdate(l, i, s, k - 1);
    }
  }

  lemma {:induction false} PushedSize(l: Lists, k: nat, f: nat)
    requires k < MAX_ORDER
    ensures FreeSize(Pushed(l, k, f), |l|) == FreeSize(l, |l|) + Pow2(k)
  {
    FreeSizeUpdate(l, k, l[k] + [f], |l|);
    MulSucc(Pow2(k), |l[k]|);
  }

  lemma {:induction false} RemovedSize(l: Lists, k: nat, f: nat)
    requires Holds(l, k, f)
    ensures FreeSize(Removed(l, k, f), |l|) == FreeSize(l, |l|) - Pow2(k)
  {
    var s := RemoveAt(l[k], Position(l[k], f));
    FreeSizeUpdate(l, k, s, |l|);
    MulSucc(Pow2(k), |s|);
  }

  lemma {:induction false} MergeSize(l: Lists, f: nat, k: nat)
    requires k <= MAX_ORDER
    ensures var (m, g, o) := Merge(l, f, k); FreeSize(m, |l|) + Pow2(o) == FreeSize(l, |l|) + Pow2(k)
    decreases MAX_ORDER - k
  {
    if k < MAX_ORDER && Buddy(f, k) in l[k] {
      RemovedSize(l, k, Buddy(f, k));
      MergeSize(Removed(l, k, Buddy(f, k)), Min(f, Buddy(f, k)), k + 1);
    }
  }

  lemma {:induction false} FreeOpSize(l: Lists, f: nat, k: nat)
    requires k < MAX_ORDER && Free(l, f, k).Done?
    ensures FreeSize(Free(l, f, k).lists, |l|) == FreeSize(l, |l|) + Pow2(k)
  {
    MergeSize(l, f, k);
    var (m, g, o) := Merge(l, f, k);
    PushedSize(m, o, g);
  }

  lemma {:induction false} EmptySize(l: seq<seq<nat>>, k: nat)
    requires k <= |l| && forall j :: 0 <= j < |l| ==> l[j] == []
    ensures FreeSize(l, k) == 0
  {
    if k > 0 { EmptySize(l, k - 1); }
  }

  // ----- what each operation keeps

  lemma HeldAtAdd(held: Held, f: nat, k: nat, x: nat)
    requires f !in held
    ensures HeldAt(held[f := k], x) <==> HeldAt(held, x) || InBlock(x, f, k)
  {
    var now := held[f := k];
    assert f in now;
    if HeldAt(held, x) {
      var g :| g in held && InBlock(x, g, held[g]);
      assert g in now && now[g] == held[g];
    }
  }

  lemma BlockTouch(f: nat, j: nat, g: nat, k: nat) returns (x: nat)
    requires !Apart(f, j, g, k)
    ensures InBlock(x, f, j) && InBlock(x, g, k)
  {
    x := if f <= g then g else f;
  }

  /** No frame is both free and handed out. */
  lemma NotBoth(l: Lists, held: Held, x: nat)
    requires Separate(l, held)
    ensures !(FreeAt(l, x) && HeldAt(held, x))
  {
  }

  lemma ApartFromFrames(l: Lists, f: nat, k: nat)
    requires forall x :: InBlock(x, f, k) ==> !FreeAt(l, x)
    ensures ApartFromAll(l, f, k)
  {
    forall j: nat, h: nat | Holds(l, j, h) ensures Apart(h, j, f, k) {
      if !Apart(h, j, f, k) {
        var x := BlockTouch(h, j, f, k);
        assert false;
      }
    }
  }

  /** Handing out a block none of whose frames is handed out or still free. */
  lemma HandOut(l: Lists, m: Lists, held: Held, f: nat, k: nat)
    requires Separate(l, held) && k < MAX_ORDER && Aligned(f, k) && ApartFromAll(m, f, k)
    requires forall x :: FreeAt(m, x) ==> FreeAt(l, x)
    requires forall x :: InBlock(x, f, k) ==> !HeldAt(held, x)
    ensures f !in held && Separate(m, held[f := k])
  {
    assert InBlock(f, f, k);
    if f in held {
      assert InBlock(f, f, held[f]);
    }
    forall g | g in held ensures ApartFromAll(m, g, held[g]) && Apart(f, k, g, held[g]) {
      forall x | InBlock(x, g, held[g]) ensures !FreeAt(m, x) {
        NotBoth(l, held, x);
      }
      ApartFromFrames(m, g, held[g]);
      if !Apart(f, k, g, held[g]) {
        var x := BlockTouch(f, k, g, held[g]);
        assert false;
      }
    }
  }

  /** A new frame enters the books as a single handed-out frame, about to be freed. */
  lemma AdmitConserves(l: Lists, held: Held, managed: set<nat>, x: nat)
    requires Conserved(l, held, managed) && x !in managed
    ensures x !in held && Conserved(l, held[x := 0], managed + {x})
  {
    assert forall y :: InBlock(y, x, 0) ==> y == x;
    ApartFromFrames(l, x, 0);
    HandOut(l, l, held, x, 0);
    forall y: nat ensures y in managed + {x} <==> FreeAt(l, y) || HeldAt(held[x := 0], y) {
      HeldAtAdd(held, x, 0, y);
    }
    HeldSizeAdd(held, x, 0);
  }

  /** `allocate` moves one block from the lists to the books. */
  lemma AllocateConserves(l: Lists, held: Held, managed: set<nat>, order: nat)
    requires Conserved(l, held, managed) && Allocate(l, order).Block?
    ensures var r := Allocate(l, order);
      r.frame !in held && Conserved(r.lists, held[r.frame := order], managed)
  {
    AllocateKeeps(l, order);
    var r := Allocate(l, order);
    forall x | InBlock(x, r.frame, order) ensures !HeldAt(held, x) {
      NotBoth(l, held, x);
    }
    HandOut(l, r.lists, held, r.frame, order);
    forall x: nat ensures x in managed <==> FreeAt(r.lists, x) || HeldAt(held[r.frame := order], x) {
      HeldAtAdd(held, r.frame, order, x);
    }
    HeldSizeAdd(held, r.frame, order);
    ExactUndo(l, order);
    FreeOpSize(r.lists, r.frame, order);
  }

  /** A matching `free` moves the block back. */
  lemma FreeConserves(l: Lists, held: Held, managed: set<nat>, f: nat)
    requires Conserved(l, held, managed) && f in held && Free(l, f, held[f]).Done?
    ensures Conserved(Free(l, f, held[f]).lists, held - {f}, managed)
  {
    var k := held[f];
    var m := Free(l, f, k).lists;
    var rest := held - {f};
    FreeKeeps(l, f, k);
    forall g | g in rest ensures ApartFromAll(m, g, held[g]) {
      forall x | InBlock(x, g, held[g]) ensures !FreeAt(m, x) {
        NotBoth(l, held, x);
        assert Apart(f, k, g, held[g]);
      }
      ApartFromFrames(m, g, held[g]);
    }
    assert held == rest[f := k];
    forall x: nat ensures x in managed <==> FreeAt(m, x) || HeldAt(rest, x) {
      HeldAtAdd(rest, f, k, x);
    }
    HeldSizeRemove(held, f);
    FreeOpSize(l, f, k);
  }

  /** A frame set with an entirely present aligned run of 2048. */
  ghost predicate HasTopRun(managed: set<nat>) {
    exists g :: Aligned(g, MAX_ORDER) && TopRunIn(managed, g)
  }

  ghost predicate TopRunIn(managed: set<nat>, g: nat) {
    forall x :: InBlock(x, g, MAX_ORDER) ==> x in managed
  }

  /** With no aligned run of 2048 among the managed frames, no matching `free` leaves the lists. */
  lemma FreeInRange(l: Lists, held: Held, managed: set<nat>, f: nat)
    requires Conserved(l, held, managed) && f in held && !HasTopRun(managed)
    ensures Free(l, f, held[f]).Done?
  {
    FreeKeeps(l, f, held[f]);
    forall g | Aligned(g, MAX_ORDER) ensures !TopRunWith(l, g, f, held[f]) {
      assert !TopRunIn(managed, g);
      var x :| InBlock(x, g, MAX_ORDER) && x !in managed;
      assert !FreeAt(l, x) && !HeldAt(held, x);
    }
  }
}
