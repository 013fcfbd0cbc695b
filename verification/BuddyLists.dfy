/** The free lists element by element: which entries `allocate` and `free` touch, and where. */
module BuddyLists {
  import opened Bits
  import opened Blocks
  import opened FreeLists
  import opened BuddyOps

  // ----- allocate

  lemma {:induction false} SplitList(l: Lists, f: nat, order: nat, o: nat, j: nat)
    requires order <= o <= MAX_ORDER && j < MAX_ORDER
    ensures Split(l, f, order, o)[j] == if order <= j < o then l[j] + [f + Pow2(j)] else l[j]
    decreases o
  {
    if order < o {
      SplitList(Pushed(l, o - 1, f + Pow2(o - 1)), f, order, o - 1, j);
    }
  }

  /**
   * The block was the newest of the list of order o, the first that holds any, and its upper halves are left behind.
   */
  ghost predicate ListAfter(s: seq<nat>, t: seq<nat>, order: nat, frame: nat, o: nat, j: nat) {
    if j == o then s != [] && frame == s[|s| - 1] && t == s[..|s| - 1]
    else if order <= j < o then s == [] && t == [frame + Pow2(j)]
    else t == s
  }

  ghost predicate TakenFrom(l: Lists, order: nat, frame: nat, r: Lists, o: nat) {
    order <= o < 11 && forall j :: 0 <= j < 11 ==> ListAfter(l[j], r[j], order, frame, o, j)
  }

  lemma {:induction false} AllocateList(l: Lists, order: nat, j: nat)
    requires Allocate(l, order).Block? && j < 11
    ensures var r := Allocate(l, order);
      ListAfter(l[j], r.lists[j], order, r.frame, FirstNonEmpty(l, order), j)
  {
    var o := FirstNonEmpty(l, order);
    SplitList(Popped(l, o), l[o][|l[o]| - 1], order, o, j);
  }

  /** What `allocate` returns and leaves, list by list; it fails when all lists from the order on are empty. */
  lemma AllocateShape(l: Lists, order: nat)
    ensures var r := Allocate(l, order);
      if r.Block? then exists o :: TakenFrom(l, order, r.frame, r.lists, o)
      else forall j :: order <= j < 11 ==> l[j] == []
  {
    var r := Allocate(l, order);
    if r.Block? {
      forall j | 0 <= j < 11
        ensures ListAfter(l[j], r.lists[j], order, r.frame, FirstNonEmpty(l, order), j)
      {
        AllocateList(l, order, j);
      }
      assert TakenFrom(l, order, r.frame, r.lists, FirstNonEmpty(l, order));
    }
  }

  // ----- free

  /** The buddy of the block of order j around x is taken out of the list, and the rest stays in order. */
  ghost predicate BuddyGone(s: seq<nat>, t: seq<nat>, x: nat, j: nat) {
    exists i, b :: 0 <= i < |s| && Aligned(b, j) && InBlock(x, b, j) && s[i] == Buddy(b, j) && t == s[..i] + s[i + 1..]
  }

  lemma {:induction false} MergeShape(l: Lists, f: nat, k: nat, x: nat)
    requires k <= MAX_ORDER && Aligned(f, k) && InBlock(x, f, k)
    ensures var (m, g, o) := Merge(l, f, k);
      && k <= o <= MAX_ORDER && Aligned(g, o) && InBlock(x, g, o) && (o < MAX_ORDER ==> Buddy(g, o) !in l[o])
      && (forall j :: k <= j < o ==> BuddyGone(l[j], m[j], x, j))
      && (forall j :: 0 <= j < MAX_ORDER && (j < k || j >= o) ==> m[j] == l[j])
    decreases MAX_ORDER - k
  {
    if k < MAX_ORDER && Buddy(f, k) in l[k] {
      MergeStep(l, f, k, x);
      MergeShape(Removed(l, k, Buddy(f, k)), Min(f, Buddy(f, k)), k + 1, x);
    }
  }

  /** One round: the buddy leaves its list, and the block around x is twice the size. */
  lemma MergeStep(l: Lists, f: nat, k: nat, x: nat)
    requires k < MAX_ORDER && Aligned(f, k) && InBlock(x, f, k) && Buddy(f, k) in l[k]
    ensures Aligned(Min(f, Buddy(f, k)), k + 1) && InBlock(x, Min(f, Buddy(f, k)), k + 1)
    ensures BuddyGone(l[k], Removed(l, k, Buddy(f, k))[k], x, k)
    ensures forall j :: 0 <= j < MAX_ORDER && j != k ==> Removed(l, k, Buddy(f, k))[j] == l[j]
  {
    BuddyPair(f, k);
    var i := Position(l[k], Buddy(f, k));
    assert Removed(l, k, Buddy(f, k))[k] == l[k][..i] + l[k][i + 1..];
  }

  /** The block given back has grown to order o around its frame, and stands at the end of its list. */
  ghost predicate GivenBack(l: Lists, f: nat, k: nat, r: Lists, o: nat) {
    && k <= o < 11
    && (exists g :: Aligned(g, o) && InBlock(f, g, o) && Buddy(g, o) !in l[o] && r[o] == l[o] + [g])
    && (forall j :: k <= j < o ==> BuddyGone(l[j], r[j], f, j))
    && (forall j :: 0 <= j < 11 && (j < k || j > o) ==> r[j] == l[j])
  }

  /** What `free` leaves, list by list, for any lists and any aligned block. */
  lemma FreeShape(l: Lists, f: nat, k: nat)
    requires k < MAX_ORDER && Aligned(f, k)
    ensures var r := Free(l, f, k);
      if r.Done? then exists o :: GivenBack(l, f, k, r.lists, o)
      else forall j :: k <= j < 11 ==> BuddyGone(l[j], r.lists[j], f, j)
  {
    assert InBlock(f, f, k);
    MergeShape(l, f, k, f);
    var (m, g, o) := Merge(l, f, k);
    if o < MAX_ORDER {
      assert GivenBack(l, f, k, Pushed(m, o, g), o);
    }
  }
}
