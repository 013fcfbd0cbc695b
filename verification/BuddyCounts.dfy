/** The free lists after construction, counted: what they hold for any frames, repeated ones included. */
module BuddyCounts {
  import opened Bits
  import opened Blocks
  import opened FreeLists
  import opened BuddyOps

  /** How many times all frames of a block are there: the merges have made that many blocks of it. */
  function Arrivals(m: multiset<nat>, k: nat, f: nat): nat {
    if k == 0 then m[f] else Min(Arrivals(m, k - 1, f), Arrivals(m, k - 1, f + Pow2(k - 1)))
  }

  /** Those that found no buddy. */
  function Surplus(m: multiset<nat>, k: nat, f: nat): nat {
    var a, b := Arrivals(m, k, f), Arrivals(m, k, Buddy(f, k));
    if a > b then a - b else 0
  }

  /** The list of order k holds the blocks left over. */
  ghost predicate CountedAt(list: seq<nat>, m: multiset<nat>, k: nat) {
    forall f :: multiset(list)[f] == if Aligned(f, k) then Surplus(m, k, f) else 0
  }

  ghost predicate SameAt(m: multiset<nat>, n: multiset<nat>, k: nat) {
    forall f :: Aligned(f, k) ==> Arrivals(m, k, f) == Arrivals(n, k, f)
  }

  // ----- arrivals

  /** A new frame makes no difference to a block that it is not in. */
  lemma {:induction false} ArrivalsElsewhere(m: multiset<nat>, x: nat, k: nat, f: nat)
    requires !InBlock(x, f, k)
    ensures Arrivals(m + multiset{x}, k, f) == Arrivals(m, k, f)
  {
    if k > 0 {
      ArrivalsElsewhere(m, x, k - 1, f);
      ArrivalsElsewhere(m, x, k - 1, f + Pow2(k - 1));
    }
  }

  lemma {:induction false} ArrivalsGrow(m: multiset<nat>, n: multiset<nat>, k: nat, f: nat)
    requires m <= n
    ensures Arrivals(m, k, f) <= Arrivals(n, k, f)
  {
    if k > 0 {
      ArrivalsGrow(m, n, k - 1, f);
      ArrivalsGrow(m, n, k - 1, f + Pow2(k - 1));
    }
  }

  lemma {:induction false} ArrivalsPositive(m: multiset<nat>, k: nat, f: nat)
    ensures Arrivals(m, k, f) > 0 <==> forall x :: InBlock(x, f, k) ==> x in m
  {
    if k == 0 {
      assert InBlock(f, f, 0);
    } else {
      var g := f + Pow2(k - 1);
      ArrivalsPositive(m, k - 1, f);
      ArrivalsPositive(m, k - 1, g);
      assert forall x :: InBlock(x, f, k) <==> InBlock(x, f, k - 1) || InBlock(x, g, k - 1);
    }
  }

  lemma ArrivalsPair(m: multiset<nat>, k: nat, f: nat)
    requires Aligned(f, k)
    ensures Arrivals(m, k + 1, Min(f, Buddy(f, k))) == Min(Arrivals(m, k, f), Arrivals(m, k, Buddy(f, k)))
  {
    BuddyPair(f, k);
  }

  lemma {:induction false} SameUp(m: multiset<nat>, n: multiset<nat>, k: nat, j: nat)
    requires SameAt(m, n, k) && k <= j
    ensures SameAt(m, n, j)
    decreases j - k
  {
    if k < j {
      var next := k + 1;
      forall f | Aligned(f, next) ensures Arrivals(m, next, f) == Arrivals(n, next, f) {
        AlignedDown(f, next, k);
        AlignedNext(f, k);
      }
      SameUp(m, n, k + 1, j);
    }
  }

  lemma SameCounted(list: seq<nat>, m: multiset<nat>, n: multiset<nat>, k: nat)
    requires SameAt(m, n, k) && CountedAt(list, m, k)
    ensures CountedAt(list, n, k)
  {
    forall f | Aligned(f, k) ensures Surplus(m, k, f) == Surplus(n, k, f) {
      BuddyPair(f, k);
    }
  }

  /** Of the aligned blocks of one order, only the one around the new frame has an arrival. */
  lemma {:induction false} OnlyOneArrives(m: multiset<nat>, x: nat, k: nat, g: nat, f: nat)
    requires Aligned(g, k) && InBlock(x, g, k) && Aligned(f, k) && f != g
    ensures Arrivals(m + multiset{x}, k, f) == Arrivals(m, k, f)
  {
    if f < g { AlignedGap(f, g, k); } else { AlignedGap(g, f, k); }
    ArrivalsElsewhere(m, x, k, f);
  }

  // ----- one `free` of a single frame

  /** A block has arrived at g: one more is listed there, or one less at its buddy. */
  lemma {:induction false} SurplusMoves(m: multiset<nat>, x: nat, k: nat, g: nat, f: nat)
    requires Aligned(g, k) && InBlock(x, g, k) && Arrivals(m + multiset{x}, k, g) == Arrivals(m, k, g) + 1
    requires Aligned(f, k)
    ensures var n := m + multiset{x}; var b := Buddy(g, k);
      Surplus(n, k, f) == if f == g && Surplus(m, k, b) == 0 then Surplus(m, k, f) + 1
                          else if f == b && Surplus(m, k, b) > 0 then Surplus(m, k, f) - 1
                          else Surplus(m, k, f)
  {
    var b := Buddy(g, k);
    BuddyPair(g, k);
    BuddyPair(f, k);
    OnlyOneArrives(m, x, k, g, b);
    if f != g { OnlyOneArrives(m, x, k, g, f); }
    if Buddy(f, k) != g { OnlyOneArrives(m, x, k, g, Buddy(f, k)); }
  }

  lemma {:induction false} PushCounted(l: Lists, m: multiset<nat>, x: nat, k: nat, g: nat)
    requires k < MAX_ORDER && Aligned(g, k) && InBlock(x, g, k) && CountedAt(l[k], m, k) && Buddy(g, k) !in l[k]
    requires Arrivals(m + multiset{x}, k, g) == Arrivals(m, k, g) + 1
    ensures CountedAt(Pushed(l, k, g)[k], m + multiset{x}, k)
  {
    BuddyPair(g, k);
    assert multiset(l[k])[Buddy(g, k)] == 0;
    assert multiset(Pushed(l, k, g)[k]) == multiset(l[k]) + multiset{g};
    forall f | Aligned(f, k)
      ensures multiset(Pushed(l, k, g)[k])[f] == Surplus(m + multiset{x}, k, f)
    {
      SurplusMoves(m, x, k, g, f);
    }
  }

  lemma {:induction false} RemoveCounted(l: Lists, m: multiset<nat>, x: nat, k: nat, g: nat)
    requires k < MAX_ORDER && Aligned(g, k) && InBlock(x, g, k) && CountedAt(l[k], m, k) && Buddy(g, k) in l[k]
    requires Arrivals(m + multiset{x}, k, g) == Arrivals(m, k, g) + 1
    ensures CountedAt(Removed(l, k, Buddy(g, k))[k], m + multiset{x}, k)
  {
    var b := Buddy(g, k);
    BuddyPair(g, k);
    assert multiset(l[k])[b] > 0;
    RemoveAtMultiset(l[k], Position(l[k], b));
    assert multiset(l[k]) == multiset(Removed(l, k, b)[k]) + multiset{b};
    forall f | Aligned(f, k)
      ensures multiset(Removed(l, k, b)[k])[f] == Surplus(m + multiset{x}, k, f)
    {
      SurplusMoves(m, x, k, g, f);
    }
  }

  /** Where the arriving block finds no buddy, nothing changes at higher orders. */
  lemma {:induction false} NoFurther(m: multiset<nat>, x: nat, k: nat, g: nat)
    requires Aligned(g, k) && InBlock(x, g, k) && Surplus(m, k, Buddy(g, k)) == 0
    requires Arrivals(m + multiset{x}, k, g) == Arrivals(m, k, g) + 1
    ensures SameAt(m, m + multiset{x}, k + 1)
  {
    var n, b := m + multiset{x}, Buddy(g, k);
    var p := Min(g, b);
    BuddyPair(g, k);
    OnlyOneArrives(m, x, k, g, b);
    ArrivalsPair(m, k, g);
    ArrivalsPair(n, k, g);
    assert Aligned(p, k + 1) && InBlock(x, p, k + 1);
    var next := k + 1;
    forall f | Aligned(f, next) ensures Arrivals(m, next, f) == Arrivals(n, next, f) {
      if f != p { OnlyOneArrives(m, x, next, p, f); }
    }
  }

  /** Where it finds one, a block arrives at the next order. */
  lemma Further(m: multiset<nat>, x: nat, k: nat, g: nat)
    requires Aligned(g, k) && InBlock(x, g, k) && Surplus(m, k, Buddy(g, k)) > 0
    requires Arrivals(m + multiset{x}, k, g) == Arrivals(m, k, g) + 1
    ensures var p := Min(g, Buddy(g, k));
      && Aligned(p, k + 1) && InBlock(x, p, k + 1)
      && Arrivals(m + multiset{x}, k + 1, p) == Arrivals(m, k + 1, p) + 1
  {
    BuddyPair(g, k);
    OnlyOneArrives(m, x, k, g, Buddy(g, k));
    ArrivalsPair(m, k, g);
    ArrivalsPair(m + multiset{x}, k, g);
  }

  /** The orders below k count the new frame, those from k on do not yet. */
  ghost predicate CountedUpTo(l: Lists, m: multiset<nat>, x: nat, k: nat) {
    && (forall j | 0 <= j < k && j < MAX_ORDER :: CountedAt(l[j], m + multiset{x}, j))
    && (forall j | k <= j < MAX_ORDER :: CountedAt(l[j], m, j))
  }

  ghost predicate CountedAll(l: Lists, m: multiset<nat>) {
    forall j | 0 <= j < MAX_ORDER :: CountedAt(l[j], m, j)
  }

  lemma {:induction false} MergeCounts(l: Lists, m: multiset<nat>, x: nat, k: nat, g: nat)
    requires k <= MAX_ORDER && Aligned(g, k) && InBlock(x, g, k) && CountedUpTo(l, m, x, k)
    requires Arrivals(m + multiset{x}, k, g) == Arrivals(m, k, g) + 1
    ensures var (r, h, o) := Merge(l, g, k); var n := m + multiset{x};
      if o < MAX_ORDER then CountedAll(Pushed(r, o, h), n) && SameAt(m, n, MAX_ORDER)
      else Aligned(h, MAX_ORDER) && Arrivals(n, MAX_ORDER, h) > 0 && o == MAX_ORDER
    decreases MAX_ORDER - k
  {
    if k < MAX_ORDER {
      var b := Buddy(g, k);
      BuddyPair(g, k);
      assert b in l[k] <==> multiset(l[k])[b] > 0;
      if b in l[k] {
        RemoveCounted(l, m, x, k, g);
        Further(m, x, k, g);
        RemovedUpTo(l, m, x, k, b);
        MergeCounts(Removed(l, k, b), m, x, k + 1, Min(g, b));
      } else {
        PushCounted(l, m, x, k, g);
        NoFurther(m, x, k, g);
        PushedAll(l, m, x, k, g);
      }
    }
  }

  lemma RemovedUpTo(l: Lists, m: multiset<nat>, x: nat, k: nat, b: nat)
    requires k < MAX_ORDER && CountedUpTo(l, m, x, k) && b in l[k]
    requires CountedAt(Removed(l, k, b)[k], m + multiset{x}, k)
    ensures CountedUpTo(Removed(l, k, b), m, x, k + 1)
  {
    assert forall j | 0 <= j < MAX_ORDER && j != k :: Removed(l, k, b)[j] == l[j];
  }

  lemma PushedAll(l: Lists, m: multiset<nat>, x: nat, k: nat, g: nat)
    requires k < MAX_ORDER && CountedUpTo(l, m, x, k)
    requires CountedAt(Pushed(l, k, g)[k], m + multiset{x}, k) && SameAt(m, m + multiset{x}, k + 1)
    ensures CountedAll(Pushed(l, k, g), m + multiset{x}) && SameAt(m, m + multiset{x}, MAX_ORDER)
  {
    var r, n := Pushed(l, k, g), m + multiset{x};
    forall j | 0 <= j < MAX_ORDER && j != k ensures CountedAt(r[j], n, j) {
      assert r[j] == l[j];
      if j > k {
        SameUp(m, n, k + 1, j);
        SameCounted(l[j], m, n, j);
      }
    }
    SameUp(m, n, k + 1, MAX_ORDER);
  }

  /** Freeing one frame: the lists count it, or some block of 2048 frames is complete. */
  lemma FreeCounts(l: Lists, m: multiset<nat>, x: nat)
    requires CountedAll(l, m)
    ensures var r := Free(l, x, 0); var n := m + multiset{x};
      if r.Done? then CountedAll(r.lists, n) && SameAt(m, n, MAX_ORDER)
      else exists g :: Aligned(g, MAX_ORDER) && Arrivals(n, MAX_ORDER, g) > 0
  {
    assert Aligned(x, 0) && InBlock(x, x, 0);
    MergeCounts(l, m, x, 0, x);
  }
}
