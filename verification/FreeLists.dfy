/** The eleven free lists: their invariant, and what it says about the set of free frames. */
module FreeLists {
  import opened Bits
  import opened Blocks

  const MAX_ORDER: nat := 11

  type Lists = s: seq<seq<nat>> | |s| == MAX_ORDER witness seq(MAX_ORDER, _ => [])

  predicate Holds(l: Lists, k: nat, f: nat) {
    k < MAX_ORDER && f in l[k]
  }

  predicate NoDuplicates(s: seq<nat>) {
    forall i, j :: 0 <= i < j < |s| ==> s[i] != s[j]
  }

  /** Block (f, k) has no frame in common with any free block. */
  ghost predicate ApartFromAll(l: Lists, f: nat, k: nat) {
    forall j, g :: Holds(l, j, g) ==> Apart(g, j, f, k)
  }

  /** Every list holds aligned blocks, blocks never overlap, and no buddy waits beside its twin. */
  ghost predicate Coalesced(l: Lists) {
    && (forall k | 0 <= k < MAX_ORDER :: NoDuplicates(l[k]))
    && (forall k, f :: Holds(l, k, f) ==> Aligned(f, k))
    && (forall j, f, k, g :: Holds(l, j, f) && Holds(l, k, g) && (j != k || f != g) ==> Apart(f, j, g, k))
    && (forall k, f :: Holds(l, k, f) ==> !Holds(l, k, Buddy(f, k)))
  }

  predicate InBlock(x: nat, f: nat, k: nat) {
    f <= x < f + Pow2(k)
  }

  /** Frame x lies in some free block. */
  ghost predicate FreeAt(l: Lists, x: nat) {
    exists k, f :: Holds(l, k, f) && InBlock(x, f, k)
  }

  /** All 2^k frames from f on are free. */
  ghost predicate RunFree(l: Lists, f: nat, k: nat) {
    forall x :: InBlock(x, f, k) ==> FreeAt(l, x)
  }

  // ----- adding and removing one block

  function RemoveAt(s: seq<nat>, i: nat): seq<nat>
    requires i < |s|
  {
    s[..i] + s[i + 1..]
  }

  function Position(s: seq<nat>, f: nat): (i: nat)
    requires f in s
    ensures i < |s| && s[i] == f && f !in s[..i]
  {
    if s[0] == f then 0 else 1 + Position(s[1..], f)
  }

  function Removed(l: Lists, k: nat, f: nat): Lists
    requires Holds(l, k, f)
  {
    l[k := RemoveAt(l[k], Position(l[k], f))]
  }

  function Pushed(l: Lists, k: nat, f: nat): Lists
    requires k < MAX_ORDER
  {
    l[k := l[k] + [f]]
  }

  lemma RemoveAtElements(s: seq<nat>, i: nat)
    requires NoDuplicates(s) && i < |s|
    ensures NoDuplicates(RemoveAt(s, i))
    ensures forall f :: f in RemoveAt(s, i) <==> f in s && f != s[i]
  {
    var r := RemoveAt(s, i);
    forall f | f in s && f != s[i] ensures f in r {
      var j :| 0 <= j < |s| && s[j] == f;
      assert r[if j < i then j else j - 1] == f;
    }
  }

  /** Taking out one block leaves the rest in order, apart from it, and frees nothing else. */
  lemma RemoveBlock(l: Lists, k: nat, f: nat)
    requires Coalesced(l) && Holds(l, k, f)
    ensures var r := Removed(l, k, f);
      && Coalesced(r) && ApartFromAll(r, f, k)
      && (forall j, g :: Holds(r, j, g) <==> Holds(l, j, g) && (j != k || g != f))
      && (forall x :: FreeAt(l, x) <==> FreeAt(r, x) || InBlock(x, f, k))
  {
    var r := Removed(l, k, f);
    RemoveAtElements(l[k], Position(l[k], f));
    assert forall j, g :: Holds(r, j, g) <==> Holds(l, j, g) && (j != k || g != f);
    forall x ensures FreeAt(l, x) <==> FreeAt(r, x) || InBlock(x, f, k) {
      if FreeAt(l, x) {
        var j, g :| Holds(l, j, g) && InBlock(x, g, j);
        assert Holds(r, j, g) || (j == k && g == f);
      }
    }
  }

  /** A block with no buddy to wait for may join the lists. */
  lemma PushBlock(l: Lists, k: nat, f: nat)
    requires Coalesced(l) && k < MAX_ORDER && Aligned(f, k)
    requires ApartFromAll(l, f, k) && !Holds(l, k, Buddy(f, k))
    ensures var r := Pushed(l, k, f);
      && Coalesced(r)
      && (forall j, g :: Holds(r, j, g) <==> Holds(l, j, g) || (j == k && g == f))
      && (forall x :: FreeAt(r, x) <==> FreeAt(l, x) || InBlock(x, f, k))
  {
    var r := Pushed(l, k, f);
    assert forall j, g :: Holds(r, j, g) <==> Holds(l, j, g) || (j == k && g == f);
    assert !Holds(l, k, f);
    forall g | Holds(r, k, g) ensures !Holds(r, k, Buddy(g, k)) {
      BuddyPair(g, k);
    }
    forall x ensures FreeAt(r, x) <==> FreeAt(l, x) || InBlock(x, f, k) {
      if FreeAt(r, x) {
        var j, g :| Holds(r, j, g) && InBlock(x, g, j);
        assert Holds(l, j, g) || (j == k && g == f);
      }
      if FreeAt(l, x) {
        var j, g :| Holds(l, j, g) && InBlock(x, g, j);
        assert Holds(r, j, g);
      }
      assert Holds(r, k, f);
    }
  }

  // ----- coalesced lists are determined by the free frames

  /** The two halves of an aligned block are never both listed. */
  lemma {:induction false} NotTwins(l: Lists, f: nat, k: nat)
    requires Coalesced(l) && Aligned(f, k + 1)
    ensures !(Holds(l, k, f) && Holds(l, k, f + Pow2(k)))
  {
    AlignedDown(f, k + 1, k);
    BuddyPair(f, k);
  }

  /** A free aligned run lies inside one free block, although its frames were freed one by one. */
  lemma RunInOneBlock(l: Lists, f: nat, k: nat) returns (o: nat, b: nat)
    requires Coalesced(l) && Aligned(f, k) && RunFree(l, f, k) && k <= MAX_ORDER
    ensures k <= o && Holds(l, o, b) && Within(f, k, b, o)
    decreases k
  {
    if k == 0 {
      assert InBlock(f, f, 0);
      o, b :| Holds(l, o, b) && InBlock(f, b, o);
    } else {
      var g := f + Pow2(k - 1);
      AlignedDown(f, k, k - 1);
      BuddyPair(f, k - 1);
      assert forall x :: InBlock(x, f, k - 1) || InBlock(x, g, k - 1) ==> InBlock(x, f, k);
      o, b := RunInOneBlock(l, f, k - 1);
      var p, c := RunInOneBlock(l, g, k - 1);
      if o < k {
        NotTwins(l, f, k - 1);
        assert !(o == k - 1 && p == k - 1);
        o, b := p, c;
      }
      Laminar(f, k, b, o);
    }
  }

  lemma PartOfBlock(l: Lists, o: nat, b: nat, f: nat, k: nat)
    requires Holds(l, o, b) && Within(f, k, b, o)
    ensures RunFree(l, f, k)
  {
    assert forall x :: InBlock(x, f, k) ==> InBlock(x, b, o);
  }

  /** The aligned block of twice the size around an aligned block. */
  function Parent(f: nat, k: nat): nat {
    if Aligned(f, k + 1) then f else Buddy(f, k)
  }

  /** A block is listed exactly when it is a largest free aligned run. */
  lemma ListedIffMaximal(l: Lists, k: nat, f: nat)
    requires Coalesced(l) && k < MAX_ORDER
    ensures Holds(l, k, f) <==> Aligned(f, k) && RunFree(l, f, k) && !RunFree(l, Parent(f, k), k + 1)
  {
    if Aligned(f, k) {
      BuddyPair(f, k);
      var g := Parent(f, k);
      assert Within(f, k, g, k + 1) && Aligned(g, k + 1);
      if Holds(l, k, f) {
        assert forall x :: InBlock(x, f, k) ==> FreeAt(l, x);
        if RunFree(l, g, k + 1) {
          var o, b := RunInOneBlock(l, g, k + 1);
          assert false;
        }
      } else if RunFree(l, f, k) {
        var o, b := RunInOneBlock(l, f, k);
        Laminar(g, k + 1, b, o);
        PartOfBlock(l, o, b, g, k + 1);
      }
    }
  }

  lemma RemoveAtMultiset(s: seq<nat>, i: nat)
    requires i < |s|
    ensures multiset(s) == multiset(RemoveAt(s, i)) + multiset{s[i]}
  {
    assert s == s[..i] + [s[i]] + s[i + 1..];
  }

  lemma SameElements(s: seq<nat>, t: seq<nat>)
    requires NoDuplicates(s) && NoDuplicates(t) && forall f :: f in s <==> f in t
    ensures multiset(s) == multiset(t)
  {
    assert t != [] ==> t[0] in t;
    if s != [] {
      var i := Position(t, s[0]);
      RemoveAtElements(s, 0);
      RemoveAtElements(t, i);
      SameElements(RemoveAt(s, 0), RemoveAt(t, i));
      RemoveAtMultiset(s, 0);
      RemoveAtMultiset(t, i);
    }
  }

  /** Canonical form: lists with the same free frames hold the same blocks in every order. */
  lemma Canonical(l: Lists, m: Lists)
    requires Coalesced(l) && Coalesced(m)
    requires forall x :: FreeAt(l, x) <==> FreeAt(m, x)
    ensures forall k | 0 <= k < MAX_ORDER :: multiset(l[k]) == multiset(m[k])
  {
    forall k | 0 <= k < MAX_ORDER ensures multiset(l[k]) == multiset(m[k]) {
      forall f ensures f in l[k] <==> f in m[k] {
        ListedIffMaximal(l, k, f);
        ListedIffMaximal(m, k, f);
        assert RunFree(l, f, k) <==> RunFree(m, f, k);
        assert RunFree(l, Parent(f, k), k + 1) <==> RunFree(m, Parent(f, k), k + 1);
        assert Holds(l, k, f) <==> Holds(m, k, f);
      }
      SameElements(l[k], m[k]);
    }
  }

  /** No coalesced state has a free aligned run of 2048 frames. */
  lemma NoTopRun(l: Lists, f: nat)
    requires Coalesced(l) && Aligned(f, MAX_ORDER)
    ensures !RunFree(l, f, MAX_ORDER)
  {
    if RunFree(l, f, MAX_ORDER) {
      var o, b := RunInOneBlock(l, f, MAX_ORDER);
      assert false;
    }
  }
}
