/** Ordered sets of strings as strictly increasing sequences, in lexicographic order. */
module SortedNames {

  predicate Less(a: string, b: string) {
    if b == [] then false
    else if a == [] then true
    else a[0] < b[0] || (a[0] == b[0] && Less(a[1..], b[1..]))
  }

  /** Two texts agree up to i, where the first ends or has the smaller character. */
  predicate SmallerAt(a: string, b: string, i: nat) {
    i <= |a| && i < |b| && a[..i] == b[..i] && (i == |a| || a[i] < b[i])
  }

  lemma {:induction false} LessSays(a: string, b: string) returns (i: nat)
    requires Less(a, b)
    ensures SmallerAt(a, b, i)
  {
    if a == [] || a[0] < b[0] {
      i := 0;
    } else {
      i := LessSays(a[1..], b[1..]);
      i := i + 1;
      assert a[..i] == [a[0]] + a[1..][..i - 1] && b[..i] == [b[0]] + b[1..][..i - 1];
    }
  }

  lemma {:induction false} SmallerIsLess(a: string, b: string, i: nat)
    requires SmallerAt(a, b, i)
    ensures Less(a, b)
    decreases i
  {
    if i > 0 {
      assert a[0] == a[..i][0] && b[0] == b[..i][0];
      assert a[1..][..i - 1] == a[..i][1..] && b[1..][..i - 1] == b[..i][1..];
      SmallerIsLess(a[1..], b[1..], i - 1);
    }
  }

  /** The order is that of the dictionary: a proper prefix first, or the smaller first different character. */
  lemma {:induction false} LessIff(a: string, b: string)
    ensures Less(a, b) <==> exists i :: SmallerAt(a, b, i)
  {
    if Less(a, b) { var i := LessSays(a, b); }
    forall i | SmallerAt(a, b, i) ensures Less(a, b) {
      SmallerIsLess(a, b, i);
    }
  }

  lemma {:induction false} LessTransitive(a: string, b: string, c: string)
    requires Less(a, b) && Less(b, c)
    ensures Less(a, c)
  {
    if a != [] && a[0] == b[0] == c[0] {
      LessTransitive(a[1..], b[1..], c[1..]);
    }
  }

  lemma {:induction false} LessTotal(a: string, b: string)
    ensures Less(a, b) || Less(b, a) || a == b
    ensures !(Less(a, b) && Less(b, a)) && !Less(a, a)
  {
    if a != [] {
      LessTotal(a[1..], a[1..]);
      if b != [] && a[0] == b[0] {
        LessTotal(a[1..], b[1..]);
        assert a == [a[0]] + a[1..] && b == [b[0]] + b[1..];
      }
    }
  }

  predicate Sorted(s: seq<string>) {
    forall i, j :: 0 <= i < j < |s| ==> Less(s[i], s[j])
  }

  /** Ordered insertion without duplicates. */
  function Insert(s: seq<string>, x: string): seq<string> {
    if s == [] then [x]
    else if x == s[0] then s
    else if Less(x, s[0]) then [x] + s
    else [s[0]] + Insert(s[1..], x)
  }

  lemma {:induction false} InsertElements(s: seq<string>, x: string)
    ensures forall y :: y in Insert(s, x) <==> y in s || y == x
  {
    if s != [] && x != s[0] && !Less(x, s[0]) {
      InsertElements(s[1..], x);
      assert s == [s[0]] + s[1..];
    }
  }

  lemma {:induction false} InsertSorted(s: seq<string>, x: string)
    requires Sorted(s)
    ensures Sorted(Insert(s, x))
  {
    if s != [] {
      LessTotal(x, s[0]);
      if Less(x, s[0]) {
        forall j | 0 <= j < |s| ensures Less(x, s[j]) {
          if j > 0 { LessTransitive(x, s[0], s[j]); }
        }
      } else if x != s[0] {
        InsertSorted(s[1..], x);
        InsertElements(s[1..], x);
        var r := Insert(s[1..], x);
        forall j | 0 <= j < |r| ensures Less(s[0], r[j]) {
          assert r[j] in r;
        }
      }
    }
  }

  /** A sorted sequence is determined by its elements. */
  lemma SortedUnique(s: seq<string>, t: seq<string>)
    requires Sorted(s) && Sorted(t) && forall x :: x in s <==> x in t
    ensures s == t
  {
    assert s != [] ==> s[0] in s;
    assert t != [] ==> t[0] in t;
    if s != [] {
      var i :| 0 <= i < |t| && t[i] == s[0];
      var j :| 0 <= j < |s| && s[j] == t[0];
      if i > 0 && j > 0 { LessTotal(s[0], t[0]); }
      LessTotal(s[0], s[0]);
      forall x ensures x in s[1..] <==> x in t[1..] {
        if x in s[1..] { LessTotal(x, s[0]); assert x in s; }
        if x in t[1..] { LessTotal(x, t[0]); assert x in t; }
      }
      SortedUnique(s[1..], t[1..]);
    }
  }
}
