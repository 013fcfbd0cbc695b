/** Path resolution: a stack machine over the segments of a path. */
module Paths {
  import opened Text

  /** A segment that names something. */
  predicate Plain(seg: string) {
    seg != "" && seg != "." && seg != ".." && Without(seg, '/')
  }

  predicate AllPlain(parts: seq<string>) {
    forall i :: 0 <= i < |parts| ==> Plain(parts[i])
  }

  predicate Absolute(path: string) {
    path != [] && path[0] == '/'
  }

  function Step(stack: seq<string>, seg: string): seq<string> {
    if seg == "" || seg == "." then stack
    else if seg == ".." then (if stack == [] then [] else stack[..|stack| - 1])
    else stack + [seg]
  }

  function Fold(segs: seq<string>, stack: seq<string>): seq<string> {
    if segs == [] then stack else Fold(segs[1..], Step(stack, segs[0]))
  }

  /** The parts of a path, dots resolved. */
  function Parts(raw: string): seq<string> {
    Fold(Split(raw, '/'), [])
  }

  function Join(parts: seq<string>): string {
    if parts == [] then "" else Join(parts[..|parts| - 1]) + "/" + parts[|parts| - 1]
  }

  function Render(parts: seq<string>): string {
    if parts == [] then "/" else Join(parts)
  }

  function Raw(cwd: string, path: string): string {
    if Absolute(path) then path else cwd + "/" + path
  }

  function Resolve(cwd: string, path: string): string {
    Render(Parts(Raw(cwd, path)))
  }

  /** The root, or a slash and segments that all name something. */
  predicate Canonical(path: string) {
    path == "/" || (Absolute(path) && AllPlain(Split(path[1..], '/')))
  }

  // ----- the stack machine

  lemma {:induction false} FoldAppend(a: seq<string>, b: seq<string>, stack: seq<string>)
    ensures Fold(a + b, stack) == Fold(b, Fold(a, stack))
    decreases |a|
  {
    if a == [] {
      assert a + b == b;
    } else {
      assert (a + b)[1..] == a[1..] + b;
      FoldAppend(a[1..], b, Step(stack, a[0]));
    }
  }

  lemma {:induction false} FoldPlain(segs: seq<string>, stack: seq<string>)
    requires AllPlain(segs)
    ensures Fold(segs, stack) == stack + segs
    decreases |segs|
  {
    if segs == [] {
      assert stack + segs == stack;
    } else {
      FoldPlain(segs[1..], stack + [segs[0]]);
      assert stack + [segs[0]] + segs[1..] == stack + segs;
    }
  }

  lemma {:induction false} FoldStaysPlain(segs: seq<string>, stack: seq<string>)
    requires AllPlain(stack) && forall i :: 0 <= i < |segs| ==> Without(segs[i], '/')
    ensures AllPlain(Fold(segs, stack))
    decreases |segs|
  {
    if segs != [] {
      FoldStaysPlain(segs[1..], Step(stack, segs[0]));
    }
  }

  lemma {:induction false} SegmentsHaveNoSlash(s: string)
    ensures forall i :: 0 <= i < |Split(s, '/')| ==> Without(Split(s, '/')[i], '/')
    decreases |s|
  {
    var i := IndexOf(s, '/');
    if i < |s| {
      SegmentsHaveNoSlash(s[i + 1..]);
    }
  }

  lemma PartsPlain(raw: string)
    ensures AllPlain(Parts(raw))
  {
    SegmentsHaveNoSlash(raw);
    FoldStaysPlain(Split(raw, '/'), []);
  }

  // ----- rendering and splitting

  lemma {:induction false} SplitPlain(s: string)
    requires Without(s, '/')
    ensures Split(s, '/') == [s]
  {
    IndexOfUnique(s, '/', |s|);
  }

  lemma {:induction false} SplitOfJoin(parts: seq<string>)
    requires AllPlain(parts)
    ensures Split(Join(parts), '/') == [""] + parts
    decreases |parts|
  {
    if parts == [] {
      SplitPlain("");
    } else {
      var front, last := parts[..|parts| - 1], parts[|parts| - 1];
      SplitOfJoin(front);
      SplitPlain(last);
      SplitJoin(Join(front), '/', last);
      assert [""] + front + [last] == [""] + parts;
    }
  }

  /** Reading a rendered path gives its parts back. */
  lemma PartsOfRender(parts: seq<string>)
    requires AllPlain(parts)
    ensures Parts(Render(parts)) == parts
  {
    if parts == [] {
      SplitPlain("");
      SplitJoin("", '/', "");
      assert "" + ['/'] + "" == "/";
      FoldEmpties();
    } else {
      SplitOfJoin(parts);
      FoldAppend([""], parts, []);
      FoldPlain(parts, []);
      assert Fold([""], []) == Fold([""][1..], []) == [];
    }
  }

  lemma FoldEmpties()
    ensures Fold([""] + [""], []) == []
  {
    assert ([""] + [""])[1..] == [""];
    assert Fold([""], []) == Fold([""][1..], []) == [];
  }

  /** Appending a path goes on from the parts so far. */
  lemma {:induction false} PartsOfJoin(a: string, b: string)
    ensures Parts(a + "/" + b) == Fold(Split(b, '/'), Parts(a))
  {
    SplitJoin(a, '/', b);
    FoldAppend(Split(a, '/'), Split(b, '/'), []);
  }

  lemma {:induction false} JoinCanonical(parts: seq<string>)
    requires AllPlain(parts) && parts != []
    ensures Absolute(Join(parts)) && Split(Join(parts)[1..], '/') == parts
  {
    SplitOfJoin(parts);
    var s := Join(parts);
    var i := IndexOf(s, '/');
    assert Split(s, '/')[0] == "";
    if i == |s| {
      assert false;
    }
    assert s[..i] == "";
    assert Split(s, '/') == [s[..i]] + Split(s[i + 1..], '/');
    assert Split(s, '/')[1..] == parts;
  }

  // ----- what `resolve_path` promises

  /** The result is canonical, whatever the inputs. */
  lemma ResolveCanonical(cwd: string, path: string)
    ensures Canonical(Resolve(cwd, path))
  {
    PartsPlain(Raw(cwd, path));
    var parts := Parts(Raw(cwd, path));
    if parts != [] { JoinCanonical(parts); }
  }

  lemma RenderAbsolute(parts: seq<string>)
    requires AllPlain(parts)
    ensures Absolute(Render(parts))
  {
    if parts != [] { JoinCanonical(parts); }
  }

  /** A resolved path resolves to itself, from any working directory. */
  lemma ResolveIdempotent(cwd: string, path: string, other: string)
    ensures Resolve(other, Resolve(cwd, path)) == Resolve(cwd, path)
  {
    var parts := Parts(Raw(cwd, path));
    PartsPlain(Raw(cwd, path));
    RenderAbsolute(parts);
    PartsOfRender(parts);
  }

  /** Every canonical path is its own resolution; so canonical paths are exactly the results. */
  lemma CanonicalFixed(cwd: string, path: string)
    ensures Canonical(path) <==> Resolve(cwd, path) == path
  {
    ResolveCanonical(cwd, path);
    if Canonical(path) && path != "/" {
      var tail := path[1..];
      var segs := Split(tail, '/');
      assert path == "/" + tail;
      LeadingSlash(tail);
      FoldPlain(segs, []);
      assert [] + segs == segs;
      JoinSplit(tail);
    } else if path == "/" {
      PartsOfRender([]);
    }
  }

  /** The slash in front of an absolute path contributes nothing. */
  lemma {:induction false} LeadingSlash(tail: string)
    ensures Parts("/" + tail) == Fold(Split(tail, '/'), [])
  {
    assert "" + ['/'] + tail == "/" + tail;
    SplitJoin("", '/', tail);
    SplitPlain("");
    FoldAppend([""], Split(tail, '/'), []);
    assert Fold([""], []) == Fold([""][1..], []) == [];
  }

  lemma {:induction false} JoinPrepend(x: string, parts: seq<string>)
    ensures Join([x] + parts) == "/" + x + Join(parts)
    decreases |parts|
  {
    var all := [x] + parts;
    if parts == [] {
      assert all[..0] == [];
      assert all[0] == x;
    } else {
      var front := parts[..|parts| - 1];
      assert all[..|all| - 1] == [x] + front;
      JoinPrepend(x, front);
    }
  }

  lemma {:induction false} JoinSplit(s: string)
    ensures Join(Split(s, '/')) == "/" + s
    decreases |s|
  {
    var i := IndexOf(s, '/');
    if i == |s| {
      JoinPrepend(s, []);
      assert [s] + [] == [s];
    } else {
      JoinSplit(s[i + 1..]);
      JoinPrepend(s[..i], Split(s[i + 1..], '/'));
      assert s == s[..i] + "/" + s[i + 1..];
      Associate("/" + s[..i], "/", s[i + 1..]);
      Associate("/", s[..i] + "/", s[i + 1..]);
      Associate("/", s[..i], "/");
    }
  }

  lemma NormJoin(a: string, b: string)
    ensures Parts(Render(Parts(a)) + "/" + b) == Parts(a + "/" + b)
  {
    PartsPlain(a);
    PartsOfJoin(Render(Parts(a)), b);
    PartsOfJoin(a, b);
    PartsOfRender(Parts(a));
  }

  /** Resolving in two steps is resolving the joined path, when the first step is not the empty path. */
  lemma ResolveComposes(cwd: string, a: string, b: string)
    requires a != "" && !Absolute(b)
    ensures Resolve(Resolve(cwd, a), b) == Resolve(cwd, a + "/" + b)
  {
    NormJoin(Raw(cwd, a), b);
    assert Raw(cwd, a + "/" + b) == Raw(cwd, a) + "/" + b by {
      assert (a + "/" + b)[0] == a[0];
      assert cwd + "/" + (a + "/" + b) == cwd + "/" + a + "/" + b;
    }
  }

  lemma {:induction false} FoldBlank(stack: seq<string>)
    ensures Fold(Split("", '/'), stack) == stack
  {
    SplitPlain("");
    assert Fold([""], stack) == Fold([""][1..], stack) == stack;
  }

  /** The empty first step: the two-step resolution goes on from the directory, the joined path from the root. */
  lemma {:induction false} EmptyFirstStep(cwd: string, b: string)
    requires !Absolute(b)
    ensures Resolve(Resolve(cwd, ""), b) == Render(Fold(Split(b, '/'), Parts(cwd)))
    ensures Resolve(cwd, "" + "/" + b) == Render(Fold(Split(b, '/'), []))
  {
    PartsOfJoin(cwd, "");
    FoldBlank(Parts(cwd));
    NormJoin(cwd + "/" + "", b);
    PartsOfJoin(cwd + "/" + "", b);
    PartsOfJoin("", b);
    FoldBlank([]);
    assert Absolute("" + "/" + b);
  }

  /** A canonical directory has no parts exactly when it is the root. */
  lemma OnlyRootEmpty(cwd: string)
    requires Canonical(cwd)
    ensures Parts(cwd) == [] <==> cwd == "/"
  {
    CanonicalFixed("", cwd);
    assert Raw("", cwd) == cwd;
    PartsOfRender([]);
  }

  /**
   * For the empty first step the joined path turns absolute, so the two agree only at the root:
   * in a canonical directory, when that is "/".
   */
  lemma ResolveComposesIff(cwd: string, a: string)
    ensures (forall b :: !Absolute(b) ==> Resolve(Resolve(cwd, a), b) == Resolve(cwd, a + "/" + b))
       <==> a != "" || Parts(cwd) == []
    ensures Canonical(cwd) ==> (Parts(cwd) == [] <==> cwd == "/")
  {
    if Canonical(cwd) { OnlyRootEmpty(cwd); }
    if a != "" {
      forall b | !Absolute(b) ensures Resolve(Resolve(cwd, a), b) == Resolve(cwd, a + "/" + b) {
        ResolveComposes(cwd, a, b);
      }
    } else {
      forall b | !Absolute(b)
        ensures Resolve(Resolve(cwd, ""), b) == Render(Fold(Split(b, '/'), Parts(cwd)))
        ensures Resolve(cwd, "" + "/" + b) == Render(Fold(Split(b, '/'), []))
      {
        EmptyFirstStep(cwd, b);
      }
      FoldBlank(Parts(cwd));
      FoldBlank([]);
      PartsPlain(cwd);
      PartsOfRender(Parts(cwd));
      PartsOfRender([]);
      assert !Absolute("");
    }
  }

  lemma HomeCanonical()
    ensures Canonical("/home/root")
  {
    var parts := ["home", "root"];
    assert parts[..1] == ["home"] && parts[..1][..0] == [];
    assert Join(["home"]) == "" + "/" + "home";
    assert Join(parts) == "/home/root";
    JoinCanonical(parts);
    PartsOfRender(parts);
  }

  /** A name resolved in two steps stays inside the directory; the joined path puts it in the root. */
  lemma NameAfterEmptyStep(cwd: string, b: string)
    requires Canonical(cwd) && cwd != "/" && Plain(b)
    ensures Resolve(Resolve(cwd, ""), b) == cwd + "/" + b
    ensures Resolve(cwd, "" + "/" + b) == Join([]) + "/" + b
    ensures Resolve(Resolve(cwd, ""), b) != Resolve(cwd, "" + "/" + b)
  {
    EmptyFirstStep(cwd, b);
    RenderOneMore(Parts(cwd), b);
    RenderOneMore([], b);
    OnlyRootEmpty(cwd);
    CanonicalFixed("", cwd);
    assert Join(Parts(cwd)) == cwd;
    assert |cwd + "/" + b| > |Join([]) + "/" + b|;
  }

  lemma {:induction false} RenderOneMore(parts: seq<string>, b: string)
    requires Plain(b)
    ensures Render(Fold(Split(b, '/'), parts)) == Join(parts) + "/" + b
  {
    SplitPlain(b);
    var more := parts + [b];
    assert Fold([b], parts) == Fold([b][1..], more) == more;
    assert more[..|more| - 1] == parts;
  }

  /** In the first working directory the two do differ. */
  lemma ResolveNeedNotCompose()
    ensures Resolve(Resolve("/home/root", ""), "x") != Resolve("/home/root", "" + "/" + "x")
  {
    HomeCanonical();
    NameAfterEmptyStep("/home/root", "x");
  }

  // ----- the loop

  method ResolvePath(cwd: string, path: string) returns (r: string)
    ensures r == Resolve(cwd, path)
  {
    var raw := if Absolute(path) then path else cwd + "/" + path;
    var segs := Split(raw, '/');
    var parts: seq<string> := [];
    for i := 0 to |segs|
      invariant Fold(segs[i..], parts) == Parts(raw)
    {
      assert segs[i..][1..] == segs[i + 1..];
      if segs[i] == "" || segs[i] == "." {
      } else if segs[i] == ".." {
        if parts != [] {
          parts := parts[..|parts| - 1];
        }
      } else {
        parts := parts + [segs[i]];
      }
    }
    if parts == [] {
      return "/";
    }
    return Join(parts);
  }
}
