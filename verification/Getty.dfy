/** The `cd` and `mkdir` commands: a working directory over the shared filesystem. */
module Getty {
  import opened Text
  import opened Paths
  import opened Overlay

  /** The directory that holds the last part of a path. */
  function Parent(parts: seq<string>): string
    requires parts != []
  {
    Render(parts[..|parts| - 1])
  }

  function Marker(path: string): string {
    TrimSlashes(path) + "/.keep"
  }

  lemma RenderTrimmed(parts: seq<string>)
    requires AllPlain(parts) && parts != []
    ensures TrimSlashes(Render(parts)) == Render(parts) && Render(parts) != "/"
    ensures Inside(Parent(parts)) + parts[|parts| - 1] == Render(parts)
  {
    var front, last := parts[..|parts| - 1], parts[|parts| - 1];
    assert Render(parts) == Join(front) + "/" + last;
    var p := Render(parts);
    assert p[|p| - 1] == last[|last| - 1];
    assert |p| > 1;
    if front != [] {
      RenderTrimmed(front);
    } else {
      assert Join(front) + "/" == "/";
    }
  }

  /** With its marker stored, a path is a directory, and its parent lists it unless it is hidden. */
  lemma MarkedIsDir(paths: set<string>, parts: seq<string>)
    requires AllPlain(parts) && Marker(Render(parts)) in paths
    ensures IsDir(paths, Render(parts))
    ensures parts != [] && Visible(parts[|parts| - 1]) ==>
      Belongs(paths, Parent(parts), parts[|parts| - 1] + "/")
  {
    var p := Render(parts);
    var k := Marker(p);
    assert k == TrimSlashes(p) + "/" + ".keep";
    assert StartsWith(k, TrimSlashes(p) + "/");
    if parts != [] {
      RenderTrimmed(parts);
      var last := parts[|parts| - 1];
      var entry := last + "/";
      assert entry[..|entry| - 1] == last && entry[|last|] == '/';
    }
  }

  /** The marker does not show in the directory it marks: whatever was listed there is listed afterwards. */
  lemma MarkerHidden(paths: set<string>, dir: string, e: string)
    ensures Belongs(paths + {Marker(dir)}, dir, e) <==> Belongs(paths, dir, e)
  {
    MarkerInside(dir);
    if Visible(e) { MarkerBelowNone(paths, dir, e); }
    if e != "" && Visible(e[..|e| - 1]) { MarkerBelowNone(paths, dir, e[..|e| - 1]); }
  }

  lemma MarkerInside(dir: string)
    ensures Marker(dir) == Inside(dir) + ".keep"
  {
    if dir == "/" { assert TrimSlashes(dir) == ""; }
    assert TrimSlashes(dir) + "/.keep" == TrimSlashes(dir) + "/" + ".keep";
  }

  lemma MarkerBelowNone(paths: set<string>, dir: string, name: string)
    requires Visible(name)
    ensures IsDir(paths + {Marker(dir)}, Inside(dir) + name) <==> IsDir(paths, Inside(dir) + name)
    ensures Inside(dir) + name != Marker(dir)
  {
    MarkerInside(dir);
    InsideChild(dir, name);
    var p, k := Inside(dir) + name, Marker(dir);
    assert p[|Inside(dir)|] == name[0] && k[|Inside(dir)|] == '.';
    NotPrefix(k, p + "/", |Inside(dir)|);
  }

  /** A directory below which nothing is stored has an empty listing once it is made. */
  lemma FreshIsEmpty(paths: set<string>, dir: string)
    requires forall k :: k in paths ==> !StartsWith(k, Inside(dir))
    ensures IsListing(paths + {Marker(dir)}, dir, [])
  {
    forall e ensures !Belongs(paths + {Marker(dir)}, dir, e) {
      MarkerHidden(paths, dir, e);
      if Belongs(paths, dir, e) { BelongsIsBelow(paths, dir, e); }
    }
  }

  lemma BelongsIsBelow(paths: set<string>, dir: string, e: string)
    requires Belongs(paths, dir, e)
    ensures exists k :: k in paths && StartsWith(k, Inside(dir))
  {
    if ShownDir(paths, dir, e) {
      var name := e[..|e| - 1];
      InsideChild(dir, name);
      var k :| k in paths && StartsWith(k, Inside(dir) + name + "/");
      assert Inside(dir) + name + "/" == Inside(dir) + (name + "/");
      assert k[..|Inside(dir)|] == (Inside(dir) + name + "/")[..|Inside(dir)|] == Inside(dir);
      assert StartsWith(k, Inside(dir));
    } else {
      assert StartsWith(Inside(dir) + e, Inside(dir));
    }
  }

  class Getty {
    var cwd: string

    ghost predicate Valid()
      reads this
    {
      Canonical(cwd)
    }

    constructor ()
      ensures Valid() && cwd == "/home/root"
    {
      cwd := "/home/root";
      new;
      HomeCanonical();
    }

    /** The working directory moves only to a directory, and stays canonical. */
    method Cd(path: string, fs: OverlayMount)
      requires Valid()
      modifies this
      ensures Valid()
      ensures cwd == if IsDir(fs.Contents().Keys, Resolve(old(cwd), path)) then Resolve(old(cwd), path) else old(cwd)
    {
      ResolveCanonical(cwd, path);
      var target := ResolvePath(cwd, path);
      var exists_ := fs.IsDirectory(target);
      if exists_ {
        cwd := target;
      }
    }

    /** Stores one hidden marker file; after that `cd` to the same path succeeds. */
    method Mkdir(path: string, fs: OverlayMount)
      requires Valid()
      modifies fs
      ensures fs.Contents() == old(fs.Contents())[Marker(Resolve(cwd, path)) := []]
      ensures IsDir(fs.Contents().Keys, Resolve(cwd, path))
    {
      var p := ResolvePath(cwd, path);
      var keep := TrimSlashes(p) + "/.keep";
      fs.Write(keep, []);
      PartsPlain(Raw(cwd, path));
      MarkedIsDir(fs.Contents().Keys, Parts(Raw(cwd, path)));
    }
  }

  /** `mkdir p` then `cd p` ends in p, and unless p is the root or hidden, listing its parent shows it. */
  method MkdirThenCd(shell: Getty, fs: OverlayMount, path: string) returns (entries: seq<string>)
    requires shell.Valid()
    modifies shell, fs
    ensures shell.Valid() && shell.cwd == old(Resolve(shell.cwd, path))
    ensures var parts := old(Parts(Raw(shell.cwd, path)));
      parts != [] && Visible(parts[|parts| - 1]) ==> parts[|parts| - 1] + "/" in entries
  {
    ghost var parts := Parts(Raw(shell.cwd, path));
    PartsPlain(Raw(shell.cwd, path));
    shell.Mkdir(path, fs);
    shell.Cd(path, fs);
    MarkedIsDir(fs.Contents().Keys, parts);
    var parent := ResolvePath(shell.cwd, "..");
    if parts != [] {
      ParentResolves(parts);
    }
    entries := fs.List(parent);
  }

  /** A new directory below which nothing was stored lists nothing. */
  method MkdirThenList(shell: Getty, fs: OverlayMount, path: string) returns (entries: seq<string>)
    requires shell.Valid()
    modifies fs
    ensures (forall k :: k in old(fs.Contents()) ==> !StartsWith(k, Inside(Resolve(shell.cwd, path)))) ==> entries == []
  {
    var dir := ResolvePath(shell.cwd, path);
    ghost var paths := fs.Contents().Keys;
    shell.Mkdir(path, fs);
    assert fs.Contents().Keys == paths + {Marker(dir)};
    entries := fs.List(dir);
    if forall k :: k in paths ==> !StartsWith(k, Inside(dir)) {
      FreshIsEmpty(paths, dir);
      ListingUnique(fs.Contents().Keys, dir, entries, []);
    }
  }

  /** From a directory, ".." resolves to its parent. */
  lemma ParentResolves(parts: seq<string>)
    requires AllPlain(parts) && parts != []
    ensures Resolve(Render(parts), "..") == Parent(parts)
  {
    PartsOfJoin(Render(parts), "..");
    PartsOfRender(parts);
    SplitPlain("..");
    assert Fold([".."], parts) == Fold([".."][1..], Step(parts, "..")) == parts[..|parts| - 1];
  }
}
