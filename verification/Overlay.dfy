/** The overlay filesystem: read-only layers under one writable layer, as one map of flat paths. */
module Overlay {
  import opened Optional
  import opened Bytes
  import opened Text
  import opened Paths
  import opened SortedNames

  type Files = map<string, seq<byte>>

  datatype FsError = NotFound | PermissionDenied

  datatype Result<+T> = Ok(value: T) | Err(error: FsError)

  // ----- layers as one map

  /** Lower layers merged, later ones on top. */
  function Merge(lower: seq<Files>): Files {
    if lower == [] then map[] else Merge(lower[..|lower| - 1]) + lower[|lower| - 1]
  }

  function View(lower: seq<Files>, upper: Files): Files {
    Merge(lower) + upper
  }

  /** A change of the top layer is a change of the view. */
  lemma ViewUpdate(lower: seq<Files>, upper: Files, path: string, data: seq<byte>)
    ensures View(lower, upper[path := data]) == View(lower, upper)[path := data]
  {
  }

  /** Top to bottom, the first layer that has the path. */
  function ReadLower(lower: seq<Files>, path: string): Result<seq<byte>> {
    if lower == [] then Err(NotFound)
    else if path in lower[|lower| - 1] then Ok(lower[|lower| - 1][path])
    else ReadLower(lower[..|lower| - 1], path)
  }

  lemma {:induction false} ReadLowerIsMerge(lower: seq<Files>, path: string)
    ensures ReadLower(lower, path) == if path in Merge(lower) then Ok(Merge(lower)[path]) else Err(NotFound)
  {
    if lower != [] { ReadLowerIsMerge(lower[..|lower| - 1], path); }
  }

  lemma {:induction false} MergeKeys(lower: seq<Files>, path: string)
    ensures path in Merge(lower) <==> exists i :: 0 <= i < |lower| && path in lower[i]
  {
    if lower != [] {
      MergeKeys(lower[..|lower| - 1], path);
      var front := lower[..|lower| - 1];
      if i :| 0 <= i < |lower| && path in lower[i] {
        assert i < |front| ==> path in front[i];
      }
    }
  }

  // ----- directories of flat paths

  function TrimSlashes(path: string): (r: string)
    ensures r <= path
  {
    if path != [] && path[|path| - 1] == '/' then TrimSlashes(path[..|path| - 1]) else path
  }

  /** What every path inside `dir` starts with. */
  function Inside(dir: string): string {
    if dir == "/" then "/" else TrimSlashes(dir) + "/"
  }

  ghost predicate HasBelow(paths: set<string>, prefix: string) {
    exists k :: k in paths && StartsWith(k, prefix)
  }

  ghost predicate IsDir(paths: set<string>, path: string) {
    path == "/" || HasBelow(paths, TrimSlashes(path) + "/")
  }

  /** A name `list` may show: one segment, not hidden. */
  predicate Visible(name: string) {
    name != "" && name[0] != '.' && Without(name, '/')
  }

  /** The entry of `dir` with that name shows as a directory, or as a file and nothing more. */
  ghost predicate Belongs(paths: set<string>, dir: string, entry: string) {
    || ShownDir(paths, dir, entry)
    || (Visible(entry) && Inside(dir) + entry in paths && !IsDir(paths, Inside(dir) + entry))
  }

  ghost predicate ShownDir(paths: set<string>, dir: string, entry: string) {
    && entry != "" && entry[|entry| - 1] == '/'
    && Visible(entry[..|entry| - 1]) && IsDir(paths, Inside(dir) + entry[..|entry| - 1])
  }

  lemma {:induction false} InsideChild(dir: string, name: string)
    requires name != "" && Without(name, '/')
    ensures TrimSlashes(Inside(dir) + name) == Inside(dir) + name && Inside(dir) + name != "/"
  {
    var p := Inside(dir) + name;
    assert p[|p| - 1] == name[|name| - 1];
    assert |Inside(dir)| >= 1;
  }

  // ----- the loop body of `list`

  /** The entry contributed by one stored path, if any. */
  function EntryOf(all: seq<string>, prefix: string, path: string): Option<string> {
    if !StartsWith(path, prefix) || path == prefix then None
    else
      var rel := path[|prefix|..];
      var name := rel[..IndexOf(rel, '/')];
      if rel[0] == '.' || name == "" then None
      else if exists i :: 0 <= i < |all| && StartsWith(all[i], prefix + name + "/") then Some(name + "/")
      else Some(name)
  }

  function SetOf(all: seq<string>): set<string> {
    set p | p in all
  }

  lemma StartsWithJoin(p: string, prefix: string, rest: string)
    requires p == prefix + rest
    ensures StartsWith(p, prefix) && p[|prefix|..] == rest
  {
  }

  /** A stored path contributes only entries that belong. */
  lemma EntrySound(all: seq<string>, dir: string, path: string)
    requires path in all && EntryOf(all, Inside(dir), path).Some?
    ensures Belongs(SetOf(all), dir, EntryOf(all, Inside(dir), path).value)
  {
    var prefix := Inside(dir);
    var at :| 0 <= at < |all| && all[at] == path;
    var rel := path[|prefix|..];
    var name := rel[..IndexOf(rel, '/')];
    assert path == prefix + rel;
    assert IndexOf(rel, '/') < |rel| ==> StartsWith(all[at], prefix + name + "/");
    assert Visible(name) by { assert name[0] == rel[0]; }
    InsideChild(dir, name);
    if i :| 0 <= i < |all| && StartsWith(all[i], prefix + name + "/") {
      assert all[i] in SetOf(all);
      assert (name + "/")[..|name|] == name;
      assert ShownDir(SetOf(all), dir, name + "/");
    } else {
      assert name == rel;
      forall k | k in SetOf(all) ensures !StartsWith(k, prefix + name + "/") {
        var j :| 0 <= j < |all| && all[j] == k;
      }
    }
  }

  /** Every entry that belongs is contributed by some stored path. */
  lemma EntryComplete(all: seq<string>, dir: string, entry: string) returns (path: string)
    requires Belongs(SetOf(all), dir, entry)
    ensures path in all && EntryOf(all, Inside(dir), path) == Some(entry)
  {
    var prefix := Inside(dir);
    if ShownDir(SetOf(all), dir, entry) {
      var name := entry[..|entry| - 1];
      InsideChild(dir, name);
      path :| path in SetOf(all) && StartsWith(path, prefix + name + "/");
      BelowChild(path, prefix, name);
      var i :| 0 <= i < |all| && all[i] == path;
      assert StartsWith(all[i], prefix + name + "/");
      assert entry == name + "/";
    } else {
      path := prefix + entry;
      InsideChild(dir, entry);
      StartsWithJoin(path, prefix, entry);
      IndexOfUnique(entry, '/', |entry|);
      assert entry[..|entry|] == entry;
      forall i | 0 <= i < |all| ensures !StartsWith(all[i], prefix + entry + "/") {
        assert all[i] in SetOf(all);
      }
    }
  }

  /** What each stored path contributes. */
  function Contributions(all: seq<string>, dir: string): (r: seq<Option<string>>)
    ensures |r| == |all|
  {
    seq(|all|, j requires 0 <= j < |all| => EntryOf(all, Inside(dir), all[j]))
  }

  predicate Covers(xs: seq<Option<string>>, entries: seq<string>) {
    forall j :: 0 <= j < |xs| ==> xs[j].Some? ==> xs[j].value in entries
  }

  ghost predicate AllBelong(paths: set<string>, dir: string, entries: seq<string>) {
    forall e :: e in entries ==> Belongs(paths, dir, e)
  }

  /** The entries contributed by the first i paths, in order, each once, all of which belong. */
  ghost predicate Collected(all: seq<string>, dir: string, i: nat, entries: seq<string>)
    requires i <= |all|
  {
    Sorted(entries) && AllBelong(SetOf(all), dir, entries) && Covers(Contributions(all, dir)[..i], entries)
  }

  lemma {:induction false} Collect(all: seq<string>, dir: string, i: nat, entries: seq<string>)
    requires i < |all| && Collected(all, dir, i, entries)
    ensures var entry := EntryOf(all, Inside(dir), all[i]);
      Collected(all, dir, i + 1, if entry.Some? then Insert(entries, entry.value) else entries)
  {
    var xs, entry := Contributions(all, dir), EntryOf(all, Inside(dir), all[i]);
    assert xs[..i + 1] == xs[..i] + [entry];
    CoversOne(xs[..i], entry, entries);
    if entry.Some? {
      EntrySound(all, dir, all[i]);
      InsertSorted(entries, entry.value);
      InsertBelongs(SetOf(all), dir, entries, entry.value);
    }
  }

  lemma {:induction false} CoversOne(xs: seq<Option<string>>, x: Option<string>, entries: seq<string>)
    requires Covers(xs, entries)
    ensures Covers(xs + [x], if x.Some? then Insert(entries, x.value) else entries)
  {
    if x.Some? { InsertElements(entries, x.value); }
  }

  lemma {:induction false} InsertBelongs(paths: set<string>, dir: string, entries: seq<string>, entry: string)
    requires AllBelong(paths, dir, entries) && Belongs(paths, dir, entry)
    ensures AllBelong(paths, dir, Insert(entries, entry))
  {
    InsertElements(entries, entry);
  }

  /** What all paths together contribute is every entry that belongs. */
  lemma AllEntries(all: seq<string>, dir: string, entries: seq<string>)
    requires Collected(all, dir, |all|, entries)
    ensures IsListing(SetOf(all), dir, entries)
  {
    forall e | Belongs(SetOf(all), dir, e) ensures e in entries {
      var path := EntryComplete(all, dir, e);
      var j :| 0 <= j < |all| && all[j] == path;
      assert Contributions(all, dir)[..|all|][j] == Some(e);
    }
  }

  lemma BelowChild(path: string, prefix: string, name: string)
    requires StartsWith(path, prefix + name + "/") && name != "" && Without(name, '/')
    ensures StartsWith(path, prefix) && path != prefix
    ensures var rel := path[|prefix|..]; rel[0] == name[0] && IndexOf(rel, '/') == |name| && rel[..|name|] == name
  {
    var front := prefix + name + "/";
    var rel := path[|prefix|..];
    assert path == front + path[|front|..];
    assert rel == name + "/" + path[|front|..];
    IndexOfUnique(rel, '/', |name|);
  }

  /** What `list` returns is fully determined: sorted, and exactly the entries that belong. */
  ghost predicate IsListing(paths: set<string>, dir: string, entries: seq<string>) {
    Sorted(entries) && forall e :: e in entries <==> Belongs(paths, dir, e)
  }

  /** For a visible name c, `list` shows "c/" exactly for a directory, and "c" exactly for a file that is none. */
  lemma ListingAgrees(paths: set<string>, dir: string, entries: seq<string>, c: string)
    requires IsListing(paths, dir, entries) && Visible(c)
    ensures c + "/" in entries <==> IsDir(paths, Inside(dir) + c)
    ensures c in entries <==> Inside(dir) + c in paths && !IsDir(paths, Inside(dir) + c)
  {
    var d := c + "/";
    assert d[..|d| - 1] == c && d[|c|] == '/';
    assert !Visible(d);
    assert c[|c| - 1] != '/';
  }

  /** Any number of slashes. */
  predicate Slashes(s: string) {
    forall i :: 0 <= i < |s| ==> s[i] == '/'
  }

  /** A directory name, with slashes after it or not, stands for what begins with the name and one slash. */
  lemma {:induction false} InsideIs(d: string, tail: string)
    requires (d == "" || d[|d| - 1] != '/') && Slashes(tail)
    ensures TrimSlashes(d + tail) == d && Inside(d + tail) == d + "/"
    decreases |tail|
  {
    var s := d + tail;
    if tail == "" {
      assert s == d;
    } else {
      assert s[|s| - 1] == tail[|tail| - 1];
      assert s[..|s| - 1] == d + tail[..|tail| - 1];
      InsideIs(d, tail[..|tail| - 1]);
      assert s == "/" ==> d == "" || d == "/";
    }
  }

  /**
   * The listing of d: "c/" exactly when a stored path goes on below d/c, and "c" exactly when d/c is stored and
   * none does, for every name c without a slash that does not begin with a dot. Nothing else is listed.
   */
  lemma ListingSays(paths: set<string>, d: string, tail: string, entries: seq<string>, c: string)
    requires (d == "" || d[|d| - 1] != '/') && Slashes(tail) && IsListing(paths, d + tail, entries)
    requires c != "" && c[0] != '.' && Without(c, '/')
    ensures c + "/" in entries <==> exists rest :: d + "/" + c + "/" + rest in paths
    ensures c in entries <==> d + "/" + c in paths && !exists rest :: d + "/" + c + "/" + rest in paths
  {
    InsideIs(d, tail);
    InsideChild(d + tail, c);
    ListingAgrees(paths, d + tail, entries, c);
    HasBelowIff(paths, d + "/" + c + "/");
  }

  lemma HasBelowIff(paths: set<string>, prefix: string)
    ensures HasBelow(paths, prefix) <==> exists rest :: prefix + rest in paths
  {
    if HasBelow(paths, prefix) {
      var k :| k in paths && StartsWith(k, prefix);
      assert k == prefix + k[|prefix|..];
    }
    forall rest | prefix + rest in paths ensures HasBelow(paths, prefix) {
      StartsWithIff(prefix + rest, prefix);
    }
  }

  /** A path is a directory when it is the root, or a stored path goes on below it, slashes after it or not. */
  lemma IsDirSays(paths: set<string>, d: string, tail: string)
    requires (d == "" || d[|d| - 1] != '/') && Slashes(tail)
    ensures IsDir(paths, d + tail) <==> d + tail == "/" || exists rest :: d + "/" + rest in paths
  {
    InsideIs(d, tail);
    HasBelowIff(paths, d + "/");
  }

  /** Every entry is such a name, or such a name and a slash. */
  lemma NothingElseListed(paths: set<string>, dir: string, entries: seq<string>, e: string)
    requires IsListing(paths, dir, entries) && e in entries
    ensures var c := if e != "" && e[|e| - 1] == '/' then e[..|e| - 1] else e;
      c != "" && c[0] != '.' && Without(c, '/')
  {
  }

  lemma ListingUnique(paths: set<string>, dir: string, a: seq<string>, b: seq<string>)
    requires IsListing(paths, dir, a) && IsListing(paths, dir, b)
    ensures a == b
  {
    SortedUnique(a, b);
  }

  // ----- the object

  class OverlayMount {
    const lower: seq<Files>
    var upper: Files

    constructor (lower: seq<Files>)
      ensures this.lower == lower && upper == map[]
    {
      this.lower := lower;
      upper := map[];
    }

    ghost function Contents(): Files
      reads this
    {
      View(lower, upper)
    }

    method Read(path: string) returns (r: Result<seq<byte>>)
      ensures r == if path in Contents() then Ok(Contents()[path]) else Err(NotFound)
    {
      if path in upper {
        return Ok(upper[path]);
      }
      r := ReadBelow(path);
    }

    /** The search through the lower layers, top to bottom. */
    method ReadBelow(path: string) returns (r: Result<seq<byte>>)
      ensures r == if path in Merge(lower) then Ok(Merge(lower)[path]) else Err(NotFound)
    {
      ReadLowerIsMerge(lower, path);
      assert lower[..|lower|] == lower;
      for i := |lower| downto 0
        invariant ReadLower(lower, path) == ReadLower(lower[..i], path)
      {
        assert lower[..i + 1][..i] == lower[..i];
        if path in lower[i] {
          return Ok(lower[i][path]);
        }
      }
      return Err(NotFound);
    }

    /** Copy up, then overwrite: the write changes one path of the view and no lower layer. */
    method Write(path: string, data: seq<byte>)
      modifies this
      ensures upper == old(upper)[path := data]
      ensures Contents() == old(Contents())[path := data]
    {
      if path !in upper {
        var existing := ReadBelow(path);
        if existing.Ok? {
          upper := upper[path := existing.value];
        }
      }
      upper := upper[path := data];
      assert upper == old(upper)[path := data];
      ViewUpdate(lower, old(upper), path, data);
    }

    /** Removal undoes writes: the path falls back to the lower layers, and is gone only if they lack it. */
    method Remove(path: string) returns (r: Result<()>)
      modifies this
      ensures upper == old(upper) - {path}
      ensures r == if path in old(upper) then Ok(())
                   else if path in Merge(lower) then Err(PermissionDenied) else Err(NotFound)
      ensures r.Ok? ==> (path in Contents() <==> path in Merge(lower))
      ensures r.Ok? && path in Merge(lower) ==> Contents()[path] == Merge(lower)[path]
      ensures forall p :: p != path ==> (p in Contents() <==> p in old(Contents()))
      ensures forall p :: p != path && p in Contents() ==> Contents()[p] == old(Contents())[p]
    {
      MergeKeys(lower, path);
      if path in upper {
        upper := upper - {path};
        return Ok(());
      }
      assert upper - {path} == upper;
      if exists i :: 0 <= i < |lower| && path in lower[i] {
        return Err(PermissionDenied);
      }
      return Err(NotFound);
    }

    method Exists(path: string) returns (r: bool)
      ensures r <==> path in Contents()
    {
      MergeKeys(lower, path);
      return path in upper || exists i :: 0 <= i < |lower| && path in lower[i];
    }

    /** Every stored path, upper layer first. */
    method AllPaths() returns (all: seq<string>)
      ensures SetOf(all) == Contents().Keys
    {
      all := KeySeq(upper.Keys);
      for i := 0 to |lower|
        invariant forall p :: p in all <==> p in upper || exists j :: 0 <= j < i && p in lower[j]
      {
        var keys := KeySeq(lower[i].Keys);
        all := all + keys;
      }
      forall p ensures p in SetOf(all) <==> p in Contents() {
        MergeKeys(lower, p);
      }
    }

    method IsDirectory(path: string) returns (r: bool)
      ensures r <==> IsDir(Contents().Keys, path)
    {
      if path == "/" {
        return true;
      }
      var prefix := TrimSlashes(path) + "/";
      var all := AllPaths();
      r := exists i :: 0 <= i < |all| && StartsWith(all[i], prefix);
      assert forall i :: 0 <= i < |all| ==> all[i] in SetOf(all);
      if HasBelow(Contents().Keys, prefix) {
        var k :| k in SetOf(all) && StartsWith(k, prefix);
        assert k in all;
      }
    }

    /** The listing agrees with `exists` and `is_dir` for every visible name. */
    method List(dir: string) returns (entries: seq<string>)
      ensures IsListing(Contents().Keys, dir, entries)
    {
      var prefix := Inside(dir);
      var all := AllPaths();
      entries := [];
      for i := 0 to |all|
        invariant Collected(all, dir, i, entries)
      {
        Collect(all, dir, i, entries);
        var entry := EntryOf(all, prefix, all[i]);
        if entry.Some? {
          entries := Insert(entries, entry.value);
        }
      }
      AllEntries(all, dir, entries);
    }
  }

  /** The keys of a layer in some order. */
  method KeySeq(keys: set<string>) returns (s: seq<string>)
    ensures forall p :: p in s <==> p in keys
  {
    s := [];
    var rest := keys;
    while rest != {}
      invariant rest <= keys && forall p :: p in s <==> p in keys - rest
      decreases |rest|
    {
      var k :| k in rest;
      s := s + [k];
      rest := rest - {k};
    }
  }
}
