/** What lies below a directory, and the listing of it. */
module Trees {
  import opened DirLog
  import opened Order
  import opened Machine
  import opened Invariants

  /** The inode of the entry that a path leads to. */
  function End(files: seq<File>, d: int, path: Path): int
    requires Leads(files, d, path)
    decreases |path|
  {
    if |path| == 1 then Child(files, d, path[0]) else End(files, Child(files, d, path[0]), path[1..])
  }

  // ---------- the directory graph is a tree ----------

  /** A shown name stands for an inode younger than its directory; a directory so named has it as parent. */
  lemma ChildUp(files: seq<File>, d: int, name: Name) returns (r: nat)
    requires FilesOk(files) && Shows(files, d, name)
    ensures d < Child(files, d, name) < |files|
    ensures Links(files, d, r, Child(files, d, name)) && files[d].log[r].name == name
  {
    assert DirOk(files, d);
    r := TableEntry(files, d, name);
  }

  /** No inode has two parents, or two names in one. */
  lemma OneParent(files: seq<File>, d: int, name: Name, d': int, name': Name)
    requires FilesOk(files) && Shows(files, d, name) && Shows(files, d', name')
    requires Child(files, d, name) == Child(files, d', name')
    ensures d == d' && name == name'
  {
    var r := ChildUp(files, d, name);
    var r' := ChildUp(files, d', name');
  }

  /** A path, but for its last name, ends in the directory that shows the last name. */
  lemma {:induction false} LastStep(files: seq<File>, d: int, path: Path) returns (p: int, front: Path, name: Name)
    requires FilesOk(files) && Leads(files, d, path)
    ensures path == front + [name] && Shows(files, p, name) && Child(files, p, name) == End(files, d, path)
    ensures if |path| == 1 then p == d else Leads(files, d, front) && End(files, d, front) == p
    ensures d <= p && (|path| > 1 ==> d < p)
    decreases |path|
  {
    var r := ChildUp(files, d, path[0]);
    if |path| == 1 {
      p, front, name := d, [], path[0];
    } else {
      var rest;
      p, rest, name := LastStep(files, Child(files, d, path[0]), path[1..]);
      front := [path[0]] + rest;
      assert front[1..] == rest;
    }
  }

  /** Different paths from a directory end in different inodes, all younger than the directory. */
  lemma {:induction false} PathsApart(files: seq<File>, d: int, p: Path, q: Path)
    requires FilesOk(files) && Leads(files, d, p) && Leads(files, d, q)
    ensures d < End(files, d, p) < |files|
    ensures End(files, d, p) == End(files, d, q) ==> p == q
    decreases |p|
  {
    var a, front, m := LastStep(files, d, p);
    var b, front', n := LastStep(files, d, q);
    var r := ChildUp(files, a, m);
    if End(files, d, p) == End(files, d, q) {
      OneParent(files, a, m, b, n);
      if |p| > 1 && |q| > 1 {
        PathsApart(files, d, front, front');
      }
    }
  }

  /** Hence a listing shows every inode at most once. */
  lemma ListedOnce(files: seq<File>, root: int, depth: int, lines: seq<Line>, paths: seq<Path>, i: int, j: int)
    requires FilesOk(files) && Lists(files, root, depth, lines, paths) && 0 <= i < j < |paths|
    ensures Leads(files, root, paths[i]) && Leads(files, root, paths[j])
    ensures root < End(files, root, paths[i]) && End(files, root, paths[i]) != End(files, root, paths[j])
  {
    assert paths[i] in paths && paths[j] in paths;
    PathLessOneWay(paths[i], paths[j]);
    PathsApart(files, root, paths[i], paths[j]);
  }

  /** There is one listing of a directory: its paths in order, line by line. */
  lemma OneListing(files: seq<File>, root: int, lines: seq<Line>, paths: seq<Path>)
    requires Lists(files, root, 0, lines, paths)
    ensures TreeOf(files, root) == lines
  {
    var lines' := TreeOf(files, root);
    var paths' :| Lists(files, root, 0, lines', paths');
    AscendingUnique(paths, paths');
  }

  // ---------- listing a directory name by name ----------

  /** The names in `done` have been listed. */
  ghost predicate ListsPart(files: seq<File>, root: int, depth: int, done: set<Name>, lines: seq<Line>,
                            paths: seq<Path>) {
    && (forall p :: p in paths <==> Leads(files, root, p) && p[0] in done)
    && Ascending(paths)
    && Draws(depth, lines, paths)
  }

  lemma PartStarts(files: seq<File>, root: int, depth: int)
    ensures ListsPart(files, root, depth, {}, [], [])
  {
  }

  /** Self and parent are passed over. */
  lemma PartSkips(files: seq<File>, root: int, depth: int, done: set<Name>, name: Name, lines: seq<Line>,
                  paths: seq<Path>)
    requires ListsPart(files, root, depth, done, lines, paths) && !Shows(files, root, name)
    ensures ListsPart(files, root, depth, done + {name}, lines, paths)
  {
  }

  /** The paths of a subdirectory, seen from its parent. */
  ghost function Prefixed(name: Name, paths: seq<Path>): (r: seq<Path>)
    ensures |r| == |paths| && forall i :: 0 <= i < |r| ==> r[i] == [name] + paths[i]
  {
    seq(|paths|, i requires 0 <= i < |paths| => [name] + paths[i])
  }

  lemma PrefixedIn(name: Name, paths: seq<Path>, p: Path)
    ensures p in Prefixed(name, paths) <==> |p| > 0 && p[0] == name && p[1..] in paths
  {
    if p in Prefixed(name, paths) {
      var i :| 0 <= i < |paths| && Prefixed(name, paths)[i] == p;
      assert ([name] + paths[i])[1..] == paths[i];
    }
    if |p| > 0 && p[0] == name && p[1..] in paths {
      var i :| 0 <= i < |paths| && paths[i] == p[1..];
      assert p == Prefixed(name, paths)[i];
    }
  }

  /** What `name` itself adds to the listing: its own path and those of its subdirectory. */
  ghost predicate Added(files: seq<File>, root: int, depth: int, name: Name, lines: seq<Line>, paths: seq<Path>) {
    && (forall p :: p in paths <==> Leads(files, root, p) && p[0] == name)
    && Ascending(paths)
    && Draws(depth, lines, paths)
  }

  lemma LongPath(files: seq<File>, d: int, path: Path)
    requires Leads(files, d, path)
    ensures |path| > 1 ==> IsDir(files, Child(files, d, path[0]))
  {
    if |path| > 1 {
      assert Leads(files, Child(files, d, path[0]), path[1..]);
    }
  }

  lemma AddedFile(files: seq<File>, root: int, depth: int, name: Name)
    requires Shows(files, root, name) && !IsDir(files, Child(files, root, name))
    ensures Added(files, root, depth, name, [Line(depth, name)], [[name]])
  {
    forall p | Leads(files, root, p) && p[0] == name
      ensures p == [name]
    {
      LongPath(files, root, p);
    }
  }

  lemma AddedDir(files: seq<File>, root: int, depth: int, name: Name, lines: seq<Line>, paths: seq<Path>)
    requires Shows(files, root, name) && Lists(files, Child(files, root, name), depth + 1, lines, paths)
    ensures Added(files, root, depth, name, [Line(depth, name)] + lines, [[name]] + Prefixed(name, paths))
  {
    var all := [[name]] + Prefixed(name, paths);
    var c := Child(files, root, name);
    forall p
      ensures p in all <==> Leads(files, root, p) && p[0] == name
    {
      PrefixedIn(name, paths, p);
      assert p in all <==> p == [name] || p in Prefixed(name, paths);
      if Leads(files, root, p) && p[0] == name && |p| > 1 {
        assert Leads(files, c, p[1..]);
      }
      if |p| > 0 && p[0] == name && p[1..] in paths {
        assert Leads(files, c, p[1..]);
      }
    }
    PrefixedAscends(name, paths);
  }

  lemma PrefixedAscends(name: Name, paths: seq<Path>)
    requires Ascending(paths) && forall i :: 0 <= i < |paths| ==> |paths[i]| > 0
    ensures Ascending([[name]] + Prefixed(name, paths))
  {
    forall i, j | 0 <= i < j < |paths|
      ensures PathLess(Prefixed(name, paths)[i], Prefixed(name, paths)[j])
    {
      assert ([name] + paths[i])[1..] == paths[i] && ([name] + paths[j])[1..] == paths[j];
    }
    forall j | 0 <= j < |paths|
      ensures PathLess([name], Prefixed(name, paths)[j])
    {
      assert [name][1..] == [] && ([name] + paths[j])[1..] == paths[j];
    }
  }

  lemma AscendingJoin(a: seq<Path>, b: seq<Path>)
    requires Ascending(a) && Ascending(b)
    requires forall i, j :: 0 <= i < |a| && 0 <= j < |b| ==> PathLess(a[i], b[j])
    ensures Ascending(a + b)
  {
  }

  lemma DrawsJoin(depth: int, lines: seq<Line>, paths: seq<Path>, lines1: seq<Line>, paths1: seq<Path>)
    requires Draws(depth, lines, paths) && Draws(depth, lines1, paths1)
    ensures Draws(depth, lines + lines1, paths + paths1)
  {
  }

  lemma PartAdds(files: seq<File>, root: int, depth: int, done: set<Name>, name: Name,
                 lines: seq<Line>, paths: seq<Path>, lines1: seq<Line>, paths1: seq<Path>)
    requires ListsPart(files, root, depth, done, lines, paths) && forall n :: n in done ==> Less(n, name)
    requires Added(files, root, depth, name, lines1, paths1)
    ensures ListsPart(files, root, depth, done + {name}, lines + lines1, paths + paths1)
  {
    forall i, j | 0 <= i < |paths| && 0 <= j < |paths1|
      ensures PathLess(paths[i], paths1[j])
    {
      assert paths[i] in paths && paths1[j] in paths1;
    }
    AscendingJoin(paths, paths1);
    DrawsJoin(depth, lines, paths, lines1, paths1);
    forall p
      ensures p in paths + paths1 <==> Leads(files, root, p) && p[0] in done + {name}
    {
      assert p in paths + paths1 <==> p in paths || p in paths1;
    }
  }

  lemma PartEnds(files: seq<File>, root: int, depth: int, done: set<Name>, lines: seq<Line>, paths: seq<Path>)
    requires IsDir(files, root) && done == DirTable(files[root]).Keys
    requires ListsPart(files, root, depth, done, lines, paths)
    ensures Lists(files, root, depth, lines, paths)
  {
  }

  // ---------- every directory has a listing ----------

  ghost function Firsts(names: seq<Name>, k: nat): set<Name>
    requires k <= |names|
  {
    set n | n in names[..k]
  }

  lemma {:induction false} ListingExists(files: seq<File>, dir: int, depth: int)
    returns (lines: seq<Line>, paths: seq<Path>)
    requires FilesOk(files) && IsDir(files, dir)
    ensures Lists(files, dir, depth, lines, paths)
    decreases |files| - dir, 1, 0
  {
    var t := DirTable(files[dir]);
    KeysInOrder(t);
    lines, paths := ListFirsts(files, dir, depth, Keys(t), |Keys(t)|);
    assert Keys(t)[..|Keys(t)|] == Keys(t);
    PartEnds(files, dir, depth, t.Keys, lines, paths);
  }

  /** The listing of the first `k` names of a directory. */
  lemma {:induction false} ListFirsts(files: seq<File>, dir: int, depth: int, names: seq<Name>, k: nat)
    returns (lines: seq<Line>, paths: seq<Path>)
    requires FilesOk(files) && IsDir(files, dir) && k <= |names| && InOrder(DirTable(files[dir]), names)
    ensures ListsPart(files, dir, depth, Firsts(names, k), lines, paths)
    decreases |files| - dir, 0, k
  {
    if k == 0 {
      PartStarts(files, dir, depth);
      lines, paths := [], [];
    } else {
      var name, done := names[k - 1], Firsts(names, k - 1);
      lines, paths := ListFirsts(files, dir, depth, names, k - 1);
      assert names[..k] == names[..k - 1] + [name];
      assert Firsts(names, k) == done + {name};
      if Shows(files, dir, name) {
        var lines1, paths1 := ListName(files, dir, depth, name);
        PartAdds(files, dir, depth, done, name, lines, paths, lines1, paths1);
        lines, paths := lines + lines1, paths + paths1;
      } else {
        PartSkips(files, dir, depth, done, name, lines, paths);
      }
    }
  }

  lemma {:induction false} ListName(files: seq<File>, dir: int, depth: int, name: Name)
    returns (lines: seq<Line>, paths: seq<Path>)
    requires FilesOk(files) && Shows(files, dir, name)
    ensures Added(files, dir, depth, name, lines, paths)
    decreases |files| - dir, 0, 0
  {
    var c := Child(files, dir, name);
    var r := ChildUp(files, dir, name);
    if IsDir(files, c) {
      lines, paths := ListingExists(files, c, depth + 1);
      AddedDir(files, dir, depth, name, lines, paths);
      lines, paths := [Line(depth, name)] + lines, [[name]] + Prefixed(name, paths);
    } else {
      AddedFile(files, dir, depth, name);
      lines, paths := [Line(depth, name)], [[name]];
    }
  }
}
