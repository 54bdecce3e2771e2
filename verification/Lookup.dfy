/** Finding things by path while directories gain names. */
module Lookup {
  import opened Bytes
  import opened DirLog
  import opened Paths
  import opened Machine
  import opened Invariants
  import opened Theorems

  /** Every directory is still there and shows all it did. */
  ghost predicate TablesGrow(files: seq<File>, files': seq<File>) {
    forall d {:trigger files[d]} :: IsDir(files, d) ==> IsDir(files', d) && TableGrows(files[d], files'[d])
  }

  ghost predicate TableGrows(f: File, f': File)
    requires f.Dir? && f'.Dir?
  {
    forall name :: name in DirTable(f) ==> name in DirTable(f') && DirTable(f')[name] == DirTable(f)[name]
  }

  /** What entry `e`, appended to a directory, brings into view: the first live entry not counted so far, an
      older one if there is one, else the new one. */
  function NextShown(f: File, e: Entry): Entry
    requires f.Dir? && 0 <= f.cnt
  {
    if f.cnt < |Live(f.log)| then Live(f.log)[f.cnt] else e
  }

  /** A directory shows as many live entries as it counts; a name shown already stays with its inode. */
  lemma AppendShows(f: File, e: Entry)
    requires f.Dir? && 0 <= f.cnt <= |Live(f.log)| && e.id != DELETED
    ensures var x, t := NextShown(f, e), DirTable(f);
      DirTable(Append(f, e)) == if x.name in t then t else t[x.name := x.id]
  {
    LiveAppend(f.log, e);
    JoinAt(Live(f.log), e, f.cnt);
    TableStep(Live(Push(f.log, e)), f.cnt);
  }

  lemma JoinAt(es: seq<Entry>, e: Entry, k: nat)
    requires k <= |es|
    ensures (es + [e])[..k] == es[..k] && (es + [e])[k] == if k < |es| then es[k] else e
  {
  }

  lemma TableStep(es: seq<Entry>, k: nat)
    requires k < |es|
    ensures var t := Table(es[..k]); Table(es[..k + 1]) == if es[k].name in t then t else t[es[k].name := es[k].id]
  {
    assert es[..k + 1][..k] == es[..k];
  }

  /** Creating a file takes no name away. */
  lemma AddGrows(files: seq<File>, d: nat, f: File, name: Name)
    requires FilesOk(files) && IsDir(files, d)
    ensures TablesGrow(files, AddFile(files, d, f, name))
  {
    assert DirOk(files, d);
    AppendShows(files[d], Entry(|files|, name));
    var files' := AddFile(files, d, f, name);
    assert TableGrows(files[d], files'[d]);
    forall c | IsDir(files, c)
      ensures IsDir(files', c) && TableGrows(files[c], files'[c])
    {
      assert c != d ==> files'[c] == files[c];
    }
  }

  lemma WriteGrows(files: seq<File>, i: nat, f: File)
    requires i < |files| && files[i].Reg?
    ensures TablesGrow(files, files[i := f])
  {
  }

  lemma GrowTwice(a: seq<File>, b: seq<File>, c: seq<File>)
    requires TablesGrow(a, b) && TablesGrow(b, c)
    ensures TablesGrow(a, c)
  {
    forall d | IsDir(a, d)
      ensures IsDir(c, d) && TableGrows(a[d], c[d])
    {
      assert IsDir(b, d) && TableGrows(a[d], b[d]) && TableGrows(b[d], c[d]);
    }
  }

  /** The next live entry that a directory does not count names an older inode than any new one. */
  lemma NextUncounted(files: seq<File>, d: nat)
    requires FilesOk(files) && IsDir(files, d) && files[d].cnt < |Live(files[d].log)|
    ensures 0 <= files[d].cnt && d < Live(files[d].log)[files[d].cnt].id < |files|
  {
    var f := files[d];
    assert DirOk(files, d);
    var r := LiveAt(f.log, f.cnt);
    assert r >= 2;
    assert EntryOk(files, d, f.log[r]);
  }

  // ---------- walks ----------

  /** The names that a walk does not follow: none, or a missing name and what comes after it. */
  function Unfollowed(files: seq<File>, d: nat, names: seq<Name>): seq<Name>
    decreases |names|
  {
    if |names| == 0 then []
    else if d < |files| && files[d].Dir? && names[0] in DirTable(files[d]) && DirTable(files[d])[names[0]] >= 0 then
      Unfollowed(files, DirTable(files[d])[names[0]], names[1..])
    else names
  }

  lemma {:induction false} WalkStops(files: seq<File>, d: nat, names: seq<Name>)
    requires FilesOk(files) && WalkOk(files, d, names)
    ensures var (c, reached) := Walk(files, d, names); var rest := Unfollowed(files, d, names);
      IsDir(files, c) && (reached <==> rest == []) && (!reached ==> rest[0] !in DirTable(files[c]))
    decreases |names|
  {
    if |names| > 0 {
      WalkStep(files, d, names);
      if names[0] in DirTable(files[d]) {
        WalkStops(files, DirTable(files[d])[names[0]], names[1..]);
      }
    }
  }

  /** When tables have grown, a walk still gets as far as before, and goes on from there. */
  lemma {:induction false} WalkResumes(files: seq<File>, files': seq<File>, d: nat, names: seq<Name>)
    requires FilesOk(files) && WalkOk(files, d, names) && TablesGrow(files, files')
    ensures var c, rest := Walk(files, d, names).0, Unfollowed(files, d, names);
      && Walk(files', d, names) == Walk(files', c, rest)
      && (WalkOk(files', d, names) <==> WalkOk(files', c, rest))
    decreases |names|
  {
    assert IsDir(files, d) && TableGrows(files[d], files'[d]);
    if |names| > 0 {
      WalkStep(files, d, names);
      if names[0] in DirTable(files[d]) {
        WalkResumes(files, files', DirTable(files[d])[names[0]], names[1..]);
      }
    }
  }

  /** A walk that succeeds still does, and ends in the same directory. */
  lemma WalkGrows(files: seq<File>, files': seq<File>, d: nat, names: seq<Name>)
    requires FilesOk(files) && WalkOk(files, d, names) && Walk(files, d, names).1 && TablesGrow(files, files')
    ensures Walk(files', d, names) == Walk(files, d, names) && WalkOk(files', d, names)
  {
    WalkStops(files, d, names);
    WalkResumes(files, files', d, names);
    var c := Walk(files, d, names).0;
    assert IsDir(files, c) && IsDir(files', c);
  }

  // ---------- making directories ----------

  lemma PathParts(path: seq<byte>)
    requires LastSlash(path) != -1 && |NamePart(path)| > 0
    ensures Tokens(path) == Tokens(DirPart(path)) + [NamePart(path)]
  {
    var k := LastSlash(path);
    SplitAt(path, k, path[..k], path[k + 1..]);
    SingleToken(path[k + 1..]);
  }

  lemma SplitAt(path: seq<byte>, k: nat, dir: seq<byte>, name: Name)
    requires k < |path| && path[k] == SLASH && dir == path[..k] && name == path[k + 1..]
    ensures Tokens(path) == Tokens(dir) + Tokens(name)
  {
    assert path == dir + [SLASH] + name;
    TokensJoin(dir, name);
  }

  lemma BareName(s: State, name: Name)
    requires Inv(s) && |name| > 0 && forall i :: 0 <= i < |name| ==> name[i] != SLASH
    ensures CdTo(s, name) == Walk(s.files, s.cwd, Tokens(DOT) + [name])
  {
    SingleToken(name);
    SingleToken(DOT);
    HereByDot(s);
    WalkJoin(s.files, s.cwd, [DOT], [name]);
  }

  /** A path, followed in two parts. */
  lemma CdSplit(s: State, path: seq<byte>)
    requires Inv(s) && |NamePart(path)| > 0 && Start(s, DirPart(path)) == Start(s, path)
    ensures CdTo(s, path) == Walk(s.files, Start(s, path), Tokens(DirPart(path)) + [NamePart(path)])
  {
    if LastSlash(path) == -1 {
      BareName(s, path);
    } else {
      PathParts(path);
    }
  }

  /** A directory made by path, and then entered by the same path.  When its parent was reached, this
      succeeds exactly when the parent counted all its live entries and did not show the name.  When it
      was not, the directory was made in the last one reached; the path still stops there, unless the name
      that has come into view is the one that was missing, from where it then goes on. */
  lemma MkdirThenCd(s: State, path: seq<byte>, d: nat, reached: bool, rest: seq<Name>, x: Entry)
    requires Inv(s) && CanMkdir(s, path) && |NamePart(path)| > 0 && Start(s, DirPart(path)) == Start(s, path)
    requires CdTo(s, DirPart(path)) == (d, reached) && IsDir(s.files, d) && 0 <= s.files[d].cnt
    requires rest == Unfollowed(s.files, Start(s, path), Tokens(DirPart(path)))
    requires x == NextShown(s.files[d], Entry(|s.files|, NamePart(path)))
    ensures reached == (rest == []) && 0 <= x.id
    ensures var s', f, name := DoMkdir(s, path), s.files[d], NamePart(path);
      if reached then
        CdTo(s', path) == (|s.files|, true) <==> f.cnt == |Live(f.log)| && name !in DirTable(f)
      else if x.name != rest[0] then CdTo(s', path) == (d, false)
      else CdTo(s', path) == Walk(s'.files, x.id, rest[1..] + [name])
  {
    var s', name := DoMkdir(s, path), NamePart(path);
    var st, names := Start(s, path), Tokens(DirPart(path));
    MkdirTables(s, path, d, x, s');
    CdSplit(s', path);
    WalkStops(s.files, st, names);
    WalkResumes(s.files, s'.files, st, names);
    WalkJoin(s'.files, st, names, [name]);
    if reached {
      EnterNew(s.files, s'.files, d, name, x);
    } else {
      assert rest[0] !in DirTable(s.files[d]);
      WalkJoin(s'.files, d, rest, [name]);
      assert (rest + [name])[1..] == rest[1..] + [name];
    }
  }

  lemma MkdirTables(s: State, path: seq<byte>, d: nat, x: Entry, s': State)
    requires Inv(s) && CanMkdir(s, path) && s' == DoMkdir(s, path)
    requires CdTo(s, DirPart(path)).0 == d && IsDir(s.files, d) && 0 <= s.files[d].cnt
    requires x == NextShown(s.files[d], Entry(|s.files|, NamePart(path)))
    ensures Inv(s') && s'.cwd == s.cwd && TablesGrow(s.files, s'.files)
    ensures IsDir(s'.files, d) && IsDir(s'.files, |s.files|)
    ensures var t := DirTable(s.files[d]);
      DirTable(s'.files[d]) == if x.name in t then t else t[x.name := x.id]
    ensures WalkOk(s.files, Start(s, DirPart(path)), Tokens(DirPart(path)))
    ensures 0 <= x.id
  {
    if s.files[d].cnt < |Live(s.files[d].log)| {
      NextUncounted(s.files, d);
    }
    MkdirKeeps(s, path);
    AddGrows(s.files, d, EmptyDir(|s.files|, d), NamePart(path));
    assert DirOk(s.files, d);
    AppendShows(s.files[d], Entry(|s.files|, NamePart(path)));
  }

  /** From the parent, the name leads to the new inode exactly when the new entry came into view. */
  lemma EnterNew(files: seq<File>, files': seq<File>, d: nat, name: Name, x: Entry)
    requires FilesOk(files) && IsDir(files, d) && IsDir(files', d) && IsDir(files', |files|)
    requires 0 <= files[d].cnt && x == NextShown(files[d], Entry(|files|, name))
    requires var t := DirTable(files[d]); DirTable(files'[d]) == if x.name in t then t else t[x.name := x.id]
    ensures var f := files[d];
      Walk(files', d, [name]) == (|files|, true) <==> f.cnt == |Live(f.log)| && name !in DirTable(f)
  {
    var f := files[d];
    assert DirOk(files, d);
    if f.cnt < |Live(f.log)| {
      NextUncounted(files, d);
    }
    if name in DirTable(f) {
      var r := TableEntry(files, d, name);
    }
    assert [name][1..] == [];
    assert forall c: nat :: Walk(files', c, []) == (c, true);
  }
}
