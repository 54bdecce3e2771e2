/** Copying host files in and out again. */
module HostCopy {
  import opened Bytes
  import opened DirLog
  import opened Paths
  import opened Machine
  import opened Invariants
  import opened Theorems
  import opened Lookup

  /** What a file holds before it is written: nothing, when the name is new. */
  function Before(s: State, d: nat, name: Name): seq<byte>
    requires IsDir(s.files, d)
  {
    var t := DirTable(s.files[d]);
    if name in t && 0 <= t[name] < |s.files| then Contents(s.files[t[name]]) else []
  }

  /** Opening for writing: the tables have grown, the name stands for the file that was opened. */
  lemma OpenedToWrite(s: State, path: seq<byte>, d: nat, name: Name, s1: State, o: Out)
    requires Inv(s) && CanOpen(s, path, WriteFlag) && DoOpen(s, path, WriteFlag) == (s1, o) && o.Opened?
    requires d == CdTo(s, DirPart(path)).0 && name == NamePart(path) && IsDir(s.files, d)
    requires name !in DirTable(s.files[d]) ==> s.files[d].cnt == |Live(s.files[d].log)|
    ensures Inv(s1) && s1.cwd == s.cwd && TablesGrow(s.files, s1.files)
    ensures o.fd in s1.fds && s1.fds[o.fd].pos == 0
    ensures var i := s1.fds[o.fd].inode;
      && i < |s1.files| && IsDir(s1.files, d) && name in DirTable(s1.files[d]) && DirTable(s1.files[d])[name] == i
      && Contents(s1.files[i]) == Before(s, d, name)
  {
    OpenKeeps(s, path, WriteFlag);
    assert DirOk(s.files, d);
    if name in DirTable(s.files[d]) {
      var r := TableEntry(s.files, d, name);
    } else {
      AddGrows(s.files, d, EmptyFile(), name);
      AppendShows(s.files[d], Entry(|s.files|, name));
    }
  }

  /** The file that an import leaves behind, when the directory shows it. */
  lemma Imported(s: State, data: seq<byte>, path: seq<byte>, d: nat, name: Name) returns (i: nat)
    requires Inv(s) && CanImport(s, Host(data), path)
    requires d == CdTo(s, DirPart(path)).0 && name == NamePart(path) && IsDir(s.files, d)
    requires name !in DirTable(s.files[d]) ==> s.files[d].cnt == |Live(s.files[d].log)|
    ensures var s' := DoImport(s, Host(data), path).0;
      && Inv(s') && s'.cwd == s.cwd && TablesGrow(s.files, s'.files)
      && i < |s'.files| && Contents(s'.files[i]) == Splice(Before(s, d, name), 0, data)
      && IsDir(s'.files, d) && name in DirTable(s'.files[d]) && DirTable(s'.files[d])[name] == i
  {
    var (s1, o) := DoOpen(s, path, WriteFlag);
    OpenedToWrite(s, path, d, name, s1, o);
    i := s1.fds[o.fd].inode;
    WriteGrows(s1.files, i, WriteFile(s1.files[i], 0, data));
    GrowTwice(s.files, s1.files, s1.files[i := WriteFile(s1.files[i], 0, data)]);
    assert TableGrows(s1.files[d], s1.files[i := WriteFile(s1.files[i], 0, data)][d]);
    ImportKeeps(s, Host(data), path);
  }

  /** Exporting a name that the directory shows delivers that file whole; another name fails. */
  lemma Exported(s: State, path: seq<byte>, d: nat)
    requires Inv(s) && PathOk(s, DirPart(path)) && CdTo(s, DirPart(path)).0 == d
    ensures CanExport(s, path) && IsDir(s.files, d)
    ensures var t := DirTable(s.files[d]);
      if NamePart(path) in t then
        0 <= t[NamePart(path)] < |s.files| && DoExport(s, path).1 == Got(Contents(s.files[t[NamePart(path)]]))
      else DoExport(s, path).1 == Failed
  {
    CdKeeps(s, DirPart(path));
    assert DirOk(s.files, d);
    if NamePart(path) in DirTable(s.files[d]) {
      var r := TableEntry(s.files, d, NamePart(path));
      assert Shaped(s.files[DirTable(s.files[d])[NamePart(path)]]);
      ReadWhole(s.files[DirTable(s.files[d])[NamePart(path)]]);
    }
  }

  lemma SpliceOver(before: seq<byte>, data: seq<byte>)
    ensures Splice(before, 0, data) == data <==> |before| <= |data|
  {
  }

  /** What importing under a new name does to the files. */
  lemma ImportedNew(s: State, data: seq<byte>, path: seq<byte>, d: nat, name: Name, files': seq<File>)
    requires Inv(s) && CanImport(s, Host(data), path)
    requires d == CdTo(s, DirPart(path)).0 && name == NamePart(path)
    requires IsDir(s.files, d) && name !in DirTable(s.files[d]) && files' == DoImport(s, Host(data), path).0.files
    ensures TablesGrow(s.files, files') && IsDir(files', d)
    ensures files'[d] == Append(s.files[d], Entry(|s.files|, name))
    ensures |files'| == |s.files| + 1 && files'[|s.files|].Reg?
    ensures forall i :: 0 <= i < |s.files| && i != d ==> files'[i] == s.files[i]
  {
    var files1 := AddFile(s.files, d, EmptyFile(), name);
    AddGrows(s.files, d, EmptyFile(), name);
    WriteGrows(files1, |s.files|, WriteFile(files1[|s.files|], 0, data));
    GrowTwice(s.files, files1, files');
  }

  /** A new name stands for the new inode exactly when the directory counts all its live entries. */
  lemma NewNameShown(s: State, data: seq<byte>, path: seq<byte>)
    requires Inv(s) && CanImport(s, Host(data), path)
    requires var d := CdTo(s, DirPart(path)).0; IsDir(s.files, d) && NamePart(path) !in DirTable(s.files[d])
    ensures var d := CdTo(s, DirPart(path)).0; var files' := DoImport(s, Host(data), path).0.files;
      && IsDir(files', d)
      && ((NamePart(path) in DirTable(files'[d]) && DirTable(files'[d])[NamePart(path)] == |s.files|) <==>
            s.files[d].cnt == |Live(s.files[d].log)|)
  {
    var d, name := CdTo(s, DirPart(path)).0, NamePart(path);
    var f := s.files[d];
    assert DirOk(s.files, d);
    ImportedNew(s, data, path, d, name, DoImport(s, Host(data), path).0.files);
    AppendShows(f, Entry(|s.files|, name));
    if f.cnt < |Live(f.log)| {
      NextUncounted(s.files, d);
    }
  }

  /** The table of the directory an import goes to: a new name brings an entry into view. */
  lemma ImportTable(s: State, data: seq<byte>, path: seq<byte>, d: nat, x: Entry)
    requires Inv(s) && CanImport(s, Host(data), path)
    requires CdTo(s, DirPart(path)).0 == d && IsDir(s.files, d) && 0 <= s.files[d].cnt
    requires x == NextShown(s.files[d], Entry(|s.files|, NamePart(path)))
    ensures var s' := DoImport(s, Host(data), path).0; var t := DirTable(s.files[d]);
      && Inv(s') && s'.cwd == s.cwd && TablesGrow(s.files, s'.files) && IsDir(s'.files, d)
      && DirTable(s'.files[d]) == (if NamePart(path) in t || x.name in t then t else t[x.name := x.id])
      && 0 <= x.id && (NamePart(path) !in t ==> x.id < |s'.files|)
  {
    var s' := DoImport(s, Host(data), path).0;
    assert DirOk(s.files, d);
    if s.files[d].cnt < |Live(s.files[d].log)| {
      NextUncounted(s.files, d);
    }
    if NamePart(path) in DirTable(s.files[d]) {
      var i := Imported(s, data, path, d, NamePart(path));
      KnownTable(s, data, path, d);
    } else {
      ImportedNew(s, data, path, d, NamePart(path), s'.files);
      AppendShows(s.files[d], Entry(|s.files|, NamePart(path)));
      ImportKeeps(s, Host(data), path);
    }
    ImportAdds(s, data, path, d);
  }

  lemma KnownTable(s: State, data: seq<byte>, path: seq<byte>, d: nat)
    requires Inv(s) && CanImport(s, Host(data), path)
    requires CdTo(s, DirPart(path)).0 == d && IsDir(s.files, d) && NamePart(path) in DirTable(s.files[d])
    ensures var files' := DoImport(s, Host(data), path).0.files; d < |files'| && files'[d] == s.files[d]
  {
  }

  lemma ImportAdds(s: State, data: seq<byte>, path: seq<byte>, d: nat)
    requires Inv(s) && CanImport(s, Host(data), path)
    requires CdTo(s, DirPart(path)).0 == d && IsDir(s.files, d)
    ensures |DoImport(s, Host(data), path).0.files|
         == if NamePart(path) in DirTable(s.files[d]) then |s.files| else |s.files| + 1
  {
  }

  /** What an export of `name` in directory `d` delivers right after an import of `data` to it: with a
      known name the data and the old tail past them; with a new name the data, when the directory counts
      all its live entries, and else the file that the next of them stands for, or nothing when that
      entry has another name. */
  function CopyOut(s: State, d: nat, name: Name, data: seq<byte>): Out
    requires IsDir(s.files, d) && 0 <= s.files[d].cnt <= |Live(s.files[d].log)|
  {
    var f := s.files[d];
    if name in DirTable(f) then Got(Splice(Before(s, d, name), 0, data))
    else if f.cnt == |Live(f.log)| then Got(data)
    else
      var x := Live(f.log)[f.cnt];
      if x.name == name && 0 <= x.id < |s.files| then Got(Contents(s.files[x.id])) else Failed
  }

  /** The names of the directory part that a walk does not follow. */
  function Rest(s: State, path: seq<byte>): seq<Name> {
    Unfollowed(s.files, Start(s, DirPart(path)), Tokens(DirPart(path)))
  }

  /** The directory part leads to the same directory after an import as before: it was reached, or the name
      missing on the way is not the one that comes into view. */
  predicate Steady(s: State, path: seq<byte>) {
    var d := CdTo(s, DirPart(path)).0;
    && IsDir(s.files, d) && 0 <= s.files[d].cnt
    && (Rest(s, path) == [] || NamePart(path) in DirTable(s.files[d])
        || NextShown(s.files[d], Entry(|s.files|, NamePart(path))).name != Rest(s, path)[0])
  }

  /** Then it is found again. */
  lemma FoundAgain(s: State, data: seq<byte>, path: seq<byte>, d: nat)
    requires Inv(s) && CanImport(s, Host(data), path) && CdTo(s, DirPart(path)).0 == d && Steady(s, path)
    ensures var s' := DoImport(s, Host(data), path).0;
      Inv(s') && PathOk(s', DirPart(path)) && CdTo(s', DirPart(path)).0 == d && IsDir(s'.files, d)
  {
    var s', st, names := DoImport(s, Host(data), path).0, Start(s, DirPart(path)), Tokens(DirPart(path));
    var x := NextShown(s.files[d], Entry(|s.files|, NamePart(path)));
    ImportTable(s, data, path, d, x);
    WalkStops(s.files, st, names);
    WalkResumes(s.files, s'.files, st, names);
  }

  /** Import, then export the same path, in every case.  While the directory part leads where it led, what
      `CopyOut` says is delivered.  Otherwise the name that was missing on the way has come into view; the
      path goes on from there, and cannot be followed when that name stands for a regular file. */
  lemma ImportExport(s: State, data: seq<byte>, path: seq<byte>)
    requires Inv(s) && CanImport(s, Host(data), path)
    ensures var d := CdTo(s, DirPart(path)).0; var s' := DoImport(s, Host(data), path).0;
      && IsDir(s.files, d) && 0 <= s.files[d].cnt <= |Live(s.files[d].log)|
      && var x, rest := NextShown(s.files[d], Entry(|s.files|, NamePart(path))), Rest(s, path);
      if Steady(s, path) then
        CanExport(s', path) && DoExport(s', path).1 == CopyOut(s, d, NamePart(path), data)
      else
        && rest != [] && x.name == rest[0] && 0 <= x.id < |s'.files|
        && CdTo(s', DirPart(path)) == Walk(s'.files, x.id, rest[1..])
        && (CanExport(s', path) <==> WalkOk(s'.files, x.id, rest[1..]))
        && (s'.files[x.id].Reg? ==> !CanExport(s', path))
  {
    var d, name := CdTo(s, DirPart(path)).0, NamePart(path);
    CdKeeps(s, DirPart(path));
    assert DirOk(s.files, d);
    if !Steady(s, path) {
      ImportDiverted(s, data, path, d);
    } else if name in DirTable(s.files[d]) || s.files[d].cnt == |Live(s.files[d].log)| {
      ImportKept(s, data, path, d);
    } else if Live(s.files[d].log)[s.files[d].cnt].name == name {
      ImportStale(s, data, path, d);
    } else {
      ImportLost(s, data, path, d);
    }
  }

  /** The case in which the path goes on past where it stopped. */
  lemma ImportDiverted(s: State, data: seq<byte>, path: seq<byte>, d: nat)
    requires Inv(s) && CanImport(s, Host(data), path) && CdTo(s, DirPart(path)).0 == d
    requires IsDir(s.files, d) && 0 <= s.files[d].cnt && !Steady(s, path)
    ensures var s' := DoImport(s, Host(data), path).0;
      var x, rest := NextShown(s.files[d], Entry(|s.files|, NamePart(path))), Rest(s, path);
      && rest != [] && x.name == rest[0] && 0 <= x.id < |s'.files|
      && CdTo(s', DirPart(path)) == Walk(s'.files, x.id, rest[1..])
      && (CanExport(s', path) <==> WalkOk(s'.files, x.id, rest[1..]))
      && (s'.files[x.id].Reg? ==> !CanExport(s', path))
  {
    var s', st, names := DoImport(s, Host(data), path).0, Start(s, DirPart(path)), Tokens(DirPart(path));
    var x := NextShown(s.files[d], Entry(|s.files|, NamePart(path)));
    ImportTable(s, data, path, d, x);
    WalkStops(s.files, st, names);
    WalkResumes(s.files, s'.files, st, names);
    if WalkOk(s'.files, st, names) {
      WalkEnds(s'.files, st, names);
    }
  }

  /** The two cases in which the name stands for the imported file. */
  lemma ImportKept(s: State, data: seq<byte>, path: seq<byte>, d: nat)
    requires Inv(s) && CanImport(s, Host(data), path) && CdTo(s, DirPart(path)).0 == d && Steady(s, path)
    requires NamePart(path) !in DirTable(s.files[d]) ==> s.files[d].cnt == |Live(s.files[d].log)|
    ensures var s' := DoImport(s, Host(data), path).0; var before := Before(s, d, NamePart(path));
      && CanExport(s', path)
      && DoExport(s', path).1 == Got(Splice(before, 0, data))
      && (DoExport(s', path).1 == Got(data) <==> |before| <= |data|)
  {
    var s' := DoImport(s, Host(data), path).0;
    var i := Imported(s, data, path, d, NamePart(path));
    FoundAgain(s, data, path, d);
    Exported(s', path, d);
    SpliceOver(Before(s, d, NamePart(path)), data);
  }

  /** When the directory does not count all its live entries, the new entry stays out of sight.  If the next
      of the old ones has the same name, that one comes into view instead, and its file is delivered. */
  lemma ImportStale(s: State, data: seq<byte>, path: seq<byte>, d: nat)
    requires Inv(s) && CanImport(s, Host(data), path) && CdTo(s, DirPart(path)).0 == d && Steady(s, path)
    requires var f := s.files[d];
      NamePart(path) !in DirTable(f) && 0 <= f.cnt < |Live(f.log)| && Live(f.log)[f.cnt].name == NamePart(path)
    ensures var s' := DoImport(s, Host(data), path).0; var x := Live(s.files[d].log)[s.files[d].cnt];
      && CanExport(s', path) && 0 <= x.id < |s.files|
      && DoExport(s', path).1 == Got(Contents(s.files[x.id]))
  {
    var s' := DoImport(s, Host(data), path).0;
    ImportedNew(s, data, path, d, NamePart(path), s'.files);
    NextUncounted(s.files, d);
    ImportTable(s, data, path, d, Live(s.files[d].log)[s.files[d].cnt]);
    FoundAgain(s, data, path, d);
    Exported(s', path, d);
  }

  /** If it has another name, exporting fails. */
  lemma ImportLost(s: State, data: seq<byte>, path: seq<byte>, d: nat)
    requires Inv(s) && CanImport(s, Host(data), path) && CdTo(s, DirPart(path)).0 == d && Steady(s, path)
    requires var f := s.files[d];
      NamePart(path) !in DirTable(f) && 0 <= f.cnt < |Live(f.log)| && Live(f.log)[f.cnt].name != NamePart(path)
    ensures var s' := DoImport(s, Host(data), path).0; CanExport(s', path) && DoExport(s', path).1 == Failed
  {
    ImportTable(s, data, path, d, Live(s.files[d].log)[s.files[d].cnt]);
    FoundAgain(s, data, path, d);
    Exported(DoImport(s, Host(data), path).0, path, d);
  }

  /** What gives the host bytes back: the name was known and its file not longer, or new and the directory
      counted all its live entries, or new and the file that shows instead has the same bytes. */
  predicate ComesBack(s: State, d: nat, name: Name, data: seq<byte>)
    requires IsDir(s.files, d) && 0 <= s.files[d].cnt <= |Live(s.files[d].log)|
  {
    var f := s.files[d];
    if name in DirTable(f) then |Before(s, d, name)| <= |data|
    else
      || f.cnt == |Live(f.log)|
      || (var x := Live(f.log)[f.cnt];
          x.name == name && 0 <= x.id < |s.files| && Contents(s.files[x.id]) == data)
  }

  lemma CopyOutExact(s: State, d: nat, name: Name, data: seq<byte>)
    requires IsDir(s.files, d) && 0 <= s.files[d].cnt <= |Live(s.files[d].log)|
    ensures CopyOut(s, d, name, data) == Got(data) <==> ComesBack(s, d, name, data)
  {
    SpliceOver(Before(s, d, name), data);
  }

  /** While the directory part leads where it led, an export gives the host bytes back in exactly these cases. */
  lemma CopyExact(s: State, data: seq<byte>, path: seq<byte>)
    requires Inv(s) && CanImport(s, Host(data), path)
    ensures var d := CdTo(s, DirPart(path)).0; var name, s' := NamePart(path), DoImport(s, Host(data), path).0;
      && IsDir(s.files, d) && 0 <= s.files[d].cnt <= |Live(s.files[d].log)|
      && (Steady(s, path) ==>
            CanExport(s', path) && (DoExport(s', path).1 == Got(data) <==> ComesBack(s, d, name, data)))
  {
    ImportExport(s, data, path);
    CopyOutExact(s, CdTo(s, DirPart(path)).0, NamePart(path), data);
  }
}
