/** Directories whose counter counts the live entries and whose names are distinct, over whole runs. */
module Coherence {
  import opened Bytes
  import opened DirLog
  import opened Paths
  import opened Machine
  import opened Invariants
  import opened Order
  import opened Trees
  import opened Removal
  import opened History

  ghost predicate AllCoherent(files: seq<File>) {
    forall d {:trigger files[d]} :: IsDir(files, d) ==> Coherent(files[d])
  }

  /** A command that does not make a directory under a name already shown, and does not remove a name that
      the scan first meets in a deleted entry. */
  predicate Tidy(s: State, c: Cmd)
    requires Enabled(s, c)
  {
    match c
    case Mkdir(path) => NamePart(path) !in DirTable(s.files[CdTo(s, DirPart(path)).0])
    case Rm(name) =>
      var f := s.files[s.cwd];
      var r := FirstRaw(f.log, f.cnt, name);
      r < f.cnt ==> f.log[r].id != DELETED
    case _ => true
  }

  lemma AppendCoherent(f: File, e: Entry)
    requires f.Dir? && Coherent(f) && e.id != DELETED && e.name !in DirTable(f)
    ensures Coherent(Append(f, e))
  {
    LiveAppend(f.log, e);
    AllVisible(f);
    NamesJoin(Live(f.log), e);
  }

  /** Names stay distinct when the next one is not in the table. */
  lemma NamesJoin(es: seq<Entry>, e: Entry)
    requires forall p, q :: 0 <= p < q < |es| ==> es[p].name != es[q].name
    requires e.name !in Table(es)
    ensures forall p, q :: 0 <= p < q < |es + [e]| ==> (es + [e])[p].name != (es + [e])[q].name
  {
    forall p | 0 <= p < |es|
      ensures es[p].name != e.name
    {
      if es[p].name == e.name {
        NameEntered(es, e.name, p);
      }
    }
  }

  lemma UnlinkCoherent(f: File, p: nat)
    requires f.Dir? && Coherent(f) && p < |f.log| && f.log[p].id != DELETED
    ensures Coherent(Unlink(f, p))
  {
    LiveDelete(f.log, p);
    var es, k := Live(f.log), |Live(f.log[..p])|;
    var es' := Live(Unlink(f, p).log);
    forall i, j | 0 <= i < j < |es'|
      ensures es'[i].name != es'[j].name
    {
      assert es'[i] == es[if i < k then i else i + 1] && es'[j] == es[if j < k then j else j + 1];
    }
  }

  lemma EmptyCoherent(id: int, parent: int)
    requires id != DELETED && parent != DELETED
    ensures Coherent(EmptyDir(id, parent))
  {
    EmptyDirLive(id, parent);
  }

  lemma AddCoherent(files: seq<File>, d: nat, f: File, name: Name)
    requires AllCoherent(files) && IsDir(files, d) && name !in DirTable(files[d])
    requires f == EmptyFile() || f == EmptyDir(|files|, d)
    ensures AllCoherent(AddFile(files, d, f, name))
  {
    AppendCoherent(files[d], Entry(|files|, name));
    EmptyCoherent(|files|, d);
  }

  lemma OpenCoherent(s: State, path: seq<byte>, flag: Flag)
    requires Inv(s) && CanOpen(s, path, flag) && AllCoherent(s.files)
    ensures AllCoherent(DoOpen(s, path, flag).0.files)
  {
    var d, name := CdTo(s, DirPart(path)).0, NamePart(path);
    if flag.WriteFlag? && name !in DirTable(s.files[d]) {
      AddCoherent(s.files, d, EmptyFile(), name);
    }
  }

  lemma WriteCoherent(s: State, fd: int, data: seq<byte>)
    requires CanWrite(s, fd, data) && AllCoherent(s.files)
    ensures AllCoherent(DoWrite(s, fd, data).0.files)
  {
  }

  lemma ImportCoherent(s: State, host: HostFile, path: seq<byte>)
    requires Inv(s) && CanImport(s, host, path) && AllCoherent(s.files)
    ensures AllCoherent(DoImport(s, host, path).0.files)
  {
    OpenCoherent(s, path, WriteFlag);
    var (s1, o) := DoOpen(s, path, WriteFlag);
    if host.Host? {
      WriteCoherent(s1, o.fd, host.data);
    }
  }

  lemma RmCoherent(s: State, name: Name)
    requires CanRm(s, name) && AllCoherent(s.files) && Tidy(s, Rm(name))
    ensures AllCoherent(DoRm(s, name).0.files)
  {
    var f := s.files[s.cwd];
    var r := FirstRaw(f.log, f.cnt, name);
    if r < f.cnt {
      UnlinkCoherent(f, r);
    }
  }

  /** A removal whose scan first meets a deleted entry makes the counter wrong, whatever the directory. */
  lemma UntidyRm(s: State, name: Name)
    requires Inv(s) && CanRm(s, name) && AllCoherent(s.files) && !Tidy(s, Rm(name))
    ensures !AllCoherent(DoRm(s, name).0.files)
  {
    var f := s.files[s.cwd];
    var r := FirstRaw(f.log, f.cnt, name);
    assert Unlink(f, r).log == f.log;
    assert DoRm(s, name).0.files[s.cwd] == Unlink(f, r);
    assert !Coherent(DoRm(s, name).0.files[s.cwd]);
  }

  /** Nor does a directory made under a name already shown leave its parent's names distinct. */
  lemma UntidyMkdir(s: State, path: seq<byte>)
    requires Inv(s) && CanMkdir(s, path) && AllCoherent(s.files) && !Tidy(s, Mkdir(path))
    ensures !AllCoherent(DoMkdir(s, path).files)
  {
    CdKeeps(s, DirPart(path));
    var d, name := CdTo(s, DirPart(path)).0, NamePart(path);
    var f, e := s.files[d], Entry(|s.files|, NamePart(path));
    LiveAppend(f.log, e);
    AllVisible(f);
    var p := TableValue(Live(f.log), name);
    assert DoMkdir(s, path).files[d] == Append(f, e);
    assert !Coherent(Append(f, e)) by {
      var es := Live(Push(f.log, e));
      assert es[p].name == es[|Live(f.log)|].name;
    }
  }

  lemma TidyStep(s: State, c: Cmd)
    requires Inv(s) && Enabled(s, c) && AllCoherent(s.files) && Tidy(s, c)
    ensures AllCoherent(Step(s, c).0.files)
  {
    match c
    case Mkfs => EmptyCoherent(ROOT, ROOT);
    case Open(path, flag) => OpenCoherent(s, path, flag);
    case Mkdir(path) =>
      var d := CdTo(s, DirPart(path)).0;
      AddCoherent(s.files, d, EmptyDir(|s.files|, d), NamePart(path));
    case Write(fd, data) => WriteCoherent(s, fd, data);
    case Rm(name) => RmCoherent(s, name);
    case Import(host, path) => ImportCoherent(s, host, path);
    case Export(path) => OpenCoherent(s, path, ReadFlag);
    case Exec(path) => OpenReads(s, path);
    case _ =>
  }

  /** From coherent directories, a command leads to coherent directories exactly when it is tidy. */
  lemma StepCoherent(s: State, c: Cmd)
    requires Inv(s) && Enabled(s, c) && AllCoherent(s.files)
    ensures AllCoherent(Step(s, c).0.files) <==> Tidy(s, c)
  {
    if Tidy(s, c) {
      TidyStep(s, c);
    } else if c.Rm? {
      UntidyRm(s, c.name);
    } else {
      UntidyMkdir(s, c.path);
    }
  }

  ghost predicate TidyRun(s: State, cmds: seq<Cmd>)
    requires Runs(s, cmds)
    decreases |cmds|
  {
    |cmds| == 0 ||
    var m := |cmds| - 1;
    TidyRun(s, cmds[..m]) && Tidy(Run(s, cmds[..m]).0, cmds[m])
  }

  /** After a tidy run every directory is coherent, so each shows exactly its live entries. */
  lemma {:induction false} RunCoherent(s: State, cmds: seq<Cmd>)
    requires Inv(s) && Runs(s, cmds) && AllCoherent(s.files) && TidyRun(s, cmds)
    ensures AllCoherent(Run(s, cmds).0.files)
  {
    if |cmds| > 0 {
      var m := |cmds| - 1;
      RunCoherent(s, cmds[..m]);
      RunInv(s, cmds[..m]);
      StepCoherent(Run(s, cmds[..m]).0, cmds[m]);
    }
  }

  // ---------- the listing of coherent directories ----------

  lemma {:induction false} LeadsOn(files: seq<File>, d: int, path: Path, name: Name)
    requires Leads(files, d, path) && Shows(files, End(files, d, path), name)
    ensures Leads(files, d, path + [name])
    ensures End(files, d, path + [name]) == Child(files, End(files, d, path), name)
    decreases |path|
  {
    assert (path + [name])[1..] == path[1..] + [name];
    if |path| == 1 {
      assert path[1..] + [name] == [name];
    } else {
      LeadsOn(files, Child(files, d, path[0]), path[1..], name);
    }
  }

  /** Directory `c` is `root` itself, or the path leads to it. */
  predicate ComesTo(files: seq<File>, root: int, path: Path, c: int) {
    if path == [] then c == root else Leads(files, root, path) && End(files, root, path) == c
  }

  /** Where all directories are coherent, every live entry past the first two, of every directory that a path
      leads to, has exactly one line: at its path, with its name, and no other line is for its inode. */
  lemma EntryListed(files: seq<File>, root: int, depth: int, lines: seq<Line>, paths: seq<Path>,
                    path: Path, c: nat, r: nat)
    returns (i: nat)
    requires FilesOk(files) && AllCoherent(files) && Lists(files, root, depth, lines, paths)
    requires ComesTo(files, root, path, c) && IsDir(files, c)
    requires 2 <= r < |files[c].log| && files[c].log[r].id != DELETED
    ensures i < |paths| == |lines| && paths[i] == path + [files[c].log[r].name]
    ensures lines[i] == Line(depth + |path|, files[c].log[r].name)
    ensures forall j :: 0 <= j < |paths| ==> Leads(files, root, paths[j])
    ensures forall j :: 0 <= j < |paths| && End(files, root, paths[j]) == files[c].log[r].id ==> j == i
  {
    var e := files[c].log[r];
    LiveShown(files, c, r);
    if path == [] {
      assert [] + [e.name] == [e.name];
    } else {
      LeadsOn(files, root, path, e.name);
    }
    assert path + [e.name] in paths;
    i :| 0 <= i < |paths| && paths[i] == path + [e.name];
    forall j | 0 <= j < |paths|
      ensures Leads(files, root, paths[j]) && (End(files, root, paths[j]) == e.id ==> j == i)
    {
      assert paths[j] in paths;
      if j != i {
        ListedOnce(files, root, depth, lines, paths, if j < i then j else i, if j < i then i else j);
      }
    }
  }
}
