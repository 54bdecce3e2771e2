/** What cannot be undone: ids, blocks and bytes over whole runs between two formattings. */
module History {
  import opened Bytes
  import opened Layout
  import opened BlockMap
  import opened Representation
  import opened DirLog
  import opened Paths
  import opened Machine
  import opened Invariants

  /** No inode goes or changes its kind, and no file loses a block. */
  ghost predicate Grew(files: seq<File>, files': seq<File>) {
    && |files| <= |files'|
    && forall i :: 0 <= i < |files| ==> files'[i].Dir? == files[i].Dir? && files[i].cap <= files'[i].cap
  }

  lemma {:induction false} UsedGrew(files: seq<File>, files': seq<File>)
    requires Grew(files, files')
    ensures Used(files) <= Used(files')
    decreases |files'|
  {
    if |files'| > 0 {
      var m := |files'| - 1;
      if |files| == |files'| {
        UsedGrew(files[..m], files'[..m]);
      } else {
        UsedGrew(files, files'[..m]);
      }
    }
  }

  /** The inode whose bytes a command writes, -1 when it writes none. */
  function Target(s: State, c: Cmd): int
    requires Enabled(s, c)
  {
    match c
    case Write(fd, data) => if fd in s.fds then s.fds[fd].inode else -1
    case Import(host, path) =>
      var (s1, o) := DoOpen(s, path, WriteFlag);
      if host.Host? && o.fd in s1.fds then s1.fds[o.fd].inode else -1
    case _ => -1
  }

  /** Regular files other than `target` keep their bytes. */
  ghost predicate Untouched(files: seq<File>, files': seq<File>, target: int) {
    forall i :: 0 <= i < |files| && i < |files'| && files[i].Reg? && i != target ==> files'[i] == files[i]
  }

  lemma WriteGrew(s: State, fd: int, data: seq<byte>)
    requires Inv(s) && CanWrite(s, fd, data)
    ensures Grew(s.files, DoWrite(s, fd, data).0.files)
  {
    if fd in s.fds {
      var i := s.fds[fd].inode;
      assert Shaped(s.files[i]);
      GrowCapFacts(s.files[i].cap, WriteEnd(s.fds[fd].pos, |data|));
    }
  }

  lemma AddGrew(files: seq<File>, d: nat, f: File, name: Name)
    requires FilesOk(files) && IsDir(files, d) && AppendEnd(files[d], name) <= CAP1
    ensures Grew(files, AddFile(files, d, f, name)) && Untouched(files, AddFile(files, d, f, name), -1)
  {
    assert Shaped(files[d]);
    GrowCapFacts(files[d].cap, AppendEnd(files[d], name));
  }

  lemma OpenGrew(s: State, path: seq<byte>, flag: Flag)
    requires Inv(s) && CanOpen(s, path, flag)
    ensures var files' := DoOpen(s, path, flag).0.files;
      Grew(s.files, files') && |files'| <= |s.files| + 1 && Untouched(s.files, files', -1)
  {
    CdKeeps(s, DirPart(path));
    var d, name := CdTo(s, DirPart(path)).0, NamePart(path);
    if flag.WriteFlag? && name !in DirTable(s.files[d]) {
      AddGrew(s.files, d, EmptyFile(), name);
    }
  }

  /** Opening for reading leaves the files as they are. */
  lemma OpenReads(s: State, path: seq<byte>)
    requires CanOpen(s, path, ReadFlag)
    ensures DoOpen(s, path, ReadFlag).0.files == s.files && DoExec(s, path).0.files == s.files
  {
  }

  lemma MkdirGrew(s: State, path: seq<byte>)
    requires Inv(s) && CanMkdir(s, path)
    ensures var files' := DoMkdir(s, path).files;
      Grew(s.files, files') && |files'| == |s.files| + 1 && Untouched(s.files, files', -1)
  {
    CdKeeps(s, DirPart(path));
    AddGrew(s.files, CdTo(s, DirPart(path)).0, EmptyDir(|s.files|, CdTo(s, DirPart(path)).0), NamePart(path));
  }

  lemma ImportGrew(s: State, host: HostFile, path: seq<byte>)
    requires Inv(s) && CanImport(s, host, path)
    ensures var files' := DoImport(s, host, path).0.files;
      && Grew(s.files, files') && |files'| <= |s.files| + 1
      && Untouched(s.files, files', Target(s, Import(host, path)))
  {
    OpenGrew(s, path, WriteFlag);
    OpenKeeps(s, path, WriteFlag);
    var (s1, o) := DoOpen(s, path, WriteFlag);
    if host.Host? {
      WriteGrew(s1, o.fd, host.data);
    }
  }

  /** A command other than formatting makes at most one inode, which gets the next id, takes no inode and
      no block away, and writes no regular file but its target. */
  lemma StepGrew(s: State, c: Cmd)
    requires Inv(s) && Enabled(s, c) && !c.Mkfs?
    ensures var files' := Step(s, c).0.files;
      Grew(s.files, files') && |files'| <= |s.files| + 1 && Untouched(s.files, files', Target(s, c))
  {
    match c
    case Open(path, flag) => OpenGrew(s, path, flag);
    case Mkdir(path) => MkdirGrew(s, path);
    case Write(fd, data) => WriteGrew(s, fd, data);
    case Import(host, path) => ImportGrew(s, host, path);
    case Export(path) => OpenGrew(s, path, ReadFlag);
    case Exec(path) => OpenReads(s, path);
    case _ =>
  }

  predicate NoMkfs(cmds: seq<Cmd>) {
    forall k :: 0 <= k < |cmds| ==> !cmds[k].Mkfs?
  }

  /** Over a whole run without formatting, inodes and blocks in use only grow. */
  lemma {:induction false} RunGrew(s: State, cmds: seq<Cmd>)
    requires Inv(s) && Runs(s, cmds) && NoMkfs(cmds)
    ensures Grew(s.files, Run(s, cmds).0.files) && Used(s.files) <= Used(Run(s, cmds).0.files)
    ensures |Run(s, cmds).0.files| <= |s.files| + |cmds|
  {
    if |cmds| > 0 {
      var m := |cmds| - 1;
      RunGrew(s, cmds[..m]);
      RunInv(s, cmds[..m]);
      StepGrew(Run(s, cmds[..m]).0, cmds[m]);
      UsedGrew(s.files, Run(s, cmds).0.files);
    }
  }

  /** No command of the run writes inode `i`. */
  ghost predicate Spares(s: State, cmds: seq<Cmd>, i: int)
    requires Runs(s, cmds)
    decreases |cmds|
  {
    |cmds| == 0 ||
    var m := |cmds| - 1;
    Spares(s, cmds[..m], i) && !cmds[m].Mkfs? && Target(Run(s, cmds[..m]).0, cmds[m]) != i
  }

  /** A regular file that no command of a run writes has the same bytes at its end, whatever the run
      wrote, made and removed elsewhere. */
  lemma {:induction false} RunSpares(s: State, cmds: seq<Cmd>, i: nat)
    requires Inv(s) && Runs(s, cmds) && Spares(s, cmds, i) && i < |s.files| && s.files[i].Reg?
    ensures i < |Run(s, cmds).0.files| && Run(s, cmds).0.files[i] == s.files[i]
  {
    if |cmds| > 0 {
      var m := |cmds| - 1;
      RunSpares(s, cmds[..m], i);
      RunInv(s, cmds[..m]);
      StepGrew(Run(s, cmds[..m]).0, cmds[m]);
    }
  }

  // ---------- on the disk ----------

  /** The data map marks the first `Used(files)` blocks and no other. */
  lemma MapsShow(d: seq<byte>, nodes: seq<Node>, owner: seq<Slot>, icnt: int, files: seq<File>)
    requires Rep(d, nodes, owner, icnt, files)
    ensures MapPrefix(d, DMAP, DNUM, Used(files))
    ensures |files| <= icnt && MapPrefix(d, IMAP, INUM, icnt)
    ensures Used(files) < DNUM ==> icnt == |files|
  {
    OwnedIsUsed(d, nodes, files);
  }

  /** Bytes of the two maps stay or go from 0 to 1. */
  ghost predicate MapsKept(d: seq<byte>, d': seq<byte>) {
    && |d| == |d'| == DISK_SIZE
    && (forall a :: IMAP <= a < IMAP + INUM ==> d[a] <= d'[a] <= 1)
    && (forall a :: DMAP <= a < DMAP + DNUM ==> d[a] <= d'[a] <= 1)
  }

  /** Between the disks at the two ends of such a run, map bytes only go from 0 to 1. */
  lemma MapsGrew(s: State, cmds: seq<Cmd>, d: seq<byte>, nodes: seq<Node>, owner: seq<Slot>, icnt: int,
                 d': seq<byte>, nodes': seq<Node>, owner': seq<Slot>, icnt': int)
    requires Inv(s) && Runs(s, cmds) && NoMkfs(cmds)
    requires Rep(d, nodes, owner, icnt, s.files) && Rep(d', nodes', owner', icnt', Run(s, cmds).0.files)
    requires icnt <= icnt'
    ensures MapsKept(d, d')
  {
    RunGrew(s, cmds);
    MapsShow(d, nodes, owner, icnt, s.files);
    MapsShow(d', nodes', owner', icnt', Run(s, cmds).0.files);
  }
}
