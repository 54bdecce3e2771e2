/** What every command keeps, and hence what holds after every run. */
module Invariants {
  import opened Bytes
  import opened Layout
  import opened DirLog
  import opened Paths
  import opened Machine

  predicate Shaped(f: File) {
    DSIZE <= f.cap <= CAP1 && f.cap % DSIZE == 0 && Size(f) <= f.cap
  }

  /** An entry other than the first two is deleted, or names an inode younger than its directory;
      a directory so named has this one as its `..`. */
  predicate EntryOk(files: seq<File>, d: int, e: Entry) {
    e.id == DELETED ||
    (0 <= d < e.id < |files| && (files[e.id].Dir? ==> |files[e.id].log| >= 2 && files[e.id].log[1].id == d))
  }

  ghost predicate DirOk(files: seq<File>, d: int)
    requires IsDir(files, d)
  {
    var f := files[d];
    && |f.log| >= 2
    && f.log[0] == Entry(d, DOT)
    && f.log[1].name == DOTDOT && f.log[1].id <= d && IsDir(files, f.log[1].id)
    && 2 <= f.cnt <= |Live(f.log)|
    && forall r {:trigger EntryOk(files, d, f.log[r])} :: 2 <= r < |f.log| ==> EntryOk(files, d, f.log[r])
  }

  /** Raw entry `r` of directory `d` names inode `id`. */
  predicate Links(files: seq<File>, d: int, r: int, id: int) {
    IsDir(files, d) && 2 <= r < |files[d].log| && files[d].log[r].id == id
  }

  /** No inode is named by two entries, self and parent entries aside. */
  ghost predicate UniqueLinks(files: seq<File>) {
    forall d, r, d', r', id :: id != DELETED && Links(files, d, r, id) && Links(files, d', r', id) ==>
        d == d' && r == r'
  }

  ghost predicate AllShaped(files: seq<File>) {
    forall i {:trigger Shaped(files[i])} :: 0 <= i < |files| ==> Shaped(files[i])
  }

  ghost predicate DirsOk(files: seq<File>) {
    forall d {:trigger DirOk(files, d)} :: IsDir(files, d) ==> DirOk(files, d)
  }

  ghost predicate FilesOk(files: seq<File>) {
    && IsDir(files, ROOT)
    && AllShaped(files)
    && DirsOk(files)
    && UniqueLinks(files)
  }

  ghost predicate FdsOk(s: State) {
    && s.fdCnt >= -1
    && forall fd :: fd in s.fds ==> 0 <= fd <= s.fdCnt && s.fds[fd].inode < |s.files|
  }

  ghost predicate Inv(s: State) {
    FilesOk(s.files) && IsDir(s.files, s.cwd) && FdsOk(s)
  }

  // ---------- the name table of a well-formed directory ----------

  lemma FirstTwoLive(files: seq<File>, d: int)
    requires IsDir(files, d) && DirOk(files, d)
    ensures var es := Visible(files[d].cnt, files[d].log);
      |es| == files[d].cnt >= 2 && es[0] == files[d].log[0] && es[1] == files[d].log[1]
  {
    var log := files[d].log;
    assert log[..1][..0] == [];
    LiveStep(log, 0);
    LiveStep(log, 1);
    assert Live(log[..0]) == [];
    LivePrefix(log, 2);
  }

  lemma DotEntries(files: seq<File>, d: int)
    requires IsDir(files, d) && DirOk(files, d)
    ensures var t := DirTable(files[d]);
      && DOT in t && t[DOT] == d
      && DOTDOT in t && t[DOTDOT] == files[d].log[1].id
  {
    var es := Visible(files[d].cnt, files[d].log);
    FirstTwoLive(files, d);
    assert FirstAt(es, DOT, 0);
    assert FirstAt(es, DOTDOT, 1);
    TableFirstWins(es, DOT);
    TableFirstWins(es, DOTDOT);
  }

  /** A name the table maps to `id` comes from a live raw entry. */
  lemma TableEntry(files: seq<File>, d: int, name: Name) returns (r: nat)
    requires IsDir(files, d) && DirOk(files, d) && name in DirTable(files[d])
    ensures r < |files[d].log| && files[d].log[r] == Entry(DirTable(files[d])[name], name)
    ensures files[d].log[r].id != DELETED
    ensures 0 <= DirTable(files[d])[name] < |files|
    ensures name != DOT && name != DOTDOT ==> r >= 2 && d < DirTable(files[d])[name]
  {
    var f := files[d];
    var p := TableValue(Visible(f.cnt, f.log), name);
    r := LiveAt(f.log, p);
    FirstTwoLive(files, d);
    if r >= 2 {
      assert EntryOk(files, d, f.log[r]);
    }
  }

  /** One step of a walk. */
  lemma WalkStep(files: seq<File>, d: nat, names: seq<Name>)
    requires FilesOk(files) && WalkOk(files, d, names) && |names| > 0
    ensures names[0] !in DirTable(files[d]) ==> Walk(files, d, names) == (d, false)
    ensures names[0] in DirTable(files[d]) ==>
      var c := DirTable(files[d])[names[0]];
      IsDir(files, c) && WalkOk(files, c, names[1..]) && Walk(files, d, names) == Walk(files, c, names[1..])
  {
    assert DirOk(files, d);
    if names[0] in DirTable(files[d]) {
      var r := TableEntry(files, d, names[0]);
    }
  }

  /** A walk along the names from index `k` on, through directories only, leads from `d` to `goal`. */
  predicate Walking(files: seq<File>, d: nat, names: seq<Name>, k: nat, goal: (nat, bool))
    decreases |names| - k
  {
    && IsDir(files, d)
    && if k >= |names| then goal == (d, true)
       else if names[k] in DirTable(files[d]) && DirTable(files[d])[names[k]] >= 0 then
         Walking(files, DirTable(files[d])[names[k]], names, k + 1, goal)
       else goal == (d, false)
  }

  lemma {:induction false} WalkingIs(files: seq<File>, d: nat, names: seq<Name>, k: nat)
    requires k <= |names| && WalkOk(files, d, names[k..])
    ensures Walking(files, d, names, k, Walk(files, d, names[k..]))
    decreases |names| - k
  {
    if k < |names| && names[k] in DirTable(files[d]) && DirTable(files[d])[names[k]] >= 0 {
      assert names[k..][1..] == names[k + 1..];
      WalkingIs(files, DirTable(files[d])[names[k]], names, k + 1);
    }
  }

  /** One step of it, by the id that looking the name up gives. */
  lemma WalkingOn(files: seq<File>, d: nat, names: seq<Name>, k: nat, goal: (nat, bool), id: int)
    requires FilesOk(files) && Walking(files, d, names, k, goal) && k < |names|
    requires id == if names[k] in DirTable(files[d]) then DirTable(files[d])[names[k]] else -1
    ensures if id == -1 then goal == (d, false) else IsDir(files, id) && Walking(files, id, names, k + 1, goal)
  {
    assert DirOk(files, d);
    if names[k] in DirTable(files[d]) {
      var r := TableEntry(files, d, names[k]);
    }
  }

  /** A walk along directories ends in a directory. */
  lemma {:induction false} WalkEnds(files: seq<File>, d: nat, names: seq<Name>)
    requires FilesOk(files) && WalkOk(files, d, names)
    ensures IsDir(files, Walk(files, d, names).0)
    decreases |names|
  {
    if |names| > 0 && names[0] in DirTable(files[d]) && DirTable(files[d])[names[0]] >= 0 {
      WalkEnds(files, DirTable(files[d])[names[0]], names[1..]);
    }
  }

  // ---------- preservation ----------

  /** Growing stops at the first multiple of the block size that the write fits in. */
  lemma {:induction false} GrowCapFacts(cap: nat, end: int)
    requires DSIZE <= cap <= CAP1 && cap % DSIZE == 0 && end <= CAP1
    ensures var c := GrowCap(cap, end);
      DSIZE <= c <= CAP1 && c % DSIZE == 0 && end <= c && cap <= c
    ensures GrowCap(cap, end) == Max(cap, RoundUp(end))
    ensures NewBlocks(cap, end) == BlocksFor(GrowCap(cap, end)) - BlocksFor(cap)
    decreases end - cap
  {
    if end > cap {
      GrowCapFacts(cap + DSIZE, end);
    }
  }

  /** Growing in two steps is growing once. */
  lemma {:induction false} GrowCapTwice(cap: nat, end: int, end': int)
    requires end <= end'
    ensures GrowCap(GrowCap(cap, end), end') == GrowCap(cap, end')
    ensures NewBlocks(cap, end) + NewBlocks(GrowCap(cap, end), end') == NewBlocks(cap, end')
    decreases end - cap
  {
    if end > cap {
      GrowCapTwice(cap + DSIZE, end, end');
    }
  }

  /** Adding inodes and rewriting others keeps a directory well formed when its own log is kept. */
  lemma DirOkFrame(files: seq<File>, files': seq<File>, d: int)
    requires IsDir(files, d) && DirOk(files, d) && |files| <= |files'| && files'[d] == files[d]
    requires forall i :: 0 <= i < |files| && i != d ==> files'[i].Dir? == files[i].Dir?
    requires forall i :: 0 <= i < |files| && files[i].Dir? && |files[i].log| >= 2 ==>
               |files'[i].log| >= 2 && files'[i].log[1] == files[i].log[1]
    ensures DirOk(files', d)
  {
    forall r | 2 <= r < |files[d].log|
      ensures EntryOk(files', d, files'[d].log[r])
    {
      assert EntryOk(files, d, files[d].log[r]);
    }
  }

  lemma UniqueFrom(files: seq<File>, files': seq<File>)
    requires UniqueLinks(files)
    requires forall d, r, id :: id != DELETED && Links(files', d, r, id) ==> Links(files, d, r, id)
    ensures UniqueLinks(files')
  {
  }

  lemma WriteShaped(f: File, off: int, data: seq<byte>)
    requires Shaped(f) && f.Reg?
    requires 0 <= off && WriteEnd(off, |data|) <= CAP1
    ensures Shaped(WriteFile(f, off, data))
  {
    GrowCapFacts(f.cap, WriteEnd(off, |data|));
  }

  lemma WriteKeeps(files: seq<File>, i: nat, off: int, data: seq<byte>)
    requires FilesOk(files) && i < |files| && files[i].Reg?
    requires 0 <= off && WriteEnd(off, |data|) <= CAP1
    ensures FilesOk(files[i := WriteFile(files[i], off, data)])
  {
    var f' := WriteFile(files[i], off, data);
    assert Shaped(files[i]);
    WriteShaped(files[i], off, data);
    RegKeeps(files, i, f');
  }

  lemma RegKeeps(files: seq<File>, i: nat, f': File)
    requires FilesOk(files) && i < |files| && files[i].Reg? && f'.Reg? && Shaped(f')
    ensures FilesOk(files[i := f'])
  {
    var files' := files[i := f'];
    forall d | IsDir(files', d)
      ensures DirOk(files', d)
    {
      assert DirOk(files, d);
      DirOkFrame(files, files', d);
    }
    UniqueFrom(files, files');
  }

  lemma AppendShaped(f: File, e: Entry)
    requires f.Dir? && Shaped(f)
    requires AppendEnd(f, e.name) <= CAP1
    ensures Shaped(Append(f, e))
  {
    GrowCapFacts(f.cap, AppendEnd(f, e.name));
    PushFront(f.log, e);
  }

  lemma AddKeeps(files: seq<File>, d: nat, f: File, name: Name)
    requires FilesOk(files) && IsDir(files, d)
    requires f == EmptyFile() || f == EmptyDir(|files|, d)
    requires AppendEnd(files[d], name) <= CAP1
    ensures FilesOk(AddFile(files, d, f, name))
  {
    assert Shaped(files[d]);
    AppendShaped(files[d], Entry(|files|, name));
    EmptyShaped(|files|, d);
    AddKeepsDirs(files, d, f, name);
    AddKeepsUnique(files, d, f, name);
  }

  lemma AddKeepsDirs(files: seq<File>, d: nat, f: File, name: Name)
    requires DirsOk(files) && IsDir(files, d)
    requires f == EmptyFile() || f == EmptyDir(|files|, d)
    ensures DirsOk(AddFile(files, d, f, name))
  {
    var n := |files|;
    var files' := AddFile(files, d, f, name);
    assert DirOk(files, d);
    forall c | IsDir(files', c)
      ensures DirOk(files', c)
    {
      if c == n {
        EmptyDirLive(n, d);
      } else if c == d {
        AppendedDirOk(files, d, f, name);
      } else {
        assert DirOk(files, c);
        DirOkFrame(files, files', c);
      }
    }
  }

  lemma AppendedDirOk(files: seq<File>, d: nat, f: File, name: Name)
    requires IsDir(files, d) && DirOk(files, d)
    requires f == EmptyFile() || f == EmptyDir(|files|, d)
    ensures DirOk(AddFile(files, d, f, name), d)
  {
    var files' := AddFile(files, d, f, name);
    LiveAppend(files[d].log, Entry(|files|, name));
    forall r | 2 <= r < |files'[d].log|
      ensures EntryOk(files', d, files'[d].log[r])
    {
      if r < |files[d].log| {
        assert EntryOk(files, d, files[d].log[r]);
      }
    }
  }

  lemma EmptyShaped(id: int, parent: int)
    ensures Shaped(EmptyFile()) && Shaped(EmptyDir(id, parent))
    ensures Size(EmptyDir(id, parent)) == 23
  {
    var log := [Entry(id, DOT), Entry(parent, DOTDOT)];
    assert log[..1] == [Entry(id, DOT)];
    assert log[..1][..0] == [];
    assert LogSize(log) == LogSize(log[..1]) + 8 + |log[1].name|;
  }

  lemma EmptyDirLive(id: int, parent: int)
    requires id != DELETED && parent != DELETED
    ensures Live(EmptyDir(id, parent).log) == EmptyDir(id, parent).log
  {
    var log := EmptyDir(id, parent).log;
    assert log[..1][..0] == [] && log[..2] == log;
    LiveStep(log, 0);
    LiveStep(log, 1);
  }

  lemma AddKeepsUnique(files: seq<File>, d: nat, f: File, name: Name)
    requires DirsOk(files) && UniqueLinks(files) && IsDir(files, d)
    requires f == EmptyFile() || f == EmptyDir(|files|, d)
    ensures UniqueLinks(AddFile(files, d, f, name))
  {
    var n := |files|;
    var files' := AddFile(files, d, f, name);
    assert DirOk(files, d);
    forall c, r, id | id != DELETED && Links(files', c, r, id)
      ensures if id == n then c == d && r == |files[d].log| else Links(files, c, r, id)
    {
      if c < n && r < |files[c].log| {
        assert DirOk(files, c);
        assert EntryOk(files, c, files[c].log[r]);
      }
    }
    forall c, r, c', r', id | id != DELETED && Links(files', c, r, id) && Links(files', c', r', id)
      ensures c == c' && r == r'
    {
      if id != n {
        assert Links(files, c, r, id) && Links(files, c', r', id);
      }
    }
  }

  lemma UnlinkShaped(f: File, r: nat)
    requires f.Dir? && r < |f.log| && Shaped(f)
    ensures Shaped(Unlink(f, r))
  {
    DeleteSize(f.log, r);
  }

  lemma {:induction false} DeleteSize(log: seq<Entry>, r: nat)
    requires r < |log|
    ensures LogSize(log[r := Entry(DELETED, log[r].name)]) == LogSize(log)
  {
    var m := |log| - 1;
    var log' := log[r := Entry(DELETED, log[r].name)];
    if r == m {
      assert log'[..m] == log[..m];
    } else {
      DeleteSize(log[..m], r);
      assert log'[..m] == log[..m][r := Entry(DELETED, log[..m][r].name)];
    }
  }

  lemma RmKeeps(files: seq<File>, d: nat, r: nat)
    requires FilesOk(files) && IsDir(files, d)
    requires 2 <= r < files[d].cnt && r < |files[d].log|
    ensures FilesOk(files[d := Unlink(files[d], r)])
  {
    assert Shaped(files[d]);
    UnlinkShaped(files[d], r);
    RmKeepsDirs(files, d, r);
    UniqueFrom(files, files[d := Unlink(files[d], r)]);
  }

  lemma RmKeepsDirs(files: seq<File>, d: nat, r: nat)
    requires DirsOk(files) && IsDir(files, d)
    requires 2 <= r < files[d].cnt && r < |files[d].log|
    ensures DirsOk(files[d := Unlink(files[d], r)])
  {
    var files' := files[d := Unlink(files[d], r)];
    assert DirOk(files, d);
    forall c | IsDir(files', c)
      ensures DirOk(files', c)
    {
      if c == d {
        UnlinkedDirOk(files, d, r);
      } else {
        assert DirOk(files, c);
        DirOkFrame(files, files', c);
      }
    }
  }

  lemma UnlinkedDirOk(files: seq<File>, d: nat, r: nat)
    requires DirsOk(files) && IsDir(files, d)
    requires 2 <= r < files[d].cnt && r < |files[d].log|
    ensures DirOk(files[d := Unlink(files[d], r)], d)
  {
    var f := files[d];
    var files' := files[d := Unlink(f, r)];
    assert DirOk(files, d);
    if f.log[r].id == DELETED {
      assert f.log[r := Entry(DELETED, f.log[r].name)] == f.log;
    } else {
      LiveDelete(f.log, r);
    }
    forall q | 2 <= q < |f.log|
      ensures EntryOk(files', d, files'[d].log[q])
    {
      assert EntryOk(files, d, f.log[q]);
    }
  }

  lemma RegisterKeeps(s: State, id: nat)
    requires FilesOk(s.files) && IsDir(s.files, s.cwd) && FdsOk(s) && id < |s.files|
    ensures Inv(Register(s, id))
  {
  }

  lemma CreateKeeps(s: State, d: nat, f: File, name: Name)
    requires Inv(s) && IsDir(s.files, d)
    requires f == EmptyFile() || f == EmptyDir(|s.files|, d)
    requires AddFits(s.files, d, name)
    ensures Inv(s.(files := AddFile(s.files, d, f, name)))
  {
    AddKeeps(s.files, d, f, name);
  }

  lemma OpenHereKeeps(s: State, name: Name, flag: Flag)
    requires Inv(s) && CanOpenHere(s, name, flag)
    ensures Inv(OpenHere(s, name, flag).0)
    ensures |s.files| <= |OpenHere(s, name, flag).0.files|
    ensures forall d :: IsDir(s.files, d) ==> IsDir(OpenHere(s, name, flag).0.files, d)
    ensures name in DirTable(s.files[s.cwd]) ==> 0 <= DirTable(s.files[s.cwd])[name] < |s.files|
  {
    if name in DirTable(s.files[s.cwd]) {
      assert DirOk(s.files, s.cwd);
      var r := TableEntry(s.files, s.cwd, name);
      RegisterKeeps(s, DirTable(s.files[s.cwd])[name]);
    } else if flag.WriteFlag? {
      CreateKeeps(s, s.cwd, EmptyFile(), name);
      RegisterKeeps(s.(files := AddFile(s.files, s.cwd, EmptyFile(), name)), |s.files|);
    }
  }

  /** Coming back to a directory. */
  lemma ReturnKeeps(s: State, d: nat)
    requires Inv(s) && IsDir(s.files, d)
    ensures Inv(s.(cwd := d))
  {
  }

  lemma OpenKeeps(s: State, path: seq<byte>, flag: Flag)
    requires Inv(s) && CanOpen(s, path, flag)
    ensures Inv(DoOpen(s, path, flag).0)
  {
    CdKeeps(s, DirPart(path));
    var s1 := s.(cwd := CdTo(s, DirPart(path)).0);
    OpenHereKeeps(s1, NamePart(path), flag);
    ReturnKeeps(OpenHere(s1, NamePart(path), flag).0, s.cwd);
  }

  lemma MkdirKeeps(s: State, path: seq<byte>)
    requires Inv(s) && CanMkdir(s, path)
    ensures Inv(DoMkdir(s, path))
  {
    CdKeeps(s, DirPart(path));
    MkdirHereKeeps(s.(cwd := CdTo(s, DirPart(path)).0), NamePart(path));
    ReturnKeeps(MkdirHere(s.(cwd := CdTo(s, DirPart(path)).0), NamePart(path)), s.cwd);
  }

  lemma MkdirHereKeeps(s: State, name: Name)
    requires Inv(s) && CanMkdirHere(s, name)
    ensures Inv(MkdirHere(s, name))
    ensures forall d :: IsDir(s.files, d) ==> IsDir(MkdirHere(s, name).files, d)
  {
    CreateKeeps(s, s.cwd, EmptyDir(|s.files|, s.cwd), name);
  }

  /** Moving a descriptor's position, or closing it, keeps the invariant. */
  lemma DescKeeps(s: State, fd: int, off: int)
    requires Inv(s)
    ensures fd in s.fds ==> Inv(s.(fds := s.fds[fd := Desc(s.fds[fd].inode, off)]))
    ensures Inv(DoClose(s, fd))
  {
  }

  lemma CdKeeps(s: State, path: seq<byte>)
    requires Inv(s) && PathOk(s, path)
    ensures Inv(s.(cwd := CdTo(s, path).0))
  {
    WalkEnds(s.files, Start(s, path), Tokens(path));
  }

  lemma ImportKeeps(s: State, host: HostFile, path: seq<byte>)
    requires Inv(s) && CanImport(s, host, path)
    ensures Inv(DoImport(s, host, path).0)
  {
    OpenKeeps(s, path, WriteFlag);
    var (s1, o) := DoOpen(s, path, WriteFlag);
    if host.Host? {
      WriteStepKeeps(s1, o.fd, host.data);
    }
  }

  lemma InvStep(s: State, c: Cmd)
    requires Inv(s) && Enabled(s, c)
    ensures Inv(Step(s, c).0)
  {
    match c
    case Mkfs => FormattedInv(s.fdCnt);
    case Open(path, flag) => OpenKeeps(s, path, flag);
    case Mkdir(path) => MkdirKeeps(s, path);
    case Cd(path) => CdKeeps(s, path);
    case Seek(fd, off) => DescKeeps(s, fd, off);
    case Write(fd, data) => WriteStepKeeps(s, fd, data);
    case Read(fd, len) =>
      if fd in s.fds {
        DescKeeps(s, fd, s.fds[fd].pos + len);
      }
    case Close(fd) => DescKeeps(s, fd, 0);
    case Rm(name) => RmStepKeeps(s, name);
    case Import(host, path) => ImportKeeps(s, host, path);
    case Export(path) => ExportKeeps(s, path);
    case Ls =>
    case Cat(name) =>
    case Tree =>
    case Exec(path) => ExecKeeps(s, path);
  }

  lemma ExportKeeps(s: State, path: seq<byte>)
    requires Inv(s) && CanExport(s, path)
    ensures Inv(DoExport(s, path).0)
  {
    OpenKeeps(s, path, ReadFlag);
    var (s1, o) := DoOpen(s, path, ReadFlag);
    DescKeeps(s1, if o.Opened? then o.fd else -1, 0);
    DescKeeps(s1, -1, 0);
  }

  lemma ExecKeeps(s: State, path: seq<byte>)
    requires Inv(s) && CanOpen(s, path, ReadFlag)
    ensures Inv(DoExec(s, path).0)
  {
    OpenKeeps(s, path, ReadFlag);
    var (s1, o) := DoOpen(s, path, ReadFlag);
    if o.Opened? {
      DescKeeps(s1, o.fd, 0);
      ExportKeeps(DoClose(s1, o.fd), path);
    }
  }

  lemma FormattedInv(fdCnt: int)
    requires fdCnt >= -1
    ensures Inv(Formatted(fdCnt))
  {
    EmptyShaped(ROOT, ROOT);
    EmptyDirLive(ROOT, ROOT);
    SingleDirOk(Formatted(fdCnt).files);
  }

  lemma SingleDirOk(files: seq<File>)
    requires |files| == 1 && files[0].Dir? && Shaped(files[0])
    requires files[0].cnt == |files[0].log| == |Live(files[0].log)| == 2
    requires files[0].log[0] == Entry(ROOT, DOT) && files[0].log[1] == Entry(ROOT, DOTDOT)
    ensures FilesOk(files)
  {
  }

  lemma WriteStepKeeps(s: State, fd: int, data: seq<byte>)
    requires Inv(s) && CanWrite(s, fd, data)
    ensures Inv(DoWrite(s, fd, data).0)
  {
    if fd in s.fds {
      WriteKeeps(s.files, s.fds[fd].inode, s.fds[fd].pos, data);
    }
  }

  /** The state after a write through a known descriptor, field by field. */
  lemma WriteEnds(s: State, fd: int, data: seq<byte>, i: nat, pos: nat, s': State)
    requires Inv(s) && CanWrite(s, fd, data) && fd in s.fds && s.fds[fd] == Desc(i, pos)
    requires s'.files == s.files[i := WriteFile(s.files[i], pos, data)] && s'.cwd == s.cwd
    requires s'.fds == s.fds[fd := Desc(i, pos + |data|)] && s'.fdCnt == s.fdCnt
    ensures DoWrite(s, fd, data) == (s', Done)
    ensures Inv(s') && s'.files[s'.cwd] == s.files[s.cwd]
  {
    WriteKeeps(s.files, i, pos, data);
  }

  /** The state after a read through a known descriptor, field by field. */
  lemma ReadEnds(s: State, fd: int, len: int, i: nat, pos: nat, data: seq<byte>, s': State)
    requires Inv(s) && CanRead(s, fd, len) && fd in s.fds && s.fds[fd] == Desc(i, pos)
    requires data == ReadFile(s.files[i], pos, len)
    requires s'.files == s.files && s'.cwd == s.cwd
    requires s'.fds == s.fds[fd := Desc(i, pos + len)] && s'.fdCnt == s.fdCnt
    ensures DoRead(s, fd, len) == (s', Got(data))
    ensures Inv(s')
  {
    DescKeeps(s, fd, pos + len);
  }

  /** Entering a new file: the directory can take the entry, and can be loaded afterwards. */
  lemma EnterNeeds(s: State, f: File, name: Name, used: int)
    requires Inv(s) && AddFits(s.files, s.cwd, name) && used == Used(s.files) + 1
    ensures var files1 := Push(s.files, f);
      && files1[s.cwd].Dir? && AppendFits(files1[s.cwd], name, used)
      && Sized(Entry(|s.files|, name))
  {
  }

  lemma Entered(s: State, f: File, name: Name, files1: seq<File>, files2: seq<File>)
    requires Inv(s) && AddFits(s.files, s.cwd, name) && |files1| > s.cwd && files1[s.cwd].Dir?
    requires f == EmptyFile() || f == EmptyDir(|s.files|, s.cwd)
    requires files1 == Push(s.files, f) && files2 == files1[s.cwd := Append(files1[s.cwd], Entry(|s.files|, name))]
    ensures files2 == AddFile(s.files, s.cwd, f, name)
    ensures IsDir(files2, s.cwd) && 0 <= files2[s.cwd].cnt <= |Live(files2[s.cwd].log)|
  {
    CreateKeeps(s, s.cwd, f, name);
    assert DirOk(files2, s.cwd);
  }

  lemma OpenHereFound(s: State, name: Name, flag: Flag, id: nat, fd: int, s': State)
    requires Inv(s) && CanOpenHere(s, name, flag) && !flag.BadFlag?
    requires name in DirTable(s.files[s.cwd]) && DirTable(s.files[s.cwd])[name] == id
    requires s'.files == s.files && s'.cwd == s.cwd
    requires fd == s.fdCnt + 1 && s'.fds == s.fds[fd := Desc(id, 0)] && s'.fdCnt == fd
    ensures OpenHere(s, name, flag) == (s', Opened(fd)) && Inv(s')
  {
    OpenHereKeeps(s, name, flag);
  }

  lemma CreateNeeds(s: State, name: Name)
    requires Inv(s) && CanOpenHere(s, name, WriteFlag) && name !in DirTable(s.files[s.cwd])
    ensures AddFits(s.files, s.cwd, name)
  {
  }

  /** The state after creating and opening, field by field. */
  lemma OpenHereCreates(s: State, name: Name, s': State)
    requires Inv(s) && CanOpenHere(s, name, WriteFlag) && name !in DirTable(s.files[s.cwd])
    requires s'.files == AddFile(s.files, s.cwd, EmptyFile(), name) && s'.cwd == s.cwd
    requires s'.fds == s.fds[s.fdCnt + 1 := Desc(|s.files|, 0)] && s'.fdCnt == s.fdCnt + 1
    ensures OpenHere(s, name, WriteFlag) == (s', Opened(s'.fdCnt)) && Inv(s')
  {
    OpenHereKeeps(s, name, WriteFlag);
  }

  lemma MkdirEnds(s: State, name: Name, s': State)
    requires Inv(s) && CanMkdirHere(s, name)
    requires s'.files == AddFile(s.files, s.cwd, EmptyDir(|s.files|, s.cwd), name)
    requires s'.cwd == s.cwd && s'.fds == s.fds && s'.fdCnt == s.fdCnt
    ensures MkdirHere(s, name) == s' && Inv(s')
  {
    MkdirHereKeeps(s, name);
  }

  lemma OpenHereRefused(s: State, name: Name, flag: Flag)
    requires Inv(s) && CanOpenHere(s, name, flag)
    requires if name in DirTable(s.files[s.cwd]) then flag.BadFlag? else !flag.WriteFlag?
    ensures OpenHere(s, name, flag) == (s, Failed)
  {
  }

  /** Unlinking raw entry `r` of the current directory is what the invariant allows. */
  ghost predicate RmRemoves(s: State, r: nat) {
    && s.cwd < |s.files| && s.files[s.cwd].Dir? && r < |s.files[s.cwd].log|
    && var s' := s.(files := s.files[s.cwd := Unlink(s.files[s.cwd], r)]);
    Inv(s') && 0 <= s'.files[s.cwd].cnt <= |Live(s'.files[s.cwd].log)|
  }

  lemma RmFinds(s: State, name: Name, r: nat)
    requires Inv(s) && CanRm(s, name)
    requires var f := s.files[s.cwd];
      r < f.cnt && f.log[r].name == name && (forall q :: 0 <= q < r ==> f.log[q].name != name)
    ensures var f := s.files[s.cwd];
      DoRm(s, name) == if Occupied(s.files, f.log[r].id) then (s, Failed)
                       else (s.(files := s.files[s.cwd := Unlink(f, r)]), Done)
    ensures !Occupied(s.files, s.files[s.cwd].log[r].id) ==> RmRemoves(s, r)
  {
    var f := s.files[s.cwd];
    var q := FirstRaw(f.log, f.cnt, name);
    assert q == r;
    RmStepKeeps(s, name);
    if !Occupied(s.files, f.log[r].id) {
      var s' := DoRm(s, name).0;
      assert DirOk(s'.files, s'.cwd);
    }
  }

  lemma RmMisses(s: State, name: Name)
    requires Inv(s) && CanRm(s, name)
    requires forall q :: 0 <= q < s.files[s.cwd].cnt ==> s.files[s.cwd].log[q].name != name
    ensures DoRm(s, name) == (s, Done)
  {
  }

  /** The ids that entries of a directory can carry. */
  lemma EntryIds(files: seq<File>, d: int, r: nat)
    requires FilesOk(files) && IsDir(files, d) && r < |files[d].log|
    ensures var id := files[d].log[r].id;
      && DELETED <= id < |files|
      && (id != DELETED && files[id].Dir? ==> 2 <= files[id].cnt)
  {
    assert DirOk(files, d);
    if r >= 2 {
      assert EntryOk(files, d, files[d].log[r]);
    }
    var id := files[d].log[r].id;
    if id >= 0 && files[id].Dir? {
      assert DirOk(files, id);
    }
  }

  lemma CloseEnds(s: State, fd: int, s': State)
    requires Inv(s) && s'.files == s.files && s'.cwd == s.cwd && s'.fdCnt == s.fdCnt
    requires s'.fds == if fd in s.fds then s.fds - {fd} else s.fds
    ensures DoClose(s, fd) == s' && Inv(s')
  {
    if fd !in s.fds {
      assert s.fds - {fd} == s.fds;
    }
    DescKeeps(s, fd, 0);
  }

  lemma RmStepKeeps(s: State, name: Name)
    requires Inv(s) && CanRm(s, name)
    ensures Inv(DoRm(s, name).0)
  {
    var f := s.files[s.cwd];
    assert DirOk(s.files, s.cwd);
    var r := FirstRaw(f.log, f.cnt, name);
    if r < f.cnt && !Occupied(s.files, f.log[r].id) {
      RmKeeps(s.files, s.cwd, r);
    }
  }

  /** Every command of every run keeps the invariant. */
  lemma {:induction false} RunInv(s: State, cmds: seq<Cmd>)
    requires Inv(s) && Runs(s, cmds)
    ensures Inv(Run(s, cmds).0)
  {
    if |cmds| > 0 {
      RunInv(s, cmds[..|cmds| - 1]);
      InvStep(Run(s, cmds[..|cmds| - 1]).0, cmds[|cmds| - 1]);
    }
  }

  /** One more command of a run. */
  lemma RunNext(s: State, cmds: seq<Cmd>, k: nat)
    requires Runs(s, cmds) && k < |cmds|
    ensures Runs(s, cmds[..k]) && Runs(s, cmds[..k + 1]) && Enabled(Run(s, cmds[..k]).0, cmds[k])
    ensures var (s1, outs) := Run(s, cmds[..k]); var (s2, o) := Step(s1, cmds[k]);
      Run(s, cmds[..k + 1]) == (s2, Push(outs, o))
  {
    RunsPrefix(s, cmds, k);
    RunsPrefix(s, cmds, k + 1);
    assert cmds[..k + 1][..k] == cmds[..k];
  }

  lemma {:induction false} RunsPrefix(s: State, cmds: seq<Cmd>, k: nat)
    requires Runs(s, cmds) && k <= |cmds|
    ensures Runs(s, cmds[..k])
  {
    if k < |cmds| {
      RunsPrefix(s, cmds[..|cmds| - 1], k);
      assert cmds[..|cmds| - 1][..k] == cmds[..k];
    } else {
      assert cmds[..k] == cmds;
    }
  }
}
