/** What each command does to the whole state, in terms of files, tables, positions and bytes, and without
    the functions that the machine is put together from. */
module Effects {
  import opened Bytes
  import opened Layout
  import opened DirLog
  import opened Order
  import opened Paths
  import opened Machine
  import opened Invariants
  import opened Theorems
  import opened Trees
  import opened Removal
  import opened Lookup
  import opened HostCopy

  // ---------- descriptors ----------

  /** Descriptors other than `fd` are as they were. */
  ghost predicate OthersKept(fds: map<int, Desc>, fds': map<int, Desc>, fd: int) {
    forall g :: g != fd ==> (g in fds' <==> g in fds) && (g in fds ==> fds'[g] == fds[g])
  }

  /** There is one descriptor more: the next, for inode `i`, at its start. */
  ghost predicate FdAdded(s: State, s': State, i: int) {
    && s'.fdCnt == s.fdCnt + 1
    && s'.fdCnt !in s.fds && s'.fdCnt in s'.fds
    && s'.fds[s'.fdCnt].inode == i && s'.fds[s'.fdCnt].pos == 0
    && OthersKept(s.fds, s'.fds, s'.fdCnt)
  }

  /** Seeking sets the position of that descriptor, and nothing else. */
  lemma SeekEffect(s: State, fd: int, off: int)
    ensures var (s', o) := Step(s, Seek(fd, off));
      if fd !in s.fds then s' == s && o == Failed
      else
        && o == Done && s'.files == s.files && s'.cwd == s.cwd && s'.fdCnt == s.fdCnt
        && fd in s'.fds && s'.fds[fd].inode == s.fds[fd].inode && s'.fds[fd].pos == off
        && OthersKept(s.fds, s'.fds, fd)
  {
  }

  lemma CloseEffect(s: State, fd: int)
    ensures var (s', o) := Step(s, Close(fd));
      && o == Done && s'.files == s.files && s'.cwd == s.cwd && s'.fdCnt == s.fdCnt
      && fd !in s'.fds && OthersKept(s.fds, s'.fds, fd)
  {
  }

  // ---------- writing and reading ----------

  /** `b'` is `b` with `src` at `off`, zeros between its end and `off`, and its old end if that is further. */
  ghost predicate Overwritten(b: seq<byte>, off: nat, src: seq<byte>, b': seq<byte>) {
    && |b'| == (if |b| < off + |src| then off + |src| else |b|)
    && forall p :: 0 <= p < |b'| ==>
         b'[p] == if off <= p < off + |src| then src[p - off] else if p < |b| then b[p] else 0
  }

  /** Only file `i` differs: it is regular, has been overwritten, and has as many whole blocks as it needs,
      or as it had. */
  ghost predicate FileOverwritten(files: seq<File>, files': seq<File>, i: nat, off: nat, src: seq<byte>) {
    && |files'| == |files| && i < |files|
    && (forall j :: 0 <= j < |files| && j != i ==> files'[j] == files[j])
    && files[i].Reg? && files'[i].Reg? && Overwritten(files[i].data, off, src, files'[i].data)
    && files'[i].cap == Max(files[i].cap, RoundUp(off + Max(|src|, 1)))
  }

  lemma WriteFileIs(files: seq<File>, i: nat, off: nat, src: seq<byte>)
    requires AllShaped(files) && i < |files| && files[i].Reg? && WriteEnd(off, |src|) <= CAP1
    ensures FileOverwritten(files, files[i := WriteFile(files[i], off, src)], i, off, src)
  {
    assert Shaped(files[i]);
    GrowCapFacts(files[i].cap, WriteEnd(off, |src|));
  }

  /** A write overwrites the file at the position, which moves on by its length. */
  lemma WriteEffect(s: State, fd: int, data: seq<byte>)
    requires Inv(s) && CanWrite(s, fd, data)
    ensures var (s', o) := Step(s, Write(fd, data));
      if fd !in s.fds then s' == s && o == Failed
      else
        && o == Done && s'.cwd == s.cwd && s'.fdCnt == s.fdCnt
        && FileOverwritten(s.files, s'.files, s.fds[fd].inode, s.fds[fd].pos, data)
        && fd in s'.fds && s'.fds[fd] == Desc(s.fds[fd].inode, s.fds[fd].pos + |data|)
        && OthersKept(s.fds, s'.fds, fd)
  {
    if fd in s.fds {
      WriteFileIs(s.files, s.fds[fd].inode, s.fds[fd].pos, data);
    }
  }

  /** What reading `len` bytes of `b` from `off` on gives: what is asked for if it is there; what there is, if
      the end asked for lies in the last block; else what there is and zeros to the end of that block. */
  ghost predicate Delivers(b: seq<byte>, off: nat, len: nat, got: seq<byte>) {
    && |got| == (if off >= |b| then 0
                 else if off + len <= |b| then len
                 else if off + len <= RoundUp(|b|) then |b| - off
                 else RoundUp(|b|) - off)
    && forall p :: 0 <= p < |got| ==> got[p] == if off + p < |b| then b[off + p] else 0
  }

  lemma ReadFileIs(f: File, off: nat, len: nat)
    requires Shaped(f)
    ensures Delivers(Contents(f), off, len, ReadFile(f, off, len))
  {
    assert ReadCount(Size(f), off, len) > 0 ==> off + ReadCount(Size(f), off, len) <= f.cap;
  }

  /** A read changes nothing but the position, which moves on by the length asked for. */
  lemma ReadEffect(s: State, fd: int, len: int)
    requires Inv(s) && CanRead(s, fd, len)
    ensures var (s', o) := Step(s, Read(fd, len));
      if fd !in s.fds then s' == s && o == Failed
      else
        && o.Got? && Delivers(Contents(s.files[s.fds[fd].inode]), s.fds[fd].pos, len, o.data)
        && s'.files == s.files && s'.cwd == s.cwd && s'.fdCnt == s.fdCnt
        && fd in s'.fds && s'.fds[fd] == Desc(s.fds[fd].inode, s.fds[fd].pos + len)
        && OthersKept(s.fds, s'.fds, fd)
  {
    if fd in s.fds {
      assert Shaped(s.files[s.fds[fd].inode]);
      ReadFileIs(s.files[s.fds[fd].inode], s.fds[fd].pos, len);
    }
  }

  // ---------- paths ----------

  /** Directory `d` shows `c` under the name. */
  predicate Goes(files: seq<File>, d: int, name: Name, c: int) {
    IsDir(files, d) && name in DirTable(files[d]) && DirTable(files[d])[name] == c
  }

  ghost predicate Linked(files: seq<File>, names: seq<Name>, dirs: seq<int>) {
    && 0 < |dirs| <= |names| + 1
    && forall k :: 0 <= k < |dirs| - 1 ==> Goes(files, dirs[k], names[k], dirs[k + 1])
  }

  /** The directories that a path goes through: each shows the next under the next name, and the last one
      does not show the name that is left, if one is. */
  ghost predicate Trail(files: seq<File>, names: seq<Name>, dirs: seq<int>) {
    && Linked(files, names, dirs)
    && var last := dirs[|dirs| - 1];
    IsDir(files, last) && (|dirs| <= |names| ==> names[|dirs| - 1] !in DirTable(files[last]))
  }

  lemma LinkedMore(files: seq<File>, names: seq<Name>, dirs: seq<int>, c: int)
    requires Linked(files, names, dirs) && |dirs| <= |names|
    requires Goes(files, dirs[|dirs| - 1], names[|dirs| - 1], c)
    ensures Linked(files, names, Push(dirs, c))
  {
  }

  /** The rest of a walk completes the trail that led to where it starts. */
  lemma {:induction false} TrailOn(files: seq<File>, names: seq<Name>, dirs: seq<int>, goal: (nat, bool))
    returns (all: seq<int>)
    requires FilesOk(files) && Linked(files, names, dirs) && dirs[|dirs| - 1] >= 0
    requires Walking(files, dirs[|dirs| - 1], names, |dirs| - 1, goal)
    ensures Trail(files, names, all) && all[0] == dirs[0]
    ensures goal == (all[|all| - 1], |all| == |names| + 1)
    decreases |names| - |dirs|
  {
    var k := |dirs| - 1;
    all := dirs;
    if k < |names| {
      var t := DirTable(files[dirs[k]]);
      WalkingOn(files, dirs[k], names, k, goal, if names[k] in t then t[names[k]] else -1);
      if names[k] in t && t[names[k]] != -1 {
        LinkedMore(files, names, dirs, t[names[k]]);
        all := TrailOn(files, names, Push(dirs, t[names[k]]), goal);
      } else if names[k] in t {
        NoNegative(files, dirs[k], names[k]);
      }
    }
  }

  lemma NoNegative(files: seq<File>, d: int, name: Name)
    requires FilesOk(files) && IsDir(files, d) && name in DirTable(files[d])
    ensures DirTable(files[d])[name] >= 0
  {
    assert DirOk(files, d);
    var r := TableEntry(files, d, name);
  }

  /** `cd` follows the names from the root or from the current directory, ends where the trail does, and says
      whether any name is left. */
  lemma CdEffect(s: State, path: seq<byte>) returns (dirs: seq<int>)
    requires Inv(s) && PathOk(s, path)
    ensures Trail(s.files, Tokens(path), dirs)
    ensures dirs[0] == if |path| > 0 && path[0] == SLASH then 0 else s.cwd
    ensures var (s', o) := Step(s, Cd(path));
      && s'.files == s.files && s'.fds == s.fds && s'.fdCnt == s.fdCnt && s'.cwd == dirs[|dirs| - 1]
      && o == if |dirs| == |Tokens(path)| + 1 then Done else Failed
  {
    var names := Tokens(path);
    assert names[0..] == names;
    WalkingIs(s.files, Start(s, path), names, 0);
    dirs := TrailOn(s.files, names, [Start(s, path)], CdTo(s, path));
  }

  /** There is one trail from a directory, so this says where `cd` ends. */
  lemma {:induction false} OneTrail(files: seq<File>, names: seq<Name>, a: seq<int>, b: seq<int>, k: nat)
    requires Trail(files, names, a) && Trail(files, names, b) && a[0] == b[0] && k < |a|
    ensures k < |b| && a[k] == b[k]
  {
    if k > 0 {
      OneTrail(files, names, a, b, k - 1);
      assert Goes(files, a[k - 1], names[k - 1], a[k]);
    }
  }

  // ---------- opening and making ----------

  /** Directory `f'` is `f` with one entry more at the end of its log, and has as many whole blocks as that
      needs, or as it had. */
  ghost predicate EntryAdded(f: File, f': File, e: Entry) {
    && f.Dir? && f'.Dir? && f'.cnt == f.cnt + 1
    && |f'.log| == |f.log| + 1 && f'.log[|f.log|] == e
    && (forall r :: 0 <= r < |f.log| ==> f'.log[r] == f.log[r])
    && f'.cap == Max(f.cap, RoundUp(|Contents(f)| + 8 + Max(|e.name|, 1)))
  }

  lemma AppendIs(f: File, e: Entry)
    requires f.Dir? && Shaped(f) && AppendEnd(f, e.name) <= CAP1
    ensures EntryAdded(f, Append(f, e), e)
  {
    GrowCapFacts(f.cap, AppendEnd(f, e.name));
  }

  /** File `f` is the next inode, entered under `name` in directory `d`; the rest is as it was. */
  ghost predicate FileAdded(files: seq<File>, files': seq<File>, d: nat, name: Name, f: File) {
    && d < |files| && |files'| == |files| + 1 && files'[|files|] == f
    && EntryAdded(files[d], files'[d], Entry(|files|, name))
    && forall i :: 0 <= i < |files| && i != d ==> files'[i] == files[i]
  }

  lemma AddFileIs(files: seq<File>, d: nat, f: File, name: Name)
    requires AllShaped(files) && IsDir(files, d) && AppendEnd(files[d], name) <= CAP1
    ensures FileAdded(files, AddFile(files, d, f, name), d, name, f)
  {
    assert Shaped(files[d]);
    AppendIs(files[d], Entry(|files|, name));
  }

  /** Opening, in all cases, where `d` is the directory that the path leads to. */
  lemma OpenEffect(s: State, path: seq<byte>, flag: Flag, d: nat, name: Name)
    requires Inv(s) && CanOpen(s, path, flag) && d == CdTo(s, DirPart(path)).0 && name == NamePart(path)
    ensures IsDir(s.files, d)
    ensures var (s', o) := Step(s, Open(path, flag)); var t := DirTable(s.files[d]);
      if name in t && !flag.BadFlag? then
        o == Opened(s.fdCnt + 1) && s'.files == s.files && s'.cwd == s.cwd && FdAdded(s, s', t[name])
      else if name !in t && flag.WriteFlag? then
        && o == Opened(s.fdCnt + 1) && s'.cwd == s.cwd && FdAdded(s, s', |s.files|)
        && FileAdded(s.files, s'.files, d, name, Reg(DSIZE, []))
      else o == Failed && s' == s.(cwd := d)
  {
    CdKeeps(s, DirPart(path));
    OpenHereKeeps(s.(cwd := d), name, flag);
    assert s.fdCnt + 1 !in s.fds;
    if name !in DirTable(s.files[d]) && flag.WriteFlag? {
      AddFileIs(s.files, d, EmptyFile(), name);
    }
  }

  lemma OpenedFd(s: State, path: seq<byte>, flag: Flag)
    requires Inv(s) && CanOpen(s, path, flag) && DoOpen(s, path, flag).1.Opened?
    ensures var (s1, o) := DoOpen(s, path, flag);
      o.fd == s1.fdCnt && s1.fdCnt in s1.fds && FdAdded(s, s1, s1.fds[s1.fdCnt].inode) && s1.cwd == s.cwd
  {
    OpenEffect(s, path, flag, CdTo(s, DirPart(path)).0, NamePart(path));
  }

  /** Making a directory: whatever the table shows, and whether or not all of the path was followed. */
  lemma MkdirEffect(s: State, path: seq<byte>, d: nat, name: Name)
    requires Inv(s) && CanMkdir(s, path) && d == CdTo(s, DirPart(path)).0 && name == NamePart(path)
    ensures var (s', o) := Step(s, Mkdir(path)); var n := |s.files|;
      && o == Done && s'.cwd == s.cwd && s'.fds == s.fds && s'.fdCnt == s.fdCnt
      && FileAdded(s.files, s'.files, d, name, Dir(DSIZE, 2, [Entry(n, DOT), Entry(d, DOTDOT)]))
  {
    CdKeeps(s, DirPart(path));
    AddFileIs(s.files, d, EmptyDir(|s.files|, d), name);
  }

  /** Formatting leaves a root that shows only itself. */
  lemma MkfsEffect(s: State)
    requires Inv(s) && s.fds == map[]
    ensures var (s', o) := Step(s, Mkfs);
      && o == Done && s'.cwd == 0 && s'.fds == map[] && s'.fdCnt == s.fdCnt
      && |s'.files| == 1 && IsDir(s'.files, 0) && s'.files[0].cap == DSIZE && |Contents(s'.files[0])| == 23
      && DirTable(s'.files[0]) == map[DOT := 0, DOTDOT := 0] && Used(s'.files) == 1
  {
    EmptyShaped(ROOT, ROOT);
    EmptyDirLive(ROOT, ROOT);
    var f := EmptyDir(ROOT, ROOT);
    assert f.log[..2] == f.log && f.log[..2][..1] == [Entry(ROOT, DOT)] && [Entry(ROOT, DOT)][..0] == [];
    assert Table([]) == map[];
    assert Table([Entry(ROOT, DOT)]) == map[DOT := ROOT];
    assert [f][..0] == [] && Used([]) == 0;
  }

  // ---------- removing ----------

  /** A directory that counts more than its own two entries. */
  ghost predicate InUse(files: seq<File>, id: int) {
    IsDir(files, id) && |Visible(Max(files[id].cnt, 0), files[id].log)| > 2
  }

  lemma OccupiedIs(files: seq<File>, id: int)
    requires FilesOk(files)
    ensures Occupied(files, id) <==> InUse(files, id)
  {
    if IsDir(files, id) {
      assert DirOk(files, id);
    }
  }

  /** Of directory `f`, raw entry `r` has lost its id, and the counter is one lower. */
  ghost predicate EntryDeleted(f: File, f': File, r: nat) {
    && f.Dir? && f'.Dir? && f'.cap == f.cap && f'.cnt == f.cnt - 1
    && r < |f.log| == |f'.log| && f'.log[r].id == -1 && f'.log[r].name == f.log[r].name
    && forall q :: 0 <= q < |f.log| && q != r ==> f'.log[q] == f.log[q]
  }

  /** Removing, when no raw entry below the counter has the name, and when `r` is the first that has it. */
  lemma RmEffect(s: State, name: Name, r: nat)
    requires Inv(s) && CanRm(s, name)
    ensures var (s', o) := Step(s, Rm(name)); var f := s.files[s.cwd];
      && f.cnt <= |f.log|
      && ((forall q :: 0 <= q < f.cnt ==> f.log[q].name != name) ==> s' == s && o == Done)
      && (r < f.cnt && f.log[r].name == name && (forall q :: 0 <= q < r ==> f.log[q].name != name) ==>
            if InUse(s.files, f.log[r].id) then s' == s && o == Failed
            else
              && o == Done && s'.cwd == s.cwd && s'.fds == s.fds && s'.fdCnt == s.fdCnt
              && |s'.files| == |s.files| && EntryDeleted(f, s'.files[s.cwd], r)
              && forall i :: 0 <= i < |s.files| && i != s.cwd ==> s'.files[i] == s.files[i])
  {
    var f := s.files[s.cwd];
    if r < f.cnt && f.log[r].name == name && (forall q :: 0 <= q < r ==> f.log[q].name != name) {
      RmFinds(s, name, r);
      OccupiedIs(s.files, f.log[r].id);
    }
    if forall q :: 0 <= q < f.cnt ==> f.log[q].name != name {
      RmMisses(s, name);
    }
  }

  /** A directory that shows a name is in use; with distinct names and a right counter, and only so. */
  lemma InUseShows(files: seq<File>, c: int)
    requires FilesOk(files) && IsDir(files, c)
    ensures (exists n :: Shows(files, c, n)) ==> InUse(files, c)
    ensures Coherent(files[c]) ==> (InUse(files, c) <==> exists n :: Shows(files, c, n))
  {
    assert DirOk(files, c);
    var es := Visible(files[c].cnt, files[c].log);
    FirstTwoLive(files, c);
    if n :| Shows(files, c, n) {
      var p := TableValue(es, n);
    }
    if Coherent(files[c]) && InUse(files, c) {
      NameEntered(es, es[2].name, 2);
      assert es[2] == Live(files[c].log)[2];
      assert Shows(files, c, es[2].name);
    }
  }

  /** Where the name stands for a coherent directory, removal is refused if and only if that shows a name;
      else the entry goes. */
  lemma RmDirectory(s: State, name: Name, r: nat)
    requires Inv(s) && CanRm(s, name)
    requires var f := s.files[s.cwd]; r < f.cnt && f.log[r].name == name && IsDir(s.files, f.log[r].id)
    requires forall q :: 0 <= q < r ==> s.files[s.cwd].log[q].name != name
    requires Coherent(s.files[s.files[s.cwd].log[r].id])
    ensures var (s', o) := Step(s, Rm(name)); var f := s.files[s.cwd];
      && ((s', o) == (s, Failed) <==> exists n :: Shows(s.files, f.log[r].id, n))
      && ((s', o) == (s, Failed) || (o == Done && s.cwd < |s'.files| && EntryDeleted(f, s'.files[s.cwd], r)))
  {
    RmEffect(s, name, r);
    InUseShows(s.files, s.files[s.cwd].log[r].id);
  }

  // ---------- copying in and out ----------

  lemma GoneAgain(fds: map<int, Desc>, fds': map<int, Desc>, fd: int)
    requires OthersKept(fds, fds', fd) && fd !in fds
    ensures fds' - {fd} == fds
  {
    var rest := fds' - {fd};
    assert forall g :: g in rest <==> g in fds;
    assert forall g :: g in fds ==> rest[g] == fds[g];
  }

  /** Writing through a descriptor just added, and closing it. */
  lemma WrittenAndClosed(s: State, s1: State, fd: int, data: seq<byte>)
    requires Inv(s1) && CanWrite(s1, fd, data) && fd == s1.fdCnt
    requires fd in s1.fds && FdAdded(s, s1, s1.fds[fd].inode)
    ensures var s' := DoClose(DoWrite(s1, fd, data).0, fd);
      && s'.cwd == s1.cwd && s'.fds == s.fds && s'.fdCnt == s1.fdCnt
      && FileOverwritten(s1.files, s'.files, s1.fds[fd].inode, 0, data)
  {
    WriteEffect(s1, fd, data);
    GoneAgain(s.fds, DoWrite(s1, fd, data).0.fds, fd);
  }

  /** `s'` is `s1`, in which a file has been opened for writing, with the host bytes written over it from the
      start and the descriptor closed; without a host file it is `s1`. */
  ghost predicate CopiedIn(s: State, host: HostFile, s1: State, s': State, o: Out) {
    && s.fdCnt + 1 in s1.fds
    && if host.Missing? then s' == s1 && o == Failed
       else
         && o == Done && s'.cwd == s.cwd && s'.fds == s.fds && s'.fdCnt == s.fdCnt + 1
         && FileOverwritten(s1.files, s'.files, s1.fds[s.fdCnt + 1].inode, 0, host.data)
  }

  lemma ImportCopies(s: State, host: HostFile, path: seq<byte>)
    requires Inv(s) && CanImport(s, host, path)
    ensures CopiedIn(s, host, DoOpen(s, path, WriteFlag).0, DoImport(s, host, path).0, DoImport(s, host, path).1)
  {
    OpenedFd(s, path, WriteFlag);
    OpenKeeps(s, path, WriteFlag);
    var (s1, o1) := DoOpen(s, path, WriteFlag);
    if host.Host? {
      WrittenAndClosed(s, s1, o1.fd, host.data);
    }
  }

  lemma ImportEffect(s: State, host: HostFile, path: seq<byte>)
    requires Inv(s) && CanImport(s, host, path)
    ensures var s1 := Step(s, Open(path, WriteFlag)).0; var (s', o) := Step(s, Import(host, path));
      CopiedIn(s, host, s1, s', o)
  {
    ImportCopies(s, host, path);
  }

  /** `o` is the whole file that `name` in directory `d` stands for, and `n` descriptors have been used up,
      none of which is left; or there is no such name, and the shell has gone to `d`. */
  ghost predicate CopiedOut(s: State, s': State, o: Out, d: nat, name: Name, n: nat) {
    && IsDir(s.files, d)
    && var t := DirTable(s.files[d]);
    if name in t then
      && 0 <= t[name] < |s.files| && o == Got(Contents(s.files[t[name]]))
      && s'.files == s.files && s'.cwd == s.cwd && s'.fds == s.fds && s'.fdCnt == s.fdCnt + n
    else o == Failed && s' == s.(cwd := d)
  }

  lemma ExportCopies(s: State, path: seq<byte>, d: nat, name: Name)
    requires Inv(s) && CanExport(s, path) && d == CdTo(s, DirPart(path)).0 && name == NamePart(path)
    ensures CopiedOut(s, DoExport(s, path).0, DoExport(s, path).1, d, name, 1)
  {
    Exported(s, path, d);
    OpenEffect(s, path, ReadFlag, d, name);
    var s1 := DoOpen(s, path, ReadFlag).0;
    if name in DirTable(s.files[d]) {
      GoneAgain(s.fds, s1.fds, s.fdCnt + 1);
    } else {
      GoneAgain(s.fds, s.fds, -1);
    }
  }

  /** Exporting delivers the whole file and leaves no descriptor; a failure leaves the shell where the path
      led. */
  lemma ExportEffect(s: State, path: seq<byte>)
    requires Inv(s) && CanExport(s, path)
    ensures var (s', o) := Step(s, Export(path)); CopiedOut(s, s', o, CdTo(s, DirPart(path)).0, NamePart(path), 1)
  {
    ExportCopies(s, path, CdTo(s, DirPart(path)).0, NamePart(path));
  }

  /** The first half of running a program uses up a descriptor. */
  lemma OpenedAndClosed(s: State, path: seq<byte>, d: nat, name: Name, s2: State)
    requires Inv(s) && CanOpen(s, path, ReadFlag) && d == CdTo(s, DirPart(path)).0 && name == NamePart(path)
    requires IsDir(s.files, d) && name in DirTable(s.files[d]) && s2 == s.(fdCnt := s.fdCnt + 1)
    ensures Inv(s2) && CanExport(s2, path) && DoExec(s, path) == DoExport(s2, path)
  {
    OpenEffect(s, path, ReadFlag, d, name);
    var (s1, o) := DoOpen(s, path, ReadFlag);
    GoneAgain(s.fds, s1.fds, o.fd);
    assert DoClose(s1, o.fd) == s2;
  }

  lemma ExecCopies(s: State, path: seq<byte>, d: nat, name: Name)
    requires Inv(s) && CanOpen(s, path, ReadFlag) && d == CdTo(s, DirPart(path)).0 && name == NamePart(path)
    ensures CopiedOut(s, DoExec(s, path).0, DoExec(s, path).1, d, name, 2)
  {
    OpenEffect(s, path, ReadFlag, d, name);
    if name in DirTable(s.files[d]) {
      var s2 := s.(fdCnt := s.fdCnt + 1);
      OpenedAndClosed(s, path, d, name, s2);
      ExportCopies(s2, path, d, name);
    }
  }

  /** A word that is no command: the file of that name is handed over whole, and two descriptors are used up. */
  lemma ExecEffect(s: State, path: seq<byte>)
    requires Inv(s) && CanOpen(s, path, ReadFlag)
    ensures var (s', o) := Step(s, Exec(path)); CopiedOut(s, s', o, CdTo(s, DirPart(path)).0, NamePart(path), 2)
  {
    ExecCopies(s, path, CdTo(s, DirPart(path)).0, NamePart(path));
  }

  // ---------- looking ----------

  /** The row is that of a name shown: it says whether that is a directory, and how many bytes it has. */
  ghost predicate RowShows(files: seq<File>, t: map<Name, int>, row: Row) {
    && row.name in t && 0 <= t[row.name] < |files|
    && (row.dir <==> IsDir(files, t[row.name]))
    && row.size == |Contents(files[t[row.name]])|
  }

  ghost predicate HasRow(rows: seq<Row>, name: Name) {
    exists k :: 0 <= k < |rows| && rows[k].name == name
  }

  /** One row for each name shown, in the order of the names. */
  ghost predicate RowsShow(files: seq<File>, t: map<Name, int>, rows: seq<Row>) {
    && (forall k :: 0 <= k < |rows| ==> RowShows(files, t, rows[k]))
    && (forall n :: n in t ==> HasRow(rows, n))
    && (forall i, j :: 0 <= i < j < |rows| ==>
          Precedes(rows[i].name, rows[j].name) && rows[i].name != rows[j].name)
  }

  /** `ls` shows what the table of the current directory holds. */
  lemma LsEffect(s: State)
    requires Inv(s)
    ensures var (s', o) := Step(s, Ls); s' == s && o.Shown? && RowsShow(s.files, DirTable(s.files[s.cwd]), o.rows)
  {
    RowsOf(s.files, s.cwd, Step(s, Ls).1.rows, DirTable(s.files[s.cwd]));
  }

  lemma RowsOf(files: seq<File>, d: nat, rows: seq<Row>, t: map<Name, int>)
    requires FilesOk(files) && IsDir(files, d) && rows == Rows(files[d], files) && t == DirTable(files[d])
    ensures RowsShow(files, t, rows)
  {
    assert DirOk(files, d);
    var names := Keys(t);
    KeysInOrder(t);
    forall k | 0 <= k < |names|
      ensures rows[k].name == names[k] && RowShows(files, t, rows[k])
    {
      var r := TableEntry(files, d, names[k]);
    }
    forall i, j | 0 <= i < j < |rows|
      ensures Precedes(rows[i].name, rows[j].name) && rows[i].name != rows[j].name
    {
      LessIs(names[i], names[j]);
      LessOneWay(names[i], names[j]);
    }
    forall n | n in t
      ensures HasRow(rows, n)
    {
      var k :| 0 <= k < |names| && names[k] == n;
      assert rows[k].name == n;
    }
  }

  /** `cat` delivers the whole file that the name stands for. */
  lemma CatEffect(s: State, name: Name)
    requires Inv(s)
    ensures Enabled(s, Cat(name))
    ensures var (s', o) := Step(s, Cat(name)); var t := DirTable(s.files[s.cwd]);
      s' == s && if name in t then o == Got(Contents(s.files[t[name]])) else o == Failed
  {
    assert DirOk(s.files, s.cwd);
    if name in DirTable(s.files[s.cwd]) {
      var r := TableEntry(s.files, s.cwd, name);
      assert Shaped(s.files[DirTable(s.files[s.cwd])[name]]);
      ReadWhole(s.files[DirTable(s.files[s.cwd])[name]]);
    }
  }

  /** `tree` has a line for each path that leads down from the current directory, in the order of the paths. */
  lemma TreeEffect(s: State) returns (paths: seq<Path>)
    requires Inv(s)
    ensures forall p :: p in paths <==> Leads(s.files, s.cwd, p)
    ensures forall i, j :: 0 <= i < j < |paths| ==> PathPrecedes(paths[i], paths[j])
    ensures var (s', o) := Step(s, Tree);
      && s' == s && o.Drawn? && |o.lines| == |paths|
      && forall i :: 0 <= i < |paths| ==>
           |paths[i]| > 0 && o.lines[i] == Line(|paths[i]| - 1, paths[i][|paths[i]| - 1])
  {
    var lines;
    lines, paths := ListingExists(s.files, s.cwd, 0);
    OneListing(s.files, s.cwd, lines, paths);
    forall i, j | 0 <= i < j < |paths|
      ensures PathPrecedes(paths[i], paths[j])
    {
      PathLessIs(paths[i], paths[j]);
    }
  }

  /** Seek past the end, write, and look: the old content, zeros, the new data. */
  lemma SeekWriteCat(s: State, name: Name, fd: int, off: nat, data: seq<byte>, s1: State, s2: State)
    requires Inv(s) && fd in s.fds && name in DirTable(s.files[s.cwd])
    requires DirTable(s.files[s.cwd])[name] == s.fds[fd].inode && s.fds[fd].inode < |s.files|
    requires s.files[s.fds[fd].inode].Reg? && |s.files[s.fds[fd].inode].data| <= off
    requires s1 == DoSeek(s, fd, off).0 && CanWrite(s1, fd, data) && s2 == DoWrite(s1, fd, data).0
    ensures var before := s.files[s.fds[fd].inode].data;
      CanCat(s2, name) && DoCat(s2, name) == Got(before + Zeros(off - |before|) + data)
  {
    DescKeeps(s, fd, off);
    WriteStepKeeps(s1, fd, data);
    SpliceGap(s.files[s.fds[fd].inode].data, off, data);
    CatEffect(s2, name);
  }

  /** Import into the current directory, then `cat`: what an export would deliver, and hence the host bytes
      in the same cases. */
  lemma ImportCat(s: State, data: seq<byte>, path: seq<byte>, name: Name, s': State)
    requires Inv(s) && CanImport(s, Host(data), path) && CdTo(s, DirPart(path)).0 == s.cwd && name == NamePart(path)
    requires s' == DoImport(s, Host(data), path).0
    ensures 0 <= s.files[s.cwd].cnt <= |Live(s.files[s.cwd].log)|
    ensures CanCat(s', name) && DoCat(s', name) == CopyOut(s, s.cwd, name, data)
    ensures DoCat(s', name) == Got(data) <==> ComesBack(s, s.cwd, name, data)
  {
    var d, f := s.cwd, s.files[s.cwd];
    assert DirOk(s.files, d);
    ImportTable(s, data, path, d, NextShown(f, Entry(|s.files|, name)));
    CatEffect(s', name);
    CopyOutExact(s, d, name, data);
    if name in DirTable(f) || f.cnt == |Live(f.log)| {
      var i := Imported(s, data, path, d, name);
    } else {
      ImportedNew(s, data, path, d, name, s'.files);
      NextUncounted(s.files, d);
    }
  }
}
