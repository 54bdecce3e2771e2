/** What users can rely on, for all states that the invariant admits and hence after every run. */
module Theorems {
  import opened Bytes
  import opened Layout
  import opened DirLog
  import opened Paths
  import opened Machine
  import opened Invariants

  // ---------- descriptors ----------

  /** A descriptor handed out is the next one, and the count never goes back. */
  predicate FdsStep(s: State, s': State, o: Out) {
    s.fdCnt <= s'.fdCnt && (o.Opened? ==> o.fd == s'.fdCnt == s.fdCnt + 1)
  }

  lemma OpenFds(s: State, path: seq<byte>, flag: Flag)
    requires Inv(s) && CanOpen(s, path, flag)
    ensures FdsStep(s, DoOpen(s, path, flag).0, DoOpen(s, path, flag).1)
  {
  }

  lemma MkdirFds(s: State, path: seq<byte>)
    requires Inv(s) && CanMkdir(s, path)
    ensures DoMkdir(s, path).fdCnt == s.fdCnt
  {
  }

  lemma ImportFds(s: State, host: HostFile, path: seq<byte>)
    requires Inv(s) && CanImport(s, host, path)
    ensures FdsStep(s, DoImport(s, host, path).0, DoImport(s, host, path).1)
  {
    OpenFds(s, path, WriteFlag);
  }

  lemma ExportFds(s: State, path: seq<byte>)
    requires Inv(s) && CanExport(s, path)
    ensures FdsStep(s, DoExport(s, path).0, DoExport(s, path).1)
  {
    OpenFds(s, path, ReadFlag);
  }

  lemma ExecFds(s: State, path: seq<byte>)
    requires Inv(s) && CanOpen(s, path, ReadFlag)
    ensures FdsStep(s, DoExec(s, path).0, DoExec(s, path).1)
  {
    OpenFds(s, path, ReadFlag);
    OpenKeeps(s, path, ReadFlag);
    var (s1, o) := DoOpen(s, path, ReadFlag);
    if o.Opened? {
      DescKeeps(s1, o.fd, 0);
      ExportFds(DoClose(s1, o.fd), path);
    }
  }

  lemma FileFds(s: State, fd: int, data: seq<byte>, name: Name)
    requires Inv(s)
    ensures CanWrite(s, fd, data) ==> FdsStep(s, DoWrite(s, fd, data).0, DoWrite(s, fd, data).1)
    ensures CanRm(s, name) ==> FdsStep(s, DoRm(s, name).0, DoRm(s, name).1)
  {
  }

  lemma StepFds(s: State, c: Cmd)
    requires Inv(s) && Enabled(s, c)
    ensures FdsStep(s, Step(s, c).0, Step(s, c).1)
  {
    match c
    case Open(path, flag) => OpenFds(s, path, flag);
    case Mkdir(path) => MkdirFds(s, path);
    case Write(fd, data) => FileFds(s, fd, data, []);
    case Rm(name) => FileFds(s, 0, [], name);
    case Import(host, path) => ImportFds(s, host, path);
    case Export(path) => ExportFds(s, path);
    case Exec(path) => ExecFds(s, path);
    case _ =>
  }

  /** The descriptors among `outs` rise from above `low` to at most `high`. */
  ghost predicate Rising(low: int, outs: seq<Out>, high: int) {
    && low <= high
    && (forall i :: 0 <= i < |outs| && outs[i].Opened? ==> low < outs[i].fd <= high)
    && (forall i, j :: 0 <= i < j < |outs| && outs[i].Opened? && outs[j].Opened? ==> outs[i].fd < outs[j].fd)
  }

  lemma RisingMore(low: int, outs: seq<Out>, s: State, s': State, o: Out)
    requires Rising(low, outs, s.fdCnt) && FdsStep(s, s', o)
    ensures Rising(low, Push(outs, o), s'.fdCnt)
  {
  }

  /** Descriptors are handed out in strictly increasing order over a whole run, so none comes twice,
      closed or not. */
  lemma {:induction false} FdsIncrease(s: State, cmds: seq<Cmd>)
    requires Inv(s) && Runs(s, cmds)
    ensures Rising(s.fdCnt, Run(s, cmds).1, Run(s, cmds).0.fdCnt)
  {
    if |cmds| > 0 {
      var m := |cmds| - 1;
      FdsIncrease(s, cmds[..m]);
      RunInv(s, cmds[..m]);
      var (s1, outs) := Run(s, cmds[..m]);
      StepFds(s1, cmds[m]);
      RisingMore(s.fdCnt, outs, s1, Step(s1, cmds[m]).0, Step(s1, cmds[m]).1);
    }
  }

  /** What one descriptor writes, another on the same inode reads. */
  lemma SharedInode(s: State, f1: int, f2: int, data: seq<byte>)
    requires Inv(s) && f1 in s.fds && f2 in s.fds && s.fds[f1].inode == s.fds[f2].inode
    requires CanWrite(s, f1, data)
    ensures var s1 := DoWrite(s, f1, data).0; var s2 := DoSeek(s1, f2, s.fds[f1].pos).0;
      CanRead(s2, f2, |data|) && DoRead(s2, f2, |data|).1 == Got(data)
  {
    var i, pos := s.fds[f1].inode, s.fds[f1].pos;
    var f := WriteFile(s.files[i], pos, data);
    assert Shaped(s.files[i]);
    WriteShaped(s.files[i], pos, data);
    ReadBack(f, s.files[i].data, pos, data);
  }

  lemma ReadBack(f: File, before: seq<byte>, pos: nat, data: seq<byte>)
    requires f.Reg? && f.data == Splice(before, pos, data) && Shaped(f)
    ensures ReadFile(f, pos, |data|) == data
  {
    if |data| > 0 {
      assert pos + |data| <= RoundUp(Size(f));
    }
  }

  // ---------- writing past the end ----------

  lemma SpliceGap(s: seq<byte>, off: nat, src: seq<byte>)
    requires |s| <= off
    ensures Splice(s, off, src) == s + Zeros(off - |s|) + src
  {
  }

  /** Reading a file from the start to its end delivers it. */
  lemma ReadWhole(f: File)
    requires Shaped(f)
    ensures ReadFile(f, 0, Size(f)) == Contents(f)
  {
  }

  /** Seek past the end, write, seek back and read: the old content, zeros, the new data. */
  lemma SeekPastEnd(s: State, fd: int, off: nat, data: seq<byte>)
    requires Inv(s) && fd in s.fds && s.fds[fd].inode < |s.files| && s.files[s.fds[fd].inode].Reg?
    requires |s.files[s.fds[fd].inode].data| <= off
    requires CanWrite(DoSeek(s, fd, off).0, fd, data)
    ensures var s1 := DoSeek(s, fd, off).0; var s2 := DoWrite(s1, fd, data).0; var s3 := DoSeek(s2, fd, 0).0;
      var before := s.files[s.fds[fd].inode].data;
      && CanRead(s3, fd, off + |data|)
      && DoRead(s3, fd, off + |data|).1 == Got(before + Zeros(off - |before|) + data)
  {
    var i := s.fds[fd].inode;
    var f := WriteFile(s.files[i], off, data);
    assert Shaped(s.files[i]);
    WriteShaped(s.files[i], off, data);
    SpliceGap(s.files[i].data, off, data);
    ReadWhole(f);
  }

  // ---------- reading past the end ----------

  /** What a read promises: the bytes from `off`, as many as asked for and as there are. */
  function ReadPromise(f: File, off: nat, len: nat): seq<byte>
    requires off < Size(f)
  {
    Chunk(Contents(f), off, if off + len <= Size(f) then len else Size(f) - off)
  }

  /** A read delivers just that exactly when it stays within the file's last block or the file fills that
      block; otherwise it delivers zeros as well, up to the end of the block. */
  lemma ReadExact(f: File, off: nat, len: nat)
    requires Shaped(f) && off < Size(f)
    ensures ReadFile(f, off, len) == ReadPromise(f, off, len) <==>
              off + len <= RoundUp(Size(f)) || Size(f) == RoundUp(Size(f))
    ensures off + len > RoundUp(Size(f)) ==>
              ReadFile(f, off, len) == ReadPromise(f, off, len) + Zeros(RoundUp(Size(f)) - Size(f))
  {
    var n := ReadCount(Size(f), off, len);
    assert off + n <= f.cap;
    assert |ReadFile(f, off, len)| == n;
  }

  /** A file of ten bytes, read from its start for 5000: 4096 bytes come. */
  lemma ReadExactFails()
    ensures var f := Reg(DSIZE, Zeros(10));
      Shaped(f) && |ReadFile(f, 0, 5000)| == 4096 && |ReadPromise(f, 0, 5000)| == 10
  {
    ReadExact(Reg(DSIZE, Zeros(10)), 0, 5000);
  }

  // ---------- entries ----------

  /** An appended entry starts where the file ended before and is decoded from there; the entries before
      it stay where they were, and the counter goes up by one. */
  lemma AppendedEntry(f: File, e: Entry)
    requires f.Dir?
    ensures var f' := Append(f, e); var b := Contents(f');
      && f'.cnt == f.cnt + 1 && |b| == Size(f) + 8 + |e.name|
      && Chunk(b, Size(f), 4) == IntBytes(e.id)
      && Chunk(b, Size(f) + 4, 4) == IntBytes(|e.name|)
      && Chunk(b, Size(f) + 8, |e.name|) == e.name
      && |f'.log| == |f.log| + 1
      && forall r :: 0 <= r < |f.log| ==> EntryOffset(f'.log, r) == EntryOffset(f.log, r) && f'.log[r] == f.log[r]
  {
    var log := Push(f.log, e);
    PushFront(f.log, e);
    EntryBytes(f.cnt + 1, log, |f.log|);
    forall r | 0 <= r < |f.log|
      ensures EntryOffset(log, r) == EntryOffset(f.log, r)
    {
      assert log[..r] == f.log[..r];
    }
  }

  // ---------- paths ----------

  lemma {:induction false} WalkJoin(files: seq<File>, d: nat, a: seq<Name>, b: seq<Name>)
    ensures var (c, ok) := Walk(files, d, a); Walk(files, d, a + b) == if ok then Walk(files, c, b) else (c, ok)
    decreases |a|
  {
    if |a| == 0 {
      assert a + b == b;
    } else {
      assert (a + b)[1..] == a[1..] + b;
      if d < |files| && files[d].Dir? && a[0] in DirTable(files[d]) && DirTable(files[d])[a[0]] >= 0 {
        WalkJoin(files, DirTable(files[d])[a[0]], a[1..], b);
      }
    }
  }

  /** Changing to a joined path is changing to its parts in sequence, when the first change succeeds. */
  lemma CdJoin(s: State, p: seq<byte>, q: seq<byte>)
    requires |p| > 0 && !IsAbsolute(q) && CdTo(s, p).1
    ensures CdTo(s, p + [SLASH] + q) == CdTo(s.(cwd := CdTo(s, p).0), q)
  {
    TokensJoin(p, q);
    WalkJoin(s.files, Start(s, p), Tokens(p), Tokens(q));
    assert (p + [SLASH] + q)[0] == p[0];
  }

  /** A path with a slash in front is followed from the root, wherever the shell is. */
  lemma CdAbsolute(s: State, path: seq<byte>, d: nat)
    ensures CdTo(s, [SLASH] + path) == Walk(s.files, ROOT, Tokens(path))
    ensures CdTo(s.(cwd := d), [SLASH] + path) == CdTo(s, [SLASH] + path)
    ensures CdTo(s, [SLASH]) == (ROOT, true)
  {
    assert [] + [SLASH] + path == [SLASH] + path && [] + [SLASH] + [] == [SLASH];
    TokensJoin([], path);
    TokensJoin([], []);
  }

  /** Any other is followed from the current directory. */
  lemma CdRelative(s: State, path: seq<byte>)
    requires |path| == 0 || path[0] != SLASH
    ensures CdTo(s, path) == Walk(s.files, s.cwd, Tokens(path))
  {
  }

  /** Where the file of a path is looked for: where the part before its last slash leads, from the root if
      it has a slash in front. */
  lemma DirOfPath(s: State, dir: seq<byte>, name: Name, path: seq<byte>)
    requires path == dir + [SLASH] + name && forall i :: 0 <= i < |name| ==> name[i] != SLASH
    ensures NamePart(path) == name
    ensures CdTo(s, DirPart(path)) == Walk(s.files, if |dir| > 0 && dir[0] == SLASH then ROOT else s.cwd, Tokens(dir))
  {
    SplitLast(dir, name, path);
  }

  /** A bare name is looked for in the current directory; so is one with a single slash, in front, since
      nothing is left before it. */
  lemma DirOfName(s: State, name: Name, path: seq<byte>)
    requires Inv(s) && (path == name || path == [] + [SLASH] + name)
    requires forall i :: 0 <= i < |name| ==> name[i] != SLASH
    ensures NamePart(path) == name && CdTo(s, DirPart(path)) == (s.cwd, true)
  {
    if path == name {
      HereByDot(s);
    } else {
      SplitLast([], name, path);
    }
  }

  /** `.` leads where the shell is. */
  lemma HereByDot(s: State)
    requires Inv(s)
    ensures PathOk(s, DOT) && CdTo(s, DOT) == (s.cwd, true)
  {
    SingleToken(DOT);
    assert DirOk(s.files, s.cwd);
    DotEntries(s.files, s.cwd);
    assert [DOT][1..] == [] && Walk(s.files, s.cwd, []) == (s.cwd, true);
  }

  lemma {:induction false} SingleToken(name: Name)
    requires |name| > 0 && forall i :: 0 <= i < |name| ==> name[i] != SLASH
    ensures Tokens(name) == [name]
  {
    var n := WordLength(name);
    assert n == |name|;
    assert name[n..] == [] && name[..n] == name;
    assert Tokens(name[n..]) == [];
  }

  /** Into a subdirectory and back: `..` leads to where the subdirectory was entered from. */
  lemma CdParent(s: State, name: Name)
    requires Inv(s) && PathOk(s, name) && CdTo(s, name).1
    requires |name| > 0 && (forall i :: 0 <= i < |name| ==> name[i] != SLASH) && name != DOT && name != DOTDOT
    ensures CdTo(s.(cwd := CdTo(s, name).0), DOTDOT) == (s.cwd, true)
  {
    SingleToken(name);
    SingleToken(DOTDOT);
    assert WalkOk(s.files, s.cwd, [name]) && Walk(s.files, s.cwd, [name]).1;
    assert !IsAbsolute(name) && !IsAbsolute(DOTDOT);
    ThereAndBack(s.files, s.cwd, name);
  }

  lemma ThereAndBack(files: seq<File>, d: nat, name: Name)
    requires FilesOk(files) && WalkOk(files, d, [name]) && Walk(files, d, [name]).1
    requires name != DOT && name != DOTDOT
    ensures Walk(files, Walk(files, d, [name]).0, [DOTDOT]) == (d, true)
  {
    WalkStep(files, d, [name]);
    assert [name][1..] == [] && [DOTDOT][1..] == [];
    assert DirOk(files, d);
    var r := TableEntry(files, d, name);
    var c := DirTable(files[d])[name];
    assert EntryOk(files, d, files[d].log[r]);
    assert Walk(files, d, [name]) == (c, true);
    assert DirOk(files, c);
    DotEntries(files, c);
    assert DirTable(files[c])[DOTDOT] == d;
    assert Walk(files, d, []) == (d, true);
  }

  /** Opening comes back to the current directory exactly when the path leads there anyway, or the flag is
      `w`, or it is `r` and the name is there. */
  lemma OpenReturns(s: State, path: seq<byte>, flag: Flag)
    requires Inv(s) && CanOpen(s, path, flag)
    ensures var d := CdTo(s, DirPart(path)).0;
      && IsDir(s.files, d)
      && (DoOpen(s, path, flag).0.cwd == s.cwd <==>
            d == s.cwd || flag.WriteFlag? || (flag.ReadFlag? && NamePart(path) in DirTable(s.files[d])))
  {
    CdKeeps(s, DirPart(path));
    OpenHereKeeps(s.(cwd := CdTo(s, DirPart(path)).0), NamePart(path), flag);
  }

  /** A descriptor opened for writing stands at the end of its file exactly when the name was new or stood
      for an empty file. */
  lemma OpenStarts(s: State, path: seq<byte>)
    requires Inv(s) && CanOpen(s, path, WriteFlag)
    ensures var d := CdTo(s, DirPart(path)).0; var name := NamePart(path); var (s', o) := DoOpen(s, path, WriteFlag);
      && IsDir(s.files, d) && (name in DirTable(s.files[d]) ==> 0 <= DirTable(s.files[d])[name] < |s.files|)
      && o.Opened? && o.fd in s'.fds && s'.fds[o.fd].inode < |s'.files|
      && (s'.fds[o.fd].pos == Size(s'.files[s'.fds[o.fd].inode]) <==>
            (name in DirTable(s.files[d]) ==> Size(s.files[DirTable(s.files[d])[name]]) == 0))
  {
    CdKeeps(s, DirPart(path));
    OpenHereKeeps(s.(cwd := CdTo(s, DirPart(path)).0), NamePart(path), WriteFlag);
    OpenKeeps(s, path, WriteFlag);
  }
}
