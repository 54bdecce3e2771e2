/** Runs from a formatted disk that reach what the theorems on exact conditions warn of. */
module Witnesses {
  import opened Bytes
  import opened Layout
  import opened DirLog
  import opened Paths
  import opened Machine
  import opened Invariants
  import opened Theorems
  import opened Removal
  import opened Lookup
  import opened HostCopy

  // ---------- runs ----------

  /** A run and one more command. */
  lemma RunMore(s: State, cmds: seq<Cmd>, c: Cmd, s1: State, outs: seq<Out>, s2: State, o: Out)
    requires Runs(s, cmds) && Run(s, cmds) == (s1, outs) && Enabled(s1, c) && Step(s1, c) == (s2, o)
    ensures Runs(s, Push(cmds, c)) && Run(s, Push(cmds, c)) == (s2, Push(outs, o))
  {
    PushFront(cmds, c);
  }

  /** Two more commands. */
  lemma RunTwo(s: State, cmds: seq<Cmd>, outs: seq<Out>, c1: Cmd, c2: Cmd, s1: State, s2: State, s3: State,
               o1: Out, o2: Out,
               cmds': seq<Cmd>, outs': seq<Out>)
    requires Runs(s, cmds) && Run(s, cmds) == (s1, outs)
    requires Enabled(s1, c1) && Step(s1, c1) == (s2, o1)
    requires Enabled(s2, c2) && Step(s2, c2) == (s3, o2)
    requires cmds' == Push(Push(cmds, c1), c2) && outs' == Push(Push(outs, o1), o2)
    ensures Runs(s, cmds') && Run(s, cmds') == (s3, outs')
  {
    RunMore(s, cmds, c1, s1, outs, s2, o1);
    RunMore(s, Push(cmds, c1), c2, s2, Push(outs, o1), s3, o2);
  }

  // ---------- plain names ----------

  predicate Plain(name: Name) {
    |name| > 0 && forall i :: 0 <= i < |name| ==> name[i] != SLASH
  }

  /** A plain name is looked up in the current directory. */
  lemma PlainPath(s: State, name: Name)
    requires Inv(s) && Plain(name)
    ensures PathOk(s, DirPart(name)) && CdTo(s, DirPart(name)) == (s.cwd, true) && NamePart(name) == name
    ensures LastSlash(name) == -1
  {
    assert DirPart(name) == DOT;
    HereByDot(s);
  }

  /** So is the directory of a path of two plain names. */
  lemma PlainPair(s: State, dir: Name, name: Name)
    requires Inv(s) && Plain(dir) && Plain(name)
    ensures DirPart(dir + [SLASH] + name) == dir && NamePart(dir + [SLASH] + name) == name
    ensures Start(s, dir) == s.cwd && Tokens(dir) == [dir]
  {
    SplitLast(dir, name, dir + [SLASH] + name);
    SingleToken(dir);
  }

  // ---------- making and removing a file in the current directory ----------

  /** Room for `k` more small files in the current directory, without a new block for it. */
  predicate Room(s: State, name: Name, k: nat, bytes: nat) {
    && IsDir(s.files, s.cwd)
    && |s.files| + k <= INUM && Used(s.files) + k <= DNUM
    && bytes >= 8 + |name| && Size(s.files[s.cwd]) + bytes <= s.files[s.cwd].cap
  }

  lemma PushUsed(files: seq<File>, f: File)
    ensures Used(Push(files, f)) == Used(files) + BlocksFor(f.cap)
  {
    PushFront(files, f);
  }

  lemma PushSize(log: seq<Entry>, e: Entry)
    ensures LogSize(Push(log, e)) == LogSize(log) + 8 + |e.name|
  {
    PushFront(log, e);
  }

  /** The state after importing under a plain new name. */
  function Made(s: State, name: Name, data: seq<byte>): State
    requires IsDir(s.files, s.cwd)
  {
    s.(files := AddFile(s.files, s.cwd, EmptyFile(), name)[|s.files| := Reg(DSIZE, data)],
       fds := s.fds - {s.fdCnt + 1}, fdCnt := s.fdCnt + 1)
  }

  lemma MakeFits(s: State, name: Name, k: nat, bytes: nat, files1: seq<File>)
    requires Inv(s) && |name| > 0 && Room(s, name, k, bytes) && k > 0
    requires files1 == AddFile(s.files, s.cwd, EmptyFile(), name)
    ensures AddFits(s.files, s.cwd, name) && Used(files1) == Used(s.files) + 1 && |files1| == |s.files| + 1
    ensures Size(files1[s.cwd]) == Size(s.files[s.cwd]) + 8 + |name| && files1[s.cwd].cap == s.files[s.cwd].cap
  {
    assert Shaped(s.files[s.cwd]);
    PushUsed(s.files, EmptyFile());
    PushSize(s.files[s.cwd].log, Entry(|s.files|, name));
    UsedUpdate(Push(s.files, EmptyFile()), s.cwd, files1[s.cwd]);
  }

  lemma MakeOpens(s: State, name: Name, s1: State)
    requires Inv(s) && Plain(name) && AddFits(s.files, s.cwd, name) && name !in DirTable(s.files[s.cwd])
    requires s1.files == AddFile(s.files, s.cwd, EmptyFile(), name) && s1.cwd == s.cwd
    requires s1.fds == s.fds[s.fdCnt + 1 := Desc(|s.files|, 0)] && s1.fdCnt == s.fdCnt + 1
    ensures CanOpen(s, name, WriteFlag) && DoOpen(s, name, WriteFlag) == (s1, Opened(s.fdCnt + 1)) && Inv(s1)
  {
    PlainPath(s, name);
    assert s.(cwd := s.cwd) == s;
    OpenHereCreates(s, name, s1);
    assert s1.(cwd := s.cwd) == s1;
  }

  lemma MakeWrites(s1: State, fd: int, n: nat, data: seq<byte>, s2: State)
    requires Inv(s1) && fd in s1.fds && s1.fds[fd] == Desc(n, 0) && n < |s1.files| && s1.files[n] == EmptyFile()
    requires |data| <= DSIZE && Used(s1.files) <= DNUM
    requires s2 == s1.(files := s1.files[n := Reg(DSIZE, data)], fds := s1.fds[fd := Desc(n, |data|)])
    ensures CanWrite(s1, fd, data) && DoWrite(s1, fd, data) == (s2, Done) && Inv(s2)
    ensures Used(s2.files) == Used(s1.files)
  {
    WrittenSmall(data);
    WriteEnds(s1, fd, data, n, 0, s2);
    UsedUpdate(s1.files, n, Reg(DSIZE, data));
  }

  lemma WrittenSmall(data: seq<byte>)
    requires |data| <= DSIZE
    ensures WriteFile(EmptyFile(), 0, data) == Reg(DSIZE, data)
    ensures NewBlocks(DSIZE, WriteEnd(0, |data|)) == 0 && WriteEnd(0, |data|) <= DSIZE
  {
  }

  /** Importing a small file under a plain new name. */
  lemma MakeSmall(s: State, name: Name, data: seq<byte>, k: nat, bytes: nat, s': State)
    requires Inv(s) && Plain(name) && Room(s, name, k, bytes) && k > 0 && |data| <= DSIZE
    requires name !in DirTable(s.files[s.cwd]) && s' == Made(s, name, data)
    ensures CanImport(s, Host(data), name) && DoImport(s, Host(data), name) == (s', Done)
    ensures Inv(s') && Used(s'.files) == Used(s.files) + 1 && |s'.files| == |s.files| + 1
    ensures Size(s'.files[s.cwd]) == Size(s.files[s.cwd]) + 8 + |name| && s'.files[s.cwd].cap == s.files[s.cwd].cap
  {
    var n, fd := |s.files|, s.fdCnt + 1;
    var files1 := AddFile(s.files, s.cwd, EmptyFile(), name);
    var s1 := State(files1, s.cwd, s.fds[fd := Desc(n, 0)], fd);
    var s2 := State(files1[n := Reg(DSIZE, data)], s.cwd, s.fds[fd := Desc(n, |data|)], fd);
    MakeFits(s, name, k, bytes, files1);
    MakeOpens(s, name, s1);
    MakeWrites(s1, fd, n, data, s2);
    assert s2.fds - {fd} == s'.fds;
    CloseEnds(s2, fd, s');
  }

  /** The state after unlinking raw entry `p` of the current directory. */
  function Unlinked(s: State, p: nat): State
    requires IsDir(s.files, s.cwd) && p < |s.files[s.cwd].log|
  {
    s.(files := s.files[s.cwd := Unlink(s.files[s.cwd], p)])
  }

  lemma RmAt(s: State, name: Name, p: nat, s': State)
    requires Inv(s) && 2 <= p < s.files[s.cwd].cnt && p < |s.files[s.cwd].log| && s.files[s.cwd].log[p].name == name
    requires forall q :: 0 <= q < p ==> s.files[s.cwd].log[q].name != name
    requires !Occupied(s.files, s.files[s.cwd].log[p].id) && s' == Unlinked(s, p)
    ensures CanRm(s, name) && DoRm(s, name) == (s', Done) && Inv(s')
    ensures Used(s'.files) == Used(s.files) && Size(s'.files[s.cwd]) == Size(s.files[s.cwd])
  {
    var f := s.files[s.cwd];
    assert DirOk(s.files, s.cwd);
    FirstOccurrence(f.log, f.cnt, name, p);
    RmStepKeeps(s, name);
    UsedUpdate(s.files, s.cwd, Unlink(f, p));
    DeleteSize(f.log, p);
  }

  /** Raw entry `p` is where a removal of `name` hits, once entry `e` has been appended. */
  predicate Hits(f: File, e: Entry, p: nat)
    requires f.Dir?
  {
    && 2 <= p < f.cnt + 1 && p <= |f.log|
    && (forall q :: 0 <= q < p ==> f.log[q].name != e.name)
    && (p < |f.log| ==> f.log[p] == Entry(DELETED, e.name))
  }

  /** Making a file and removing its name at once, whatever entry the removal hits. */
  lemma MakeRm(s: State, name: Name, data: seq<byte>, p: nat, k: nat, bytes: nat, s1: State, s2: State)
    requires Inv(s) && Plain(name) && Room(s, name, k, bytes) && k > 0 && |data| <= DSIZE
    requires name !in DirTable(s.files[s.cwd]) && Hits(s.files[s.cwd], Entry(|s.files|, name), p)
    requires s1 == Made(s, name, data) && s2 == Unlinked(s1, p)
    ensures CanImport(s, Host(data), name) && DoImport(s, Host(data), name) == (s1, Done)
    ensures CanRm(s1, name) && DoRm(s1, name) == (s2, Done)
    ensures Inv(s2) && s2.cwd == s.cwd && |s2.files| == |s.files| + 1 && s2.files[|s.files|] == Reg(DSIZE, data)
    ensures bytes - 8 - |name| >= 8 + |name| ==> Room(s2, name, k - 1, bytes - 8 - |name|)
  {
    MakeSmall(s, name, data, k, bytes, s1);
    RmAt(s1, name, p, s2);
  }

  /** The same, as far as the state is concerned. */
  lemma MadeRm(s: State, name: Name, data: seq<byte>, p: nat, k: nat, bytes: nat, s2: State)
    requires Inv(s) && Plain(name) && Room(s, name, k, bytes) && k > 0 && |data| <= DSIZE
    requires name !in DirTable(s.files[s.cwd]) && Hits(s.files[s.cwd], Entry(|s.files|, name), p)
    requires s2 == Unlinked(Made(s, name, data), p)
    ensures Inv(s2) && s2.cwd == s.cwd && |s2.files| == |s.files| + 1 && s2.files[|s.files|] == Reg(DSIZE, data)
    ensures forall i :: 0 <= i < |s.files| && i != s.cwd ==> s2.files[i] == s.files[i]
    ensures bytes - 8 - |name| >= 8 + |name| ==> Room(s2, name, k - 1, bytes - 8 - |name|)
    ensures var f, g := s.files[s.cwd], s2.files[s.cwd]; var log := Push(f.log, Entry(|s.files|, name));
      g.cap == f.cap && g.cnt == f.cnt && g.log == log[p := Entry(DELETED, log[p].name)]
  {
    MakeRm(s, name, data, p, k, bytes, Made(s, name, data), s2);
    assert Shaped(s.files[s.cwd]);
  }

  lemma NotShown(f: File, name: Name)
    requires f.Dir? && 0 <= f.cnt <= |Live(f.log)|
    requires forall q :: 0 <= q < f.cnt ==> Live(f.log)[q].name != name
    ensures name !in DirTable(f)
  {
    var es := Visible(f.cnt, f.log);
    if name in Table(es) {
      var q := TableValue(es, name);
    }
  }

  /** Importing under a name and removing it at once, in a run that has led to `s`. */
  lemma MakeRmRun(s0: State, cmds: seq<Cmd>, outs: seq<Out>, s: State, name: Name, data: seq<byte>,
                  p: nat, k: nat, bytes: nat, s2: State, cmds': seq<Cmd>, outs': seq<Out>)
    requires Runs(s0, cmds) && Run(s0, cmds) == (s, outs)
    requires cmds' == Push(Push(cmds, Import(Host(data), name)), Rm(name)) && outs' == Push(Push(outs, Done), Done)
    requires Inv(s) && Plain(name) && Room(s, name, k, bytes) && k > 0 && |data| <= DSIZE
    requires name !in DirTable(s.files[s.cwd]) && Hits(s.files[s.cwd], Entry(|s.files|, name), p)
    requires s2 == Unlinked(Made(s, name, data), p)
    ensures Runs(s0, cmds') && Run(s0, cmds') == (s2, outs')
  {
    var s1 := Made(s, name, data);
    MakeRm(s, name, data, p, k, bytes, s1, s2);
    RunTwo(s0, cmds, outs, Import(Host(data), name), Rm(name), s, s1, s2, Done, Done, cmds', outs');
  }

  /** What the directory holds after twice that: an old live entry of the name, not counted. */
  lemma StaleEntry(f: File, g: File, name: Name, a: int, b: int)
    requires f.Dir? && g.Dir? && NothingDeleted(f) && a != DELETED && b != DELETED
    requires forall q :: 0 <= q < |f.log| ==> f.log[q].name != name
    requires g.cnt == f.cnt && |g.log| == |f.log| + 2
    requires forall q :: 0 <= q < |f.log| ==> g.log[q] == f.log[q]
    requires g.log[|f.log|] == Entry(DELETED, name) && g.log[|f.log| + 1] == Entry(b, name)
    ensures name !in DirTable(g) && 0 <= g.cnt < |Live(g.log)| && Live(g.log)[g.cnt] == Entry(b, name)
  {
    LiveBut(f.log, Entry(a, name), Entry(b, name), g.log);
    NotShown(g, name);
  }

  /** Inode `i`, holding `b`, is named by an old live entry that the current directory does not count. */
  ghost predicate Stale(s: State, name: Name, i: nat, b: seq<byte>) {
    && IsDir(s.files, s.cwd) && i < |s.files| && s.files[i] == Reg(DSIZE, b)
    && var g := s.files[s.cwd];
    name !in DirTable(g) && 0 <= g.cnt < |Live(g.log)| && Live(g.log)[g.cnt] == Entry(i, name)
  }

  /** Directory `f` after a file of that name was made and removed. */
  ghost predicate Remains(f: File, g: File, name: Name) {
    && f.Dir? && g.Dir? && g.cnt == f.cnt && |g.log| == |f.log| + 1
    && (forall q :: 0 <= q < |f.log| ==> g.log[q] == f.log[q])
    && g.log[|f.log|] == Entry(DELETED, name)
  }

  /** A directory in which nothing was deleted, and no entry has the name. */
  ghost predicate Clean(f: File, name: Name) {
    f.Dir? && NothingDeleted(f) && forall q :: 0 <= q < |f.log| ==> f.log[q].name != name
  }

  lemma OnceRemoved(s: State, name: Name, a: seq<byte>, s2: State)
    requires Inv(s) && Plain(name) && Room(s, name, 3, 24 + 3 * |name|) && |a| <= DSIZE
    requires Clean(s.files[s.cwd], name) && s2 == Unlinked(Made(s, name, a), |s.files[s.cwd].log|)
    ensures name !in DirTable(s.files[s.cwd]) && Hits(s.files[s.cwd], Entry(|s.files|, name), |s.files[s.cwd].log|)
    ensures Inv(s2) && s2.cwd == s.cwd && |s2.files| == |s.files| + 1 && Room(s2, name, 2, 16 + 2 * |name|)
    ensures Remains(s.files[s.cwd], s2.files[s.cwd], name)
    ensures name !in DirTable(s2.files[s.cwd])
    ensures Hits(s2.files[s.cwd], Entry(|s2.files|, name), |s.files[s.cwd].log|)
  {
    var f, p := s.files[s.cwd], |s.files[s.cwd].log|;
    assert DirOk(s.files, s.cwd);
    AllLive(f.log);
    NotShown(f, name);
    MadeRm(s, name, a, p, 3, 24 + 3 * |name|, s2);
    LiveFront(f.log, Entry(|s.files|, name), s2.files[s.cwd].log);
    NotShown(s2.files[s.cwd], name);
  }

  lemma TwiceRemoved(s: State, f: File, name: Name, b: seq<byte>, s4: State)
    requires Inv(s) && Plain(name) && Room(s, name, 2, 16 + 2 * |name|) && |b| <= DSIZE
    requires Clean(f, name) && Remains(f, s.files[s.cwd], name) && name !in DirTable(s.files[s.cwd])
    requires Hits(s.files[s.cwd], Entry(|s.files|, name), |f.log|)
    requires s4 == Unlinked(Made(s, name, b), |f.log|)
    ensures Inv(s4) && Room(s4, name, 1, 8 + |name|) && Stale(s4, name, |s.files|, b)
  {
    MadeRm(s, name, b, |f.log|, 2, 16 + 2 * |name|, s4);
    StaleEntry(f, s4.files[s.cwd], name, 0, |s.files|);
  }

  /** The next import of the name can be made, and an export then delivers the stale file. */
  lemma StaleDelivers(s: State, name: Name, i: nat, b: seq<byte>, c: seq<byte>)
    requires Inv(s) && Plain(name) && Stale(s, name, i, b) && CanImport(s, Host(c), name)
    ensures var s' := DoImport(s, Host(c), name).0; CanExport(s', name) && DoExport(s', name).1 == Got(b)
  {
    PlainPath(s, name);
    WalkStops(s.files, Start(s, DirPart(name)), Tokens(DirPart(name)));
    ImportStale(s, c, name, s.cwd);
  }

  lemma CanMakeSmall(s: State, name: Name, data: seq<byte>, k: nat, bytes: nat)
    requires Inv(s) && Plain(name) && Room(s, name, k, bytes) && k > 0 && |data| <= DSIZE
    requires name !in DirTable(s.files[s.cwd])
    ensures CanImport(s, Host(data), name) && DoImport(s, Host(data), name).1 == Done
  {
    MakeSmall(s, name, data, k, bytes, Made(s, name, data));
  }

  lemma StaleLast(s0: State, cmds: seq<Cmd>, outs: seq<Out>, s: State, name: Name, i: nat, b: seq<byte>, c: seq<byte>,
                  cmds': seq<Cmd>, outs': seq<Out>)
    requires Runs(s0, cmds) && Run(s0, cmds) == (s, outs) && |c| <= DSIZE
    requires cmds' == Push(Push(cmds, Import(Host(c), name)), Export(name)) && outs' == Push(Push(outs, Done), Got(b))
    requires Inv(s) && Plain(name) && Room(s, name, 1, 8 + |name|) && Stale(s, name, i, b)
    ensures Runs(s0, cmds') && Run(s0, cmds').1 == outs'
  {
    CanMakeSmall(s, name, c, 1, 8 + |name|);
    StaleDelivers(s, name, i, b, c);
    var s1 := DoImport(s, Host(c), name).0;
    RunTwo(s0, cmds, outs, Import(Host(c), name), Export(name), s, s1, DoExport(s1, name).0, Done, Got(b),
           cmds', outs');
  }

  function StaleCmds(name: Name, a: seq<byte>, b: seq<byte>, c: seq<byte>): seq<Cmd> {
    [Import(Host(a), name), Rm(name), Import(Host(b), name), Rm(name), Import(Host(c), name), Export(name)]
  }

  /** A list of six, built one by one. */
  lemma SixPushed<T>(a: T, b: T, c: T, d: T, e: T, f: T)
    ensures Push(Push(Push(Push(Push(Push([], a), b), c), d), e), f) == [a, b, c, d, e, f]
  {
  }

  lemma TwoPushed<T>(a: T, b: T)
    ensures Push(Push([], a), b) == [a, b]
  {
  }

  /** Import and remove, import and remove, import under one name, then export: the second file comes, not
      the third. */
  lemma StaleCopy(s: State, name: Name, a: seq<byte>, b: seq<byte>, c: seq<byte>)
    requires Inv(s) && Plain(name) && Room(s, name, 3, 24 + 3 * |name|) && NothingDeleted(s.files[s.cwd])
    requires |a| <= DSIZE && |b| <= DSIZE && |c| <= DSIZE
    requires forall q :: 0 <= q < |s.files[s.cwd].log| ==> s.files[s.cwd].log[q].name != name
    ensures Runs(s, StaleCmds(name, a, b, c))
    ensures Run(s, StaleCmds(name, a, b, c)).1 == [Done, Done, Done, Done, Done, Got(b)]
  {
    var p := |s.files[s.cwd].log|;
    var s2 := Unlinked(Made(s, name, a), p);
    var s4 := Unlinked(Made(s2, name, b), p);
    var c2: seq<Cmd> := Push(Push([], Import(Host(a), name)), Rm(name));
    var c4 := Push(Push(c2, Import(Host(b), name)), Rm(name));
    var c6 := Push(Push(c4, Import(Host(c), name)), Export(name));
    var o2: seq<Out> := Push(Push([], Done), Done);
    var o4 := Push(Push(o2, Done), Done);
    var o6 := Push(Push(o4, Done), Got(b));
    OnceRemoved(s, name, a, s2);
    TwiceRemoved(s2, s.files[s.cwd], name, b, s4);
    MakeRmRun(s, [], [], s, name, a, p, 3, 24 + 3 * |name|, s2, c2, o2);
    MakeRmRun(s, c2, o2, s2, name, b, p, 2, 16 + 2 * |name|, s4, c4, o4);
    StaleLast(s, c4, o4, s4, name, |s.files| + 1, b, c, c6, o6);
    SixPushed(Import(Host(a), name), Rm(name), Import(Host(b), name), Rm(name), Import(Host(c), name), Export(name));
    SixPushed(Done, Done, Done, Done, Done, Got(b));
  }

  // ---------- from a formatted disk ----------

  const X: Name := [120]
  const DIR: Name := [97]

  lemma FormattedRoom(name: Name)
    requires 0 < |name| <= 100
    ensures Inv(Formatted(-1)) && Room(Formatted(-1), name, 3, 24 + 3 * |name|)
    ensures NothingDeleted(Formatted(-1).files[ROOT])
  {
    var files := Formatted(-1).files;
    FormattedInv(-1);
    EmptyShaped(ROOT, ROOT);
    assert files[..0] == [];
    assert Used(files) == 1;
  }

  /** `x` is imported and removed, imported and removed, imported with content 3; its export is content 2. */
  lemma StaleFromFormatted()
    ensures var cmds := StaleCmds(X, [1], [2], [3]);
      && Runs(Formatted(-1), cmds)
      && Run(Formatted(-1), cmds).1 == [Done, Done, Done, Done, Done, Got([2])]
  {
    FormattedRoom(X);
    StaleCopy(Formatted(-1), X, [1], [2], [3]);
  }

  /** A known name, here of one byte's content, is opened for writing at its start. */
  lemma StartsBeforeEnd()
    ensures var cmds := [Import(Host([1]), X), Open(X, WriteFlag)];
      && Runs(Formatted(-1), cmds)
      && var (s, outs) := Run(Formatted(-1), cmds);
      && outs == [Done, Opened(1)] && 1 in s.fds && s.fds[1] == Desc(1, 0)
      && |s.files| == 2 && Size(s.files[1]) == 1
  {
    var s := Formatted(-1);
    var s1 := Made(s, X, [1]);
    XMade(s, s1);
    OpenKnown(s1, X, 1);
    var s2 := Register(s1, 1);
    var c1, c2 := Import(Host([1]), X), Open(X, WriteFlag);
    TwoPushed(c1, c2);
    TwoPushed(Done, Opened(1));
    RunTwo(s, [], [], c1, c2, s, s1, s2, Done, Opened(1), [c1, c2], [Done, Opened(1)]);
  }

  lemma XMade(s: State, s1: State)
    requires s == Formatted(-1) && s1 == Made(s, X, [1])
    ensures Inv(s) && CanImport(s, Host([1]), X) && DoImport(s, Host([1]), X) == (s1, Done) && Inv(s1)
    ensures X in DirTable(s1.files[s1.cwd]) && DirTable(s1.files[s1.cwd])[X] == 1
    ensures s1.fdCnt == 0 && |s1.files| == 2 && s1.files[1] == Reg(DSIZE, [1])
  {
    FormattedRoom(X);
    RootNames(X);
    MakeSmall(s, X, [1], 3, 27, s1);
    AppendShows(s.files[ROOT], Entry(1, X));
  }

  /** A formatted root shows itself and its parent only, and counts them. */
  lemma RootNames(name: Name)
    requires name != DOT && name != DOTDOT
    ensures var f := Formatted(-1).files[ROOT]; name !in DirTable(f) && f.cnt == |Live(f.log)|
  {
    EmptyDirLive(ROOT, ROOT);
    NotShown(EmptyDir(ROOT, ROOT), name);
  }

  lemma OpenKnown(s: State, name: Name, i: nat)
    requires Inv(s) && Plain(name) && name in DirTable(s.files[s.cwd]) && DirTable(s.files[s.cwd])[name] == i
    ensures CanOpen(s, name, WriteFlag) && DoOpen(s, name, WriteFlag) == (Register(s, i), Opened(s.fdCnt + 1))
  {
    PlainPath(s, name);
    assert s.(cwd := s.cwd) == s;
    assert Register(s, i).(cwd := s.cwd) == Register(s, i);
  }

  /** Opening a missing file of a subdirectory for reading leaves the shell in that subdirectory. */
  lemma StaysBelow()
    ensures var cmds := [Mkdir(DIR), Open(DIR + [SLASH] + X, ReadFlag)];
      && Runs(Formatted(-1), cmds)
      && var (s, outs) := Run(Formatted(-1), cmds);
      outs == [Done, Failed] && s.cwd == 1 != Formatted(-1).cwd
  {
    var s := Formatted(-1);
    FormattedRoom(DIR);
    RootNames(DIR);
    var s1 := s.(files := AddFile(s.files, ROOT, EmptyDir(1, ROOT), DIR));
    DirMade(s, s1);
    OpenBelow(s1, DIR, X, 1);
    var c1, c2 := Mkdir(DIR), Open(DIR + [SLASH] + X, ReadFlag);
    TwoPushed(c1, c2);
    TwoPushed(Done, Failed);
    RunTwo(s, [], [], c1, c2, s, s1, s1.(cwd := 1), Done, Failed, [c1, c2], [Done, Failed]);
  }

  lemma DirMade(s: State, s1: State)
    requires s == Formatted(-1) && Inv(s) && Room(s, DIR, 3, 27) && DIR !in DirTable(s.files[ROOT])
    requires s.files[ROOT].cnt == |Live(s.files[ROOT].log)|
    requires s1 == s.(files := AddFile(s.files, ROOT, EmptyDir(1, ROOT), DIR))
    ensures CanMkdir(s, DIR) && DoMkdir(s, DIR) == s1 && Inv(s1)
    ensures DIR in DirTable(s1.files[ROOT]) && DirTable(s1.files[ROOT])[DIR] == 1
    ensures s1.files[1] == EmptyDir(1, ROOT) && X !in DirTable(s1.files[1])
  {
    MakeFits(s, DIR, 3, 27, AddFile(s.files, ROOT, EmptyFile(), DIR));
    PlainPath(s, DIR);
    assert s.(cwd := s.cwd) == s;
    MkdirEnds(s, DIR, s1);
    assert s1.(cwd := s.cwd) == s1;
    AppendShows(s.files[ROOT], Entry(1, DIR));
    EmptyDirLive(1, ROOT);
    NotShown(EmptyDir(1, ROOT), X);
  }

  lemma OpenBelow(s: State, dir: Name, name: Name, d: nat)
    requires Inv(s) && Plain(dir) && Plain(name) && IsDir(s.files, d)
    requires dir in DirTable(s.files[s.cwd]) && DirTable(s.files[s.cwd])[dir] == d && name !in DirTable(s.files[d])
    ensures CanOpen(s, dir + [SLASH] + name, ReadFlag)
    ensures DoOpen(s, dir + [SLASH] + name, ReadFlag) == (s.(cwd := d), Failed)
  {
    var path := dir + [SLASH] + name;
    PlainPair(s, dir, name);
    assert [dir][1..] == [];
    assert Walk(s.files, d, []) == (d, true) && WalkOk(s.files, d, []);
    assert Walk(s.files, s.cwd, [dir]) == (d, true) && WalkOk(s.files, s.cwd, [dir]);
    assert CdTo(s, DirPart(path)) == (d, true);
  }

  /** A file imported to `x/x`, where `x` is missing, becomes `x`, and is then in the way of that path. */
  lemma InTheWay()
    ensures var path := X + [SLASH] + X;
      && CanImport(Formatted(-1), Host([1]), path)
      && !CanExport(DoImport(Formatted(-1), Host([1]), path).0, path)
  {
    var s, path := Formatted(-1), X + [SLASH] + X;
    FormattedRoom(X);
    RootNames(X);
    PlainPair(s, X, X);
    assert WalkOk(s.files, s.cwd, [X]) && Walk(s.files, s.cwd, [X]) == (s.cwd, false);
    assert CdTo(s, DirPart(path)) == (s.cwd, false) && PathOk(s, DirPart(path));
    ImportsHere(s, path);
    ImportedNew(s, [1], path, s.cwd, X, DoImport(s, Host([1]), path).0.files);
    assert Unfollowed(s.files, s.cwd, [X]) == [X];
    assert NextShown(s.files[s.cwd], Entry(1, X)) == Entry(1, X);
    ImportExport(s, [1], path);
  }

  lemma ImportsHere(s: State, path: seq<byte>)
    requires s == Formatted(-1) && Inv(s) && Room(s, X, 3, 27) && X !in DirTable(s.files[s.cwd])
    requires NamePart(path) == X && CdTo(s, DirPart(path)) == (s.cwd, false) && PathOk(s, DirPart(path))
    ensures CanImport(s, Host([1]), path)
  {
    var s1 := s.(files := AddFile(s.files, s.cwd, EmptyFile(), X), fds := s.fds[0 := Desc(1, 0)], fdCnt := 0);
    MakeFits(s, X, 3, 27, s1.files);
    assert s.(cwd := CdTo(s, DirPart(path)).0) == s;
    OpenHereCreates(s, X, s1);
    assert s1.(cwd := s.cwd) == s1;
    MakeWrites(s1, 0, 1, [1], s1.(files := s1.files[1 := Reg(DSIZE, [1])], fds := s1.fds[0 := Desc(1, 1)]));
  }
}
