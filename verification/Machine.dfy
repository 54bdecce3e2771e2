/** The file system as its users see it: files are byte sequences, directories are entry logs,
    descriptors are pairs of an inode and a position.  Each command is a function on this state. */
module Machine {
  import opened Bytes
  import opened Layout
  import opened DirLog
  import opened Order
  import opened Paths

  datatype File =
    | Reg(cap: nat, data: seq<byte>)
    | Dir(cap: nat, cnt: int, log: seq<Entry>)

  datatype Desc = Desc(inode: nat, pos: int)

  datatype State = State(files: seq<File>, cwd: nat, fds: map<int, Desc>, fdCnt: int)

  datatype Flag = ReadFlag | WriteFlag | BadFlag

  datatype HostFile = Missing | Host(data: seq<byte>)

  datatype Cmd =
    | Mkfs
    | Open(path: seq<byte>, flag: Flag)
    | Mkdir(path: seq<byte>)
    | Cd(path: seq<byte>)
    | Seek(fd: int, off: int)
    | Write(fd: int, data: seq<byte>)
    | Read(fd: int, len: int)
    | Close(fd: int)
    | Rm(name: Name)
    | Import(host: HostFile, path: seq<byte>)
    | Export(path: seq<byte>)
    | Ls
    | Cat(name: Name)
    | Tree
    | Exec(path: seq<byte>)

  /** A row of `ls`. */
  datatype Row = Row(name: Name, dir: bool, size: nat)

  /** A line of `tree`: a name, indented by `depth`. */
  datatype Line = Line(depth: int, name: Name)

  datatype Out =
    | Done
    | Failed
    | Opened(fd: int)
    | Got(data: seq<byte>)
    | Shown(rows: seq<Row>)
    | Drawn(lines: seq<Line>)

  const ROOT := 0

  // ---------- files ----------

  function Size(f: File): nat {
    match f
    case Reg(_, data) => |data|
    case Dir(_, _, log) => 4 + LogSize(log)
  }

  /** The bytes of a file. */
  function Contents(f: File): (b: seq<byte>)
    ensures |b| == Size(f)
  {
    match f
    case Reg(_, data) => data
    case Dir(_, cnt, log) => EncodeDir(cnt, log)
  }

  function Max(a: int, b: int): int {
    if a < b then b else a
  }

  function RoundUp(n: int): int {
    (n + DSIZE - 1) / DSIZE * DSIZE
  }

  /** End of a write of `len` bytes at `off`; an empty write still wants the byte at `off`. */
  function WriteEnd(off: int, len: int): int {
    off + Max(len, 1)
  }

  /** Capacity after growing block by block until `end` fits. */
  function GrowCap(cap: nat, end: int): (c: nat)
    decreases end - cap
  {
    if end <= cap then cap else GrowCap(cap + DSIZE, end)
  }

  /** Data blocks that growing costs: one a step, and the indirect table with the second block. */
  function NewBlocks(cap: nat, end: int): nat
    decreases end - cap
  {
    if end <= cap then 0 else (if cap == DSIZE then 2 else 1) + NewBlocks(cap + DSIZE, end)
  }

  /** Data blocks behind a capacity: the file blocks and, past the first, the indirect table. */
  function BlocksFor(cap: int): int {
    cap / DSIZE + if cap > DSIZE then 1 else 0
  }

  /** Data blocks in use. */
  function Used(files: seq<File>): int {
    if |files| == 0 then 0 else Used(files[..|files| - 1]) + BlocksFor(files[|files| - 1].cap)
  }

  function WriteFile(f: File, off: nat, src: seq<byte>): File
    requires f.Reg?
  {
    Reg(GrowCap(f.cap, WriteEnd(off, |src|)), Splice(f.data, off, src))
  }

  /** The largest file and the disk have room for a write that ends at `end`. */
  predicate EndFits(cap: nat, end: int, used: int) {
    end <= CAP1 && used + NewBlocks(cap, end) <= DNUM
  }

  /** Bytes that reading `len` bytes at `off` delivers from a file of `size` bytes.  Only a read that
      stays within the file's last block is cut at the end of the file; one that would go past that
      block delivers all of it. */
  function ReadCount(size: nat, off: nat, len: nat): (n: nat)
    ensures n <= len
  {
    if off >= size then 0
    else if off + len > RoundUp(size) then RoundUp(size) - off
    else if len > size - off then size - off
    else len
  }

  function ReadFile(f: File, off: nat, len: nat): seq<byte> {
    Chunk(Pad(Contents(f), f.cap), off, ReadCount(Size(f), off, len))
  }

  // ---------- directories ----------

  function EmptyFile(): File {
    Reg(DSIZE, [])
  }

  function EmptyDir(id: int, parent: int): File {
    Dir(DSIZE, 2, [Entry(id, DOT), Entry(parent, DOTDOT)])
  }

  function DirTable(f: File): map<Name, int>
    requires f.Dir?
  {
    Table(Visible(Max(f.cnt, 0), f.log))
  }

  /** End of the last of the three writes that append an entry. */
  function AppendEnd(f: File, name: Name): int {
    WriteEnd(Size(f) + 8, |name|)
  }

  function Append(f: File, e: Entry): File
    requires f.Dir?
  {
    Dir(GrowCap(f.cap, AppendEnd(f, e.name)), f.cnt + 1, Push(f.log, e))
  }

  predicate AppendFits(f: File, name: Name, used: int)
    requires f.Dir?
  {
    EndFits(f.cap, AppendEnd(f, name), used)
  }

  /** First raw entry below `cnt` with the given name, deleted or not; `cnt` when there is none. */
  function FirstRaw(log: seq<Entry>, cnt: nat, name: Name): (r: nat)
    requires cnt <= |log|
    ensures r <= cnt
    ensures r < cnt ==> log[r].name == name
    ensures forall q :: 0 <= q < r ==> log[q].name != name
  {
    if cnt == 0 then 0
    else
      var r := FirstRaw(log, cnt - 1, name);
      if r < cnt - 1 || log[cnt - 1].name == name then r else cnt
  }

  // ---------- paths ----------

  function Start(s: State, path: seq<byte>): nat {
    if IsAbsolute(path) then ROOT else s.cwd
  }

  /** Follows names from directory `d`; stops in the last directory reached when a name is missing. */
  function Walk(files: seq<File>, d: nat, names: seq<Name>): (nat, bool)
    decreases |names|
  {
    if |names| == 0 then (d, true)
    else if d < |files| && files[d].Dir? && names[0] in DirTable(files[d]) && DirTable(files[d])[names[0]] >= 0 then
      Walk(files, DirTable(files[d])[names[0]], names[1..])
    else (d, false)
  }

  /** Every inode entered on the walk is a directory. */
  predicate WalkOk(files: seq<File>, d: nat, names: seq<Name>)
    decreases |names|
  {
    && d < |files| && files[d].Dir?
    && (|names| > 0 && names[0] in DirTable(files[d]) && DirTable(files[d])[names[0]] >= 0 ==>
          WalkOk(files, DirTable(files[d])[names[0]], names[1..]))
  }

  predicate PathOk(s: State, path: seq<byte>) {
    WalkOk(s.files, Start(s, path), Tokens(path))
  }

  function CdTo(s: State, path: seq<byte>): (nat, bool) {
    Walk(s.files, Start(s, path), Tokens(path))
  }

  // ---------- commands ----------

  function Register(s: State, id: nat): State {
    s.(fds := s.fds[s.fdCnt + 1 := Desc(id, 0)], fdCnt := s.fdCnt + 1)
  }

  function AddFile(files: seq<File>, d: nat, f: File, name: Name): seq<File>
    requires d < |files| && files[d].Dir?
  {
    Push(files, f)[d := Append(files[d], Entry(|files|, name))]
  }

  predicate AddFits(files: seq<File>, d: nat, name: Name)
    requires d < |files| && files[d].Dir?
  {
    |files| < INUM && Used(files) + 1 <= DNUM && AppendFits(files[d], name, Used(files) + 1)
  }

  /** Opening a name in the current directory. */
  predicate CanOpenHere(s: State, name: Name, flag: Flag) {
    && s.cwd < |s.files| && s.files[s.cwd].Dir?
    && (flag.WriteFlag? && name !in DirTable(s.files[s.cwd]) ==> AddFits(s.files, s.cwd, name))
  }

  function OpenHere(s: State, name: Name, flag: Flag): (State, Out)
    requires CanOpenHere(s, name, flag)
  {
    var t := DirTable(s.files[s.cwd]);
    if name in t && t[name] >= 0 && !flag.BadFlag? then
      (Register(s, t[name]), Opened(s.fdCnt + 1))
    else if name !in t && flag.WriteFlag? then
      (Register(s.(files := AddFile(s.files, s.cwd, EmptyFile(), name)), |s.files|), Opened(s.fdCnt + 1))
    else
      (s, Failed)
  }

  predicate CanOpen(s: State, path: seq<byte>, flag: Flag) {
    PathOk(s, DirPart(path)) && CanOpenHere(s.(cwd := CdTo(s, DirPart(path)).0), NamePart(path), flag)
  }

  /** Opening by path: go to the directory, open there, come back.  A failure does not come back. */
  function DoOpen(s: State, path: seq<byte>, flag: Flag): (State, Out)
    requires CanOpen(s, path, flag)
  {
    var (s1, o) := OpenHere(s.(cwd := CdTo(s, DirPart(path)).0), NamePart(path), flag);
    if o.Opened? then (s1.(cwd := s.cwd), o) else (s1, o)
  }

  predicate CanWrite(s: State, fd: int, data: seq<byte>) {
    fd in s.fds ==>
      var i := s.fds[fd].inode;
      && i < |s.files| && s.files[i].Reg?
      && 0 <= s.fds[fd].pos && EndFits(s.files[i].cap, WriteEnd(s.fds[fd].pos, |data|), Used(s.files))
  }

  function DoWrite(s: State, fd: int, data: seq<byte>): (State, Out)
    requires CanWrite(s, fd, data)
  {
    if fd !in s.fds then (s, Failed)
    else
      var i, pos := s.fds[fd].inode, s.fds[fd].pos;
      (s.(files := s.files[i := WriteFile(s.files[i], pos, data)], fds := s.fds[fd := Desc(i, pos + |data|)]), Done)
  }

  predicate CanRead(s: State, fd: int, len: int) {
    fd in s.fds ==> s.fds[fd].inode < |s.files| && 0 <= s.fds[fd].pos && 0 <= len && Int32(s.fds[fd].pos + len + 1)
  }

  function DoRead(s: State, fd: int, len: int): (State, Out)
    requires CanRead(s, fd, len)
  {
    if fd !in s.fds then (s, Failed)
    else
      var i, pos := s.fds[fd].inode, s.fds[fd].pos;
      (s.(fds := s.fds[fd := Desc(i, pos + len)]), Got(ReadFile(s.files[i], pos, len)))
  }

  function DoSeek(s: State, fd: int, off: int): (State, Out) {
    if fd in s.fds then (s.(fds := s.fds[fd := Desc(s.fds[fd].inode, off)]), Done) else (s, Failed)
  }

  function DoClose(s: State, fd: int): State {
    s.(fds := s.fds - {fd})
  }

  predicate CanMkdirHere(s: State, name: Name) {
    s.cwd < |s.files| && s.files[s.cwd].Dir? && AddFits(s.files, s.cwd, name)
  }

  function MkdirHere(s: State, name: Name): State
    requires CanMkdirHere(s, name)
  {
    s.(files := AddFile(s.files, s.cwd, EmptyDir(|s.files|, s.cwd), name))
  }

  predicate CanMkdir(s: State, path: seq<byte>) {
    PathOk(s, DirPart(path)) && CanMkdirHere(s.(cwd := CdTo(s, DirPart(path)).0), NamePart(path))
  }

  function DoMkdir(s: State, path: seq<byte>): State
    requires CanMkdir(s, path)
  {
    MkdirHere(s.(cwd := CdTo(s, DirPart(path)).0), NamePart(path)).(cwd := s.cwd)
  }

  /** The entries for itself and for the parent must not go; while that directory is in use they do not. */
  predicate CanRm(s: State, name: Name) {
    && s.cwd < |s.files| && s.files[s.cwd].Dir?
    && var f := s.files[s.cwd];
    && 0 <= f.cnt <= |f.log|
    && var r := FirstRaw(f.log, f.cnt, name);
    (r < f.cnt && r < 2 ==> Occupied(s.files, f.log[r].id))
  }

  /** The directory after the removal loop wrote to raw entry `r`. */
  function Unlink(f: File, r: nat): File
    requires f.Dir? && r < |f.log|
  {
    Dir(f.cap, f.cnt - 1, f.log[r := Entry(DELETED, f.log[r].name)])
  }

  predicate Occupied(files: seq<File>, id: int) {
    0 <= id < |files| && files[id].Dir? && files[id].cnt != 2
  }

  function DoRm(s: State, name: Name): (State, Out)
    requires CanRm(s, name)
  {
    var f := s.files[s.cwd];
    var r := FirstRaw(f.log, f.cnt, name);
    if r == f.cnt then (s, Done)
    else if Occupied(s.files, f.log[r].id) then (s, Failed)
    else (s.(files := s.files[s.cwd := Unlink(f, r)]), Done)
  }

  predicate CanImport(s: State, host: HostFile, path: seq<byte>) {
    && CanOpen(s, path, WriteFlag)
    && var (s1, o) := DoOpen(s, path, WriteFlag);
    o.Opened? && (host.Host? ==> CanWrite(s1, o.fd, host.data))
  }

  function DoImport(s: State, host: HostFile, path: seq<byte>): (State, Out)
    requires CanImport(s, host, path)
  {
    var (s1, o) := DoOpen(s, path, WriteFlag);
    if host.Missing? then (s1, Failed)
    else (DoClose(DoWrite(s1, o.fd, host.data).0, o.fd), Done)
  }

  predicate CanExport(s: State, path: seq<byte>) {
    CanOpen(s, path, ReadFlag)
  }

  function DoExport(s: State, path: seq<byte>): (State, Out)
    requires CanExport(s, path)
  {
    var (s1, o) := DoOpen(s, path, ReadFlag);
    if o.Opened? && o.fd in s1.fds && s1.fds[o.fd].inode < |s1.files| then
      var f := s1.files[s1.fds[o.fd].inode];
      (DoClose(s1, o.fd), Got(ReadFile(f, 0, Size(f))))
    else (DoClose(s1, -1), Failed)
  }

  // ---------- listing ----------

  predicate IsDir(files: seq<File>, d: int) {
    0 <= d < |files| && files[d].Dir?
  }

  function RowOf(files: seq<File>, name: Name, id: int): Row {
    if 0 <= id < |files| then Row(name, files[id].Dir?, Size(files[id])) else Row(name, false, 0)
  }

  /** The rows of `ls`, in the order of the names. */
  ghost function Rows(f: File, files: seq<File>): seq<Row>
    requires f.Dir?
  {
    var t, names := DirTable(f), Keys(DirTable(f));
    seq(|names|, i requires 0 <= i < |names| => RowOf(files, names[i], t[names[i]]))
  }

  predicate CanCat(s: State, name: Name) {
    && IsDir(s.files, s.cwd)
    && (name in DirTable(s.files[s.cwd]) ==> 0 <= DirTable(s.files[s.cwd])[name] < |s.files|)
  }

  function DoCat(s: State, name: Name): Out
    requires CanCat(s, name)
  {
    var t := DirTable(s.files[s.cwd]);
    if name in t then var f := s.files[t[name]]; Got(ReadFile(f, 0, Size(f))) else Failed
  }

  /** Directory `d` shows `name` to `tree`, which passes over the entries for itself and for its parent. */
  predicate Shows(files: seq<File>, d: int, name: Name) {
    IsDir(files, d) && name != DOT && name != DOTDOT && name in DirTable(files[d])
  }

  /** The inode that a shown name stands for. */
  function Child(files: seq<File>, d: int, name: Name): int
    requires Shows(files, d, name)
  {
    DirTable(files[d])[name]
  }

  /** The path leads from directory `d` to an entry. */
  predicate Leads(files: seq<File>, d: int, path: Path)
    decreases |path|
  {
    |path| > 0 && Shows(files, d, path[0]) && (|path| == 1 || Leads(files, Child(files, d, path[0]), path[1..]))
  }

  /** Line by line: the last name of the path, indented by its length. */
  ghost predicate Draws(depth: int, lines: seq<Line>, paths: seq<Path>) {
    && |lines| == |paths|
    && forall i :: 0 <= i < |paths| ==>
         |paths[i]| > 0 && lines[i] == Line(depth + |paths[i]| - 1, paths[i][|paths[i]| - 1])
  }

  /** The listing of `root`: a line for every path that leads somewhere, in the order of the paths. */
  ghost predicate Lists(files: seq<File>, root: int, depth: int, lines: seq<Line>, paths: seq<Path>) {
    && (forall p :: p in paths <==> Leads(files, root, p))
    && Ascending(paths)
    && Draws(depth, lines, paths)
  }

  /** The lines of `tree`. */
  ghost function TreeOf(files: seq<File>, d: int): seq<Line> {
    if exists lines, paths :: Lists(files, d, 0, lines, paths) then
      var lines :| exists paths :: Lists(files, d, 0, lines, paths);
      lines
    else []
  }

  // ---------- programs ----------

  /** A name that is no command is opened to see whether it is there, closed, and copied out to be run. */
  function DoExec(s: State, path: seq<byte>): (State, Out)
    requires CanOpen(s, path, ReadFlag)
  {
    var (s1, o) := DoOpen(s, path, ReadFlag);
    if o.Opened? then DoExport(DoClose(s1, o.fd), path) else (s1, Failed)
  }

  // ---------- steps ----------

  function Formatted(fdCnt: int): State {
    State([EmptyDir(ROOT, ROOT)], ROOT, map[], fdCnt)
  }

  /** What the code demands before a command and does not check itself. */
  predicate Enabled(s: State, c: Cmd) {
    match c
    case Mkfs => s.fds == map[]
    case Open(path, flag) => CanOpen(s, path, flag)
    case Mkdir(path) => CanMkdir(s, path)
    case Cd(path) => PathOk(s, path)
    case Seek(fd, off) => true
    case Write(fd, data) => CanWrite(s, fd, data)
    case Read(fd, len) => CanRead(s, fd, len)
    case Close(fd) => true
    case Rm(name) => CanRm(s, name)
    case Import(host, path) => CanImport(s, host, path)
    case Export(path) => CanExport(s, path)
    case Ls => IsDir(s.files, s.cwd)
    case Cat(name) => CanCat(s, name)
    case Tree => IsDir(s.files, s.cwd)
    case Exec(path) => CanOpen(s, path, ReadFlag)
  }

  ghost function Step(s: State, c: Cmd): (State, Out)
    requires Enabled(s, c)
  {
    match c
    case Mkfs => (Formatted(s.fdCnt), Done)
    case Open(path, flag) => DoOpen(s, path, flag)
    case Mkdir(path) => (DoMkdir(s, path), Done)
    case Cd(path) => (s.(cwd := CdTo(s, path).0), if CdTo(s, path).1 then Done else Failed)
    case Seek(fd, off) => DoSeek(s, fd, off)
    case Write(fd, data) => DoWrite(s, fd, data)
    case Read(fd, len) => DoRead(s, fd, len)
    case Close(fd) => (DoClose(s, fd), Done)
    case Rm(name) => DoRm(s, name)
    case Import(host, path) => DoImport(s, host, path)
    case Export(path) => DoExport(s, path)
    case Ls => (s, Shown(Rows(s.files[s.cwd], s.files)))
    case Cat(name) => (s, DoCat(s, name))
    case Tree => (s, Drawn(TreeOf(s.files, s.cwd)))
    case Exec(path) => DoExec(s, path)
  }

  /** A run: every command is enabled where it is issued. */
  ghost predicate Runs(s: State, cmds: seq<Cmd>)
    decreases |cmds|, 0
  {
    |cmds| == 0 ||
    (Runs(s, cmds[..|cmds| - 1]) && Enabled(Run(s, cmds[..|cmds| - 1]).0, cmds[|cmds| - 1]))
  }

  /** The state and the outputs after a run. */
  ghost function Run(s: State, cmds: seq<Cmd>): (r: (State, seq<Out>))
    requires Runs(s, cmds)
    ensures |r.1| == |cmds|
    decreases |cmds|, 1
  {
    if |cmds| == 0 then (s, [])
    else
      var (s1, outs) := Run(s, cmds[..|cmds| - 1]);
      var (s2, o) := Step(s1, cmds[|cmds| - 1]);
      (s2, Push(outs, o))
  }
}
