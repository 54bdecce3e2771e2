/** A corrected release, apart from the file system as it is: what the comments on removal say is meant.
    Releasing a file clears its inode byte and the map bytes of exactly its blocks. */
module Release {
  import opened Bytes
  import opened Layout
  import opened BlockMap
  import opened DirLog
  import opened Machine
  import opened Invariants
  import opened Representation
  import opened FileSystem

  /** Map byte `a` belongs to inode `i`: its own, or that of one of its blocks. */
  predicate Frees(owner: seq<Slot>, i: int, a: int) {
    a == IMAP + i || (DMAP <= a < DMAP + |owner| && owner[a - DMAP].inode == i)
  }

  ghost predicate Released(d: seq<byte>, d': seq<byte>, owner: seq<Slot>, i: int) {
    && |d'| == |d|
    && forall a :: 0 <= a < |d| ==> d'[a] == if Frees(owner, i, a) then 0 else d[a]
  }

  /** The file blocks before block `k`, and the indirect table if `table`, have been released. */
  predicate Due(s: Slot, i: int, k: int, table: bool) {
    s.inode == i && (0 <= s.pos < k || (table && s.pos == TABLE))
  }

  ghost predicate PartReleased(d: seq<byte>, d': seq<byte>, owner: seq<Slot>, i: int, k: int, table: bool) {
    && |d'| == |d|
    && forall a :: 0 <= a < |d| ==>
         d'[a] == if DMAP <= a < DMAP + |owner| && Due(owner[a - DMAP], i, k, table) then 0 else d[a]
  }

  lemma PartStarts(d: seq<byte>, owner: seq<Slot>, i: int)
    ensures PartReleased(d, d, owner, i, 0, false)
  {
  }

  /** The block behind a slot is the only one that serves it. */
  lemma OneBlock(d: seq<byte>, nodes: seq<Node>, owner: seq<Slot>, i: int, k: int)
    requires Phys(d, nodes, owner) && 0 <= i < |nodes| && HasSlot(nodes[i], k)
    ensures var b := DataId(SlotAddr(d, nodes[i], k));
      && 0 <= b < |owner| <= DNUM && |d| == DISK_SIZE
      && forall c :: 0 <= c < |owner| ==> (owner[c] == Slot(i, k) <==> c == b)
  {
    assert SlotOwned(d, nodes[i], i, k, owner);
    forall c | 0 <= c < |owner| && owner[c] == Slot(i, k)
      ensures c == DataId(SlotAddr(d, nodes[i], k))
    {
      assert BlockOwned(d, nodes, owner[c], c);
    }
  }

  lemma BlockReleased(d: seq<byte>, nodes: seq<Node>, owner: seq<Slot>, i: int, k: nat, d1: seq<byte>, b: int,
                      d2: seq<byte>)
    requires Phys(d, nodes, owner) && 0 <= i < |nodes| && HasSlot(nodes[i], k)
    requires b == DataId(SlotAddr(d, nodes[i], k)) && PartReleased(d, d1, owner, i, k, false)
    requires 0 <= DMAP + b < |d1| && d2 == Patch(d1, DMAP + b, [0])
    ensures PartReleased(d, d2, owner, i, k + 1, false)
  {
    OneBlock(d, nodes, owner, i, k);
  }

  lemma TableReleased(d: seq<byte>, nodes: seq<Node>, owner: seq<Slot>, i: int, k: nat, d1: seq<byte>, b: int,
                      d2: seq<byte>)
    requires Phys(d, nodes, owner) && 0 <= i < |nodes| && HasSlot(nodes[i], TABLE)
    requires b == DataId(SlotAddr(d, nodes[i], TABLE)) && PartReleased(d, d1, owner, i, k, false)
    requires 0 <= DMAP + b < |d1| && d2 == Patch(d1, DMAP + b, [0])
    ensures PartReleased(d, d2, owner, i, k, true)
  {
    OneBlock(d, nodes, owner, i, TABLE);
  }

  /** Every slot done, and the inode byte cleared: the file is released. */
  lemma AllReleased(d: seq<byte>, nodes: seq<Node>, owner: seq<Slot>, i: int, d1: seq<byte>, d2: seq<byte>)
    requires Phys(d, nodes, owner) && 0 <= i < |nodes| <= INUM
    requires PartReleased(d, d1, owner, i, nodes[i].cap / DSIZE, nodes[i].addr1 != -1)
    requires IMAP + i < |d1| && d2 == Patch(d1, IMAP + i, [0])
    ensures Released(d, d2, owner, i)
  {
    forall b | 0 <= b < |owner|
      ensures Due(owner[b], i, nodes[i].cap / DSIZE, nodes[i].addr1 != -1) <==> owner[b].inode == i
    {
      assert BlockOwned(d, nodes, owner[b], b);
    }
  }

  /** Table words lie in the data region, which releasing does not write. */
  lemma WordKept(d: seq<byte>, nodes: seq<Node>, owner: seq<Slot>, i: int, k: int, table: bool, d1: seq<byte>, w: int)
    requires Phys(d, nodes, owner) && 0 <= i < |nodes| && HasSlot(nodes[i], k) && k >= 1 && nodes[i].addr1 != -1
    requires w == nodes[i].addr1 + 4 * (k - 1)
    requires PartReleased(d, d1, owner, i, k, table)
    ensures 0 <= w && w + 4 <= |d1| && IntAt(d1, w) == SlotAddr(d, nodes[i], k)
  {
    assert NodeShape(nodes[i]);
    TableWord(d, nodes, owner, i, k);
    IntAtFrame(d, d1, w);
  }

  method ClearBit(fs: VSFileSystem, start: nat, id: int)
    requires 0 <= start + id < fs.disk.Length
    modifies fs.disk
    ensures fs.disk[..] == Patch(old(fs.disk[..]), start + id, [0])
  {
    fs.DWrite(start + id, [0]);
  }

  /** Releases file `i`: its direct block, every block in its indirect table, the table, its inode. */
  method ReleaseFile(fs: VSFileSystem, i: nat)
    requires fs.Sound() && i < |fs.files|
    modifies fs.disk
    ensures Released(old(fs.disk[..]), fs.disk[..], fs.owner, i)
  {
    ghost var d, nodes, owner := fs.disk[..], fs.Nodes(), fs.owner;
    assert NodeShape(nodes[i]);
    var node := fs.ReadInode(i);
    var addr0, addr1, count := node.addr0, node.addr1, node.cap / DSIZE;
    PartStarts(d, owner, i);
    OneBlock(d, nodes, owner, i, 0);
    ClearBit(fs, DMAP, DataId(addr0));
    BlockReleased(d, nodes, owner, i, 0, d, DataId(addr0), fs.disk[..]);
    if addr1 != -1 {
      ReleaseTable(fs, addr1, count, d, nodes, owner, i);
    }
    ghost var d1 := fs.disk[..];
    ClearBit(fs, IMAP, i);
    AllReleased(d, nodes, owner, i, d1, fs.disk[..]);
  }

  /** The blocks entered in the indirect table at `addr1`, then the table itself. */
  method ReleaseTable(fs: VSFileSystem, addr1: int, count: int,
                      ghost d: seq<byte>, ghost nodes: seq<Node>, ghost owner: seq<Slot>, ghost i: nat)
    requires Phys(d, nodes, owner) && i < |nodes| && addr1 == nodes[i].addr1 != -1 && count == nodes[i].cap / DSIZE >= 1
    requires PartReleased(d, fs.disk[..], owner, i, 1, false)
    modifies fs.disk
    ensures PartReleased(d, fs.disk[..], owner, i, count, true)
  {
    var k := 1;
    while k < count
      invariant 1 <= k <= count
      invariant PartReleased(d, fs.disk[..], owner, i, k, false)
    {
      ghost var d1 := fs.disk[..];
      WordKept(d, nodes, owner, i, k, false, d1, addr1 + 4 * (k - 1));
      var a := fs.GetIntAt(addr1 + 4 * (k - 1));
      OneBlock(d, nodes, owner, i, k);
      ClearBit(fs, DMAP, DataId(a));
      BlockReleased(d, nodes, owner, i, k, d1, DataId(a), fs.disk[..]);
      k := k + 1;
    }
    ghost var d1 := fs.disk[..];
    OneBlock(d, nodes, owner, i, TABLE);
    ClearBit(fs, DMAP, DataId(addr1));
    TableReleased(d, nodes, owner, i, k, d1, DataId(addr1), fs.disk[..]);
  }

  // ---------- removing, with the corrected release ----------

  /** In the two maps, exactly the bytes of file `i` have been cleared. */
  ghost predicate MapsReleased(d: seq<byte>, d': seq<byte>, owner: seq<Slot>, i: int) {
    && |d'| == |d| == DISK_SIZE
    && forall a :: IMAP <= a < IMAP + INUM || DMAP <= a < DMAP + DNUM ==>
         d'[a] == if Frees(owner, i, a) then 0 else d[a]
  }

  /** Two disks that hold files with the same inodes and blocks in use have the same maps. */
  lemma MapsSame(d: seq<byte>, nodes: seq<Node>, d': seq<byte>, nodes': seq<Node>, owner: seq<Slot>, icnt: int,
                 files: seq<File>, files': seq<File>)
    requires Rep(d, nodes, owner, icnt, files) && Rep(d', nodes', owner, icnt, files')
    ensures forall a :: IMAP <= a < IMAP + INUM || DMAP <= a < DMAP + DNUM ==> d'[a] == d[a]
  {
  }

  lemma NothingToRelease(d: seq<byte>, nodes: seq<Node>, owner: seq<Slot>, a: int)
    requires Phys(d, nodes, owner) && (IMAP <= a || a < IMAP - 1)
    ensures !Frees(owner, -1, a)
  {
    if DMAP <= a < DMAP + |owner| {
      assert BlockOwned(d, nodes, owner[a - DMAP], a - DMAP);
    }
  }

  /** Removal as the program does it, but for the release.  `r` is the raw entry that the scan hits. */
  method RmReleasing(fs: VSFileSystem, name: Name, ghost f: File, ghost r: nat)
    requires fs.Sound() && FilesOk(fs.files) && IsDir(fs.files, fs.cwd) && f == fs.files[fs.cwd]
    requires 0 <= f.cnt <= |f.log| && r == FirstRaw(f.log, f.cnt, name)
    modifies fs.disk, fs`owner, fs`files
    ensures if r < f.cnt && !Occupied(old(fs.files), f.log[r].id)
            then MapsReleased(old(fs.disk[..]), fs.disk[..], old(fs.owner), f.log[r].id)
            else fs.disk[..] == old(fs.disk[..])
  {
    ghost var d, nodes, files0 := fs.disk[..], fs.Nodes(), fs.files;
    var node := fs.ReadInode(fs.cwd);
    var found, i, off, id := fs.ScanFor(node, name);
    if !found {
      return;
    }
    if id >= 0 {
      assert Holds(d, nodes[id], fs.files[id]);
      var entryNode := fs.ReadInode(id);
      if entryNode.kind == 1 {
        var empty := fs.CheckDirEmpty(entryNode, id);
        if !empty {
          return;
        }
      }
    }
    fs.UnlinkEntry(node, off, i);
    ghost var d1 := fs.disk[..];
    MapsSame(d, nodes, d1, fs.Nodes(), fs.owner, fs.icnt, files0, fs.files);
    if id >= 0 {
      ReleaseFile(fs, id);
    } else {
      forall a | IMAP <= a < IMAP + INUM || DMAP <= a < DMAP + DNUM
        ensures !Frees(fs.owner, -1, a)
      {
        NothingToRelease(d, nodes, fs.owner, a);
      }
    }
  }

  // ---------- creating, writing and deleting ----------

  /** The maps after a file was made, entered, written and released: the inode map is as it was, and the
      data map has only the `grown` blocks more that the directory took. */
  ghost predicate Restored(d: seq<byte>, d': seq<byte>, used: int, grown: int) {
    && |d'| == |d| == DISK_SIZE
    && (forall a :: IMAP <= a < IMAP + INUM ==> d'[a] == d[a])
    && (forall a :: DMAP <= a < DMAP + DNUM ==> d'[a] == if used < a - DMAP <= used + grown then 1 else d[a])
  }

  lemma MapsRestored(d: seq<byte>, n: nat, dir: nat, o: seq<Slot>, o1: seq<Slot>, o2: seq<Slot>, o3: seq<Slot>,
                     d3: seq<byte>, d4: seq<byte>)
    requires |d| == |d3| == DISK_SIZE && |o3| <= DNUM && dir < n < INUM
    requires MapPrefix(d, IMAP, INUM, n) && MapPrefix(d, DMAP, DNUM, |o|)
    requires MapPrefix(d3, IMAP, INUM, n + 1) && MapPrefix(d3, DMAP, DNUM, |o3|)
    requires forall b :: 0 <= b < |o| ==> o[b].inode < n
    requires |o1| == |o| + 1 && Gained(o, o1, n) && Gained(o1, o2, dir) && Gained(o2, o3, n)
    requires MapsReleased(d3, d4, o3, n)
    ensures Restored(d, d4, |o|, |o2| - |o1|)
  {
    forall a | DMAP <= a < DMAP + DNUM
      ensures Frees(o3, n, a) <==> a - DMAP < |o3| && !(a - DMAP < |o| || |o1| <= a - DMAP < |o2|)
    {
      var b := a - DMAP;
      if b < |o| {
        assert o3[b] == o[b];
      } else if b < |o1| {
        assert o3[b] == o1[b];
      } else if b < |o2| {
        assert o3[b] == o2[b];
      }
    }
  }

  lemma OldOwners(d: seq<byte>, nodes: seq<Node>, owner: seq<Slot>)
    requires Phys(d, nodes, owner)
    ensures forall b :: 0 <= b < |owner| ==> owner[b].inode < |nodes|
  {
    forall b | 0 <= b < |owner|
      ensures owner[b].inode < |nodes|
    {
      assert BlockOwned(d, nodes, owner[b], b);
    }
  }

  /** Makes a file in the current directory, enters it and writes it; `o1` and `o2` are the block owners
      after the first and the second of these. */
  method MakeAndWrite(fs: VSFileSystem, name: Name, data: seq<byte>, ghost f: File, ghost grown: nat)
    returns (id: nat, ghost o1: seq<Slot>, ghost o2: seq<Slot>)
    requires fs.Valid() && AddFits(fs.files, fs.cwd, name) && f == fs.files[fs.cwd]
    requires grown == NewBlocks(f.cap, AppendEnd(f, name))
    requires EndFits(DSIZE, WriteEnd(0, |data|), Used(fs.files) + 1 + grown)
    modifies fs.disk, fs`inodes, fs`owner, fs`files, fs`icnt
    ensures fs.Sound() && id == |old(fs.files)| && fs.icnt == |fs.files| == id + 1
    ensures fs.files[fs.cwd] == Append(f, Entry(id, name)) && fs.files[id].Reg? && FilesOk(fs.files)
    ensures |o1| == |old(fs.owner)| + 1 && |o2| == |o1| + grown
    ensures Gained(old(fs.owner), o1, id) && Gained(o1, o2, fs.cwd) && Gained(o2, fs.owner, id)
  {
    ghost var s := fs.Model();
    OwnedIsUsed(fs.disk[..], fs.Nodes(), fs.files);
    EnterNeeds(s, EmptyFile(), name, |fs.owner| + 1);
    id := fs.CreateFile();
    o1 := fs.owner;
    fs.AddEntryToDir(id, name, fs.cwd);
    o2 := fs.owner;
    ghost var files1 := fs.files;
    fs.StoreAt(id, 0, data);
    MadeOk(s, name, data, files1);
  }

  lemma MadeOk(s: State, name: Name, data: seq<byte>, files1: seq<File>)
    requires Inv(s) && AddFits(s.files, s.cwd, name) && WriteEnd(0, |data|) <= CAP1
    requires files1 == AddFile(s.files, s.cwd, EmptyFile(), name)
    ensures FilesOk(files1[|s.files| := WriteFile(files1[|s.files|], 0, data)])
  {
    AddKeeps(s.files, s.cwd, EmptyFile(), name);
    WriteKeeps(files1, |s.files|, 0, data);
  }

  /** The scan for a name just entered hits the new entry exactly when it is counted and the name is new. */
  lemma ScanHits(f: File, e: Entry)
    requires f.Dir? && 0 <= f.cnt <= |f.log|
    ensures var r := FirstRaw(Push(f.log, e), f.cnt + 1, e.name);
      r == |f.log| < f.cnt + 1 <==> |f.log| == f.cnt && forall q :: 0 <= q < |f.log| ==> f.log[q].name != e.name
  {
    var log, r := Push(f.log, e), FirstRaw(Push(f.log, e), f.cnt + 1, e.name);
    assert log[|f.log|] == e;
    if r == |f.log| {
      assert forall q :: 0 <= q < r ==> log[q] == f.log[q];
    }
  }

  /** Makes a file in the current directory, writes it and removes it by name.  Where the scan can find it,
      both maps are then as before, but for the blocks that the directory grew by. */
  method CreateWriteDelete(fs: VSFileSystem, name: Name, data: seq<byte>, ghost f: File, ghost grown: nat)
    requires fs.Valid() && AddFits(fs.files, fs.cwd, name) && f == fs.files[fs.cwd]
    requires grown == NewBlocks(f.cap, AppendEnd(f, name))
    requires EndFits(DSIZE, WriteEnd(0, |data|), Used(fs.files) + 1 + grown)
    modifies fs.disk, fs`inodes, fs`owner, fs`files, fs`icnt
    ensures |f.log| == f.cnt && (forall q :: 0 <= q < |f.log| ==> f.log[q].name != name) ==>
              Restored(old(fs.disk[..]), fs.disk[..], Used(old(fs.files)), grown)
  {
    ghost var d, o, n := fs.disk[..], fs.owner, |fs.files|;
    OwnedIsUsed(d, fs.Nodes(), fs.files);
    OldOwners(d, fs.Nodes(), o);
    assert DirOk(fs.files, fs.cwd);
    var id, o1, o2 := MakeAndWrite(fs, name, data, f, grown);
    ghost var g, d3, o3 := fs.files[fs.cwd], fs.disk[..], fs.owner;
    ghost var r := FirstRaw(g.log, g.cnt, name);
    ScanHits(f, Entry(id, name));
    RmReleasing(fs, name, g, r);
    if |f.log| == f.cnt && (forall q :: 0 <= q < |f.log| ==> f.log[q].name != name) {
      assert r < g.cnt && g.log[r] == Entry(id, name);
      MapsRestored(d, n, fs.cwd, o, o1, o2, o3, d3, fs.disk[..]);
    }
  }

  lemma AppendOffset(log: seq<Entry>, e: Entry)
    ensures EntryOffset(Push(log, e), |log|) == 4 + LogSize(log)
  {
    PushFront(log, e);
  }

  /** Makes a file in the current directory, writes it, takes its entry out again, whatever the scan would
      find, and releases it. */
  method CreateWriteUnlink(fs: VSFileSystem, name: Name, data: seq<byte>, ghost f: File, ghost grown: nat)
    requires fs.Valid() && AddFits(fs.files, fs.cwd, name) && f == fs.files[fs.cwd]
    requires grown == NewBlocks(f.cap, AppendEnd(f, name))
    requires EndFits(DSIZE, WriteEnd(0, |data|), Used(fs.files) + 1 + grown)
    modifies fs.disk, fs`inodes, fs`owner, fs`files, fs`icnt
    ensures Restored(old(fs.disk[..]), fs.disk[..], Used(old(fs.files)), grown)
  {
    ghost var d, o, n := fs.disk[..], fs.owner, |fs.files|;
    OwnedIsUsed(d, fs.Nodes(), fs.files);
    OldOwners(d, fs.Nodes(), o);
    assert DirOk(fs.files, fs.cwd);
    var node := fs.ReadInode(fs.cwd);
    fs.SizeOf(node, fs.cwd);
    var off := node.size;
    var id, o1, o2 := MakeAndWrite(fs, name, data, f, grown);
    AppendOffset(f.log, Entry(id, name));
    node := fs.ReadInode(fs.cwd);
    fs.UnlinkEntry(node, off, |f.log|);
    ghost var d3 := fs.disk[..];
    ReleaseFile(fs, id);
    assert MapsReleased(d3, fs.disk[..], fs.owner, n);
    MapsRestored(d, n, fs.cwd, o, o1, o2, fs.owner, d3, fs.disk[..]);
  }
}
