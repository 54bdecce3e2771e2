/** The file system over one mutable byte disk. */
module FileSystem {
  import opened Bytes
  import opened Layout
  import opened BlockMap
  import opened BlockIO
  import opened Representation
  import opened DirLog
  import opened Order
  import opened Paths
  import opened Machine
  import opened Invariants
  import opened Trees
  import opened History

  /** An inode in memory: a copy of a slot of the inode region that callers change and write back. */
  class Inode {
    var kind: int   // 0: regular file, 1: directory
    var size: int
    var cap: int
    var addr0: int
    var addr1: int
    var addr2: int

    ghost function Rec(): Node
      reads this
    {
      Node(kind, size, cap, addr0, addr1, addr2)
    }

    constructor ()
      ensures Rec() == Node(0, 0, DSIZE, -1, -1, -1)
    {
      kind, size, cap, addr0, addr1, addr2 := 0, 0, DSIZE, -1, -1, -1;
    }
  }

  /** The record that an all-zero inode slot decodes to. */
  const ZERO_NODE := Node(0, 0, 0, 0, 0, 0)

  class VSFileSystem {
    const disk: array<byte>
    var inodes: seq<Node>           // the inode region, one record per slot
    var cwd: nat
    var cwdTable: map<Name, int>
    var fdCnt: int
    var fdMap: map<int, Desc>
    ghost var files: seq<File>      // what the allocated inodes hold
    ghost var owner: seq<Slot>      // what the allocated data blocks serve
    ghost var icnt: nat             // marked bytes of the inode map

    /** A session on a disk that holds the files `held`: the root is current, its table is loaded, no
        descriptor is open. */
    constructor (bytes: seq<byte>, slots: seq<Node>, ghost held: seq<File>, ghost own: seq<Slot>, ghost marked: nat)
      requires |bytes| == DISK_SIZE && |slots| == INUM && |held| <= INUM
      requires Rep(bytes, slots[..|held|], own, marked, held) && FilesOk(held)
      ensures fresh(disk) && disk[..] == bytes && inodes == slots
      ensures Valid() && Model() == State(held, ROOT, map[], -1)
    {
      disk := new byte[|bytes|](i requires 0 <= i < |bytes| => bytes[i]);
      inodes := slots;
      cwd, cwdTable := ROOT, map[];
      fdCnt, fdMap := -1, map[];
      files, owner, icnt := held, own, marked;
      new;
      assert disk[..] == bytes;
      assert DirOk(files, ROOT);
      LoadCwdTable();
    }

    /** A session on a disk that has yet to be formatted; no table is loaded from it. */
    constructor Unformatted(bytes: seq<byte>, slots: seq<Node>)
      requires |bytes| == DISK_SIZE && |slots| == INUM
      ensures disk.Length == DISK_SIZE && disk[..] == bytes && inodes == slots
      ensures cwd == ROOT && fdCnt == -1 && fdMap == map[] && fresh(disk)
    {
      disk := new byte[|bytes|](i requires 0 <= i < |bytes| => bytes[i]);
      inodes := slots;
      cwd, cwdTable := ROOT, map[];
      fdCnt, fdMap := -1, map[];
      files, owner, icnt := [], [], 0;
    }

    ghost predicate Shape()
      reads `inodes, `files
    {
      disk.Length == DISK_SIZE && |inodes| == INUM && |files| <= INUM
    }

    ghost function Nodes(): seq<Node>
      requires Shape()
      reads `inodes, `files
    {
      inodes[..|files|]
    }

    // ---------- raw disk ----------

    method DWrite(dest: int, src: seq<byte>)
      requires 0 <= dest && dest + |src| <= disk.Length
      modifies disk
      ensures disk[..] == Patch(old(disk[..]), dest, src)
    {
      var i := 0;
      while i < |src|
        invariant 0 <= i <= |src|
        invariant disk[..] == Patch(old(disk[..]), dest, src[..i])
      {
        ghost var d := disk[..];
        disk[dest + i] := src[i];
        assert disk[..] == d[dest + i := src[i]];
        i := i + 1;
      }
      assert src[..i] == src;
    }

    method DRead(dest: int, buf: array<byte>, at: nat, len: nat) returns (ghost got: seq<byte>)
      requires 0 <= dest && dest + len <= disk.Length
      requires buf != disk && at + len <= buf.Length
      modifies buf
      ensures got == Chunk(disk[..], dest, len)
      ensures buf[..] == Patch(old(buf[..]), at, got)
    {
      got := Chunk(disk[..], dest, len);
      var i := 0;
      while i < len
        invariant 0 <= i <= len
        invariant forall x :: 0 <= x < buf.Length ==> buf[x] == if at <= x < at + i then got[x - at] else old(buf[x])
      {
        buf[at + i] := disk[dest + i];
        i := i + 1;
      }
    }

    method GetIntAt(addr: int) returns (v: int)
      requires 0 <= addr && addr + 4 <= disk.Length
      ensures v == IntAt(disk[..], addr)
    {
      v := IntAt(disk[addr..addr + 4], 0);
      UnsignedFrame(disk[addr..addr + 4], 0, 4, disk[..], addr, addr + 4);
    }

    method PutIntAt(addr: int, v: int)
      requires 0 <= addr && addr + 4 <= disk.Length
      modifies disk
      ensures disk[..] == Patch(old(disk[..]), addr, IntBytes(v))
    {
      DWrite(addr, IntBytes(v));
    }

    /** First fit: marks the least free byte of a map and returns its index, or -1 when there is none. */
    method AllocBit(start: nat, len: nat) returns (r: int)
      requires start + len <= disk.Length
      modifies disk
      ensures -1 <= r < len
      ensures r == -1 ==> disk[..] == old(disk[..]) && forall a :: start <= a < start + len ==> disk[a] != 0
      ensures r >= 0 ==> old(disk[start + r]) == 0 && disk[..] == Patch(old(disk[..]), start + r, [1])
      ensures r >= 0 ==> forall a :: start <= a < start + r ==> old(disk[a]) != 0
    {
      var i := 0;
      while i < len
        invariant 0 <= i <= len
        invariant disk[..] == old(disk[..])
        invariant forall a :: start <= a < start + i ==> old(disk[a]) != 0
      {
        if disk[start + i] == 0 {
          disk[start + i] := 1;
          return i;
        }
        i := i + 1;
      }
      return -1;
    }

    /** While the map marks a prefix, the block handed out is the next one. */
    method AllocDataBlock(ghost used: nat) returns (id: int)
      requires disk.Length == DISK_SIZE && used <= DNUM && MapPrefix(disk[..], DMAP, DNUM, used)
      modifies disk
      ensures used < DNUM ==> id == used && disk[..] == Patch(old(disk[..]), DMAP + used, [1])
      ensures used == DNUM ==> id == -1 && disk[..] == old(disk[..])
    {
      ghost var d := disk[..];
      assert used < DNUM ==> d[DMAP + used] == 0;
      id := AllocBit(DMAP, DNUM);
      assert id >= 0 ==> d[DMAP + id] == 0;
    }

    method AllocInodeBlock(ghost used: nat) returns (id: int)
      requires disk.Length == DISK_SIZE && used <= INUM && MapPrefix(disk[..], IMAP, INUM, used)
      modifies disk
      ensures used < INUM ==> id == used && disk[..] == Patch(old(disk[..]), IMAP + used, [1])
      ensures used == INUM ==> id == -1 && disk[..] == old(disk[..])
    {
      ghost var d := disk[..];
      assert used < INUM ==> d[IMAP + used] == 0;
      id := AllocBit(IMAP, INUM);
      assert id >= 0 ==> d[IMAP + id] == 0;
    }

    // ---------- inodes ----------

    /** The bytes in front of the inode region, which id -1 addresses as a slot, are zero. */
    ghost predicate FrontZero()
      reads disk
    {
      disk.Length == DISK_SIZE && forall a :: InodeOffset(-1) <= a < InodeOffset(0) ==> disk[a] == 0
    }

    /** A copy of inode slot `id`.  For id -1 every field is 0, wherever in its slot it lies. */
    method ReadInode(id: int) returns (node: Inode)
      requires |inodes| == INUM && -1 <= id < INUM && (id == -1 ==> FrontZero())
      ensures fresh(node) && node.Rec() == if id == -1 then ZERO_NODE else inodes[id]
      ensures id == -1 ==> forall a :: InodeOffset(id) <= a <= InodeOffset(id) + ISIZE - 4 ==> IntAt(disk[..], a) == 0
    {
      if id == -1 {
        forall a | InodeOffset(id) <= a <= InodeOffset(id) + ISIZE - 4
          ensures IntAt(disk[..], a) == 0
        {
          ZeroInt(disk[..], a);
        }
      }
      node := new Inode();
      var n := if id == -1 then ZERO_NODE else inodes[id];
      node.kind, node.size, node.cap := n.kind, n.size, n.cap;
      node.addr0, node.addr1, node.addr2 := n.addr0, n.addr1, n.addr2;
    }

    method WriteInode(id: int, node: Inode)
      requires |inodes| == INUM && 0 <= id < INUM
      modifies `inodes
      ensures inodes == old(inodes)[id := node.Rec()]
    {
      inodes := inodes[id := Node(node.kind, node.size, node.cap, node.addr0, node.addr1, node.addr2)];
    }

    // ---------- address mapping ----------

    /** The table of block owners with the copy `n` of inode `i` in place of its slot. */
    ghost predicate Mapped(n: Node, i: nat)
      reads `inodes, `files, `owner, disk
    {
      Shape() && i < |files| && Phys(disk[..], Nodes()[i := n], owner)
    }

    method CalcDiskAddr(node: Inode, off: int, ghost i: nat) returns (addr: int)
      requires Mapped(node.Rec(), i) && 0 <= off < node.cap
      ensures addr == Addr(disk[..], node.Rec(), off)
      ensures DATA <= addr < DISK_SIZE
    {
      ghost var d, nodes := disk[..], Nodes()[i := node.Rec()];
      AddrInBlock(d, nodes, owner, i, off);
      if off < CAP0 {
        addr := node.addr0 + off;
      } else {
        var off1 := off - CAP0;
        var base := node.addr1 + off1 / CAP0 * 4;
        TableLookup(d, nodes, owner, i, off, off1 / CAP0, base);
        addr := GetIntAt(base);
        addr := addr + off1 % CAP0;
      }
    }

    /** The next data block becomes the indirect table.  On a full disk the inode gets the address that
        the failure value -1 stands for. */
    method AllocAddr1(node: Inode, ghost i: nat)
      requires Mapped(node.Rec(), i) && node.addr1 == -1
      modifies disk, node`addr1, `owner
      ensures Shape()
      ensures old(|owner|) < DNUM ==>
                TableAdded(old(disk[..]), old(Nodes()[i := node.Rec()]), old(owner), disk[..], node.Rec(), owner, i)
      ensures old(|owner|) == DNUM ==>
                disk[..] == old(disk[..]) && owner == old(owner) && node.addr1 == DataOffset(-1)
    {
      ghost var d, nodes, o := disk[..], Nodes()[i := node.Rec()], owner;
      var id := AllocDataBlock(|owner|);
      node.addr1 := DataOffset(id);
      if id != -1 {
        GrowTable(d, nodes, o, i, node.Rec(), disk[..]);
        owner := o + [Slot(i, TABLE)];
      }
    }

    /** Enters the next data block in the indirect table; the caller then raises the capacity.  On a full
        disk the address that the failure value -1 stands for is entered. */
    method AllocLevel1Block(node: Inode, ghost i: nat)
      requires Mapped(node.Rec(), i) && node.addr1 != -1 && node.cap < CAP1
      modifies disk, `owner
      ensures Shape()
      ensures old(|owner|) < DNUM ==>
                BlockAdded(old(disk[..]), old(Nodes()[i := node.Rec()]), old(owner),
                           disk[..], node.Rec().(cap := node.cap + DSIZE), owner, i)
      ensures var w := node.addr1 + (node.cap / DSIZE - 1) * 4;
        old(|owner|) == DNUM ==>
          0 <= w && w + 4 <= disk.Length && owner == old(owner)
          && disk[..] == Patch(old(disk[..]), w, IntBytes(DataOffset(-1)))
    {
      ghost var d, nodes, o := disk[..], Nodes()[i := node.Rec()], owner;
      var index := (node.cap - 1 * DSIZE) / DSIZE;
      var pointer := node.addr1 + index * 4;
      NextWord(d, nodes, o, i, index, pointer);
      var id := AllocDataBlock(|o|);
      ghost var d1 := disk[..];
      PutIntAt(pointer, DataOffset(id));
      if id != -1 {
        owner := o + [Slot(i, index + 1)];
        BlockEntered(d, nodes, o, i, node.Rec().(cap := node.cap + DSIZE), index, pointer, d1, disk[..], owner);
      }
    }

    // ---------- file data ----------

    /** The growing step of a write: the indirect table when there is none, then one more block. */
    method AddBlock(node: Inode, ghost i: nat)
      requires Mapped(node.Rec(), i) && Tight(node.Rec()) && node.cap < CAP1
      requires |owner| + (if node.cap == DSIZE then 2 else 1) <= DNUM
      modifies disk, node`cap, node`addr1, `owner
      ensures Shape()
      ensures Grown(old(disk[..]), old(Nodes()[i := node.Rec()]), old(owner),
                    disk[..], Nodes()[i := node.Rec()], owner, i)
    {
      ghost var d, nodes, o := disk[..], Nodes()[i := node.Rec()], owner;
      if node.addr1 == -1 {
        AllocAddr1(node, i);
      }
      ghost var d1, nodes1, o1 := disk[..], Nodes()[i := node.Rec()], owner;
      assert nodes1 == nodes[i := node.Rec()];
      AllocLevel1Block(node, i);
      ghost var n2 := node.Rec().(cap := node.cap + DSIZE);
      GrownInSteps(d, nodes, o, i, d1, nodes1, o1, disk[..], n2, owner);
      node.cap := node.cap + DSIZE;
      assert Nodes()[i := node.Rec()] == nodes[i := n2];
    }

    /** Writes `src` at file offset `off`, growing the file block by block as far as it needs. */
    method WriteData(node: Inode, off: int, src: seq<byte>, ghost i: nat)
      requires Shape() && i < |files| && Writable(disk[..], Nodes()[i := node.Rec()], owner, i, off, |src|)
      modifies disk, node`cap, node`addr1, `owner
      ensures Shape()
      ensures Written(old(disk[..]), old(Nodes()[i := node.Rec()]), old(owner),
                      disk[..], Nodes()[i := node.Rec()], owner, i, off, src)
      decreases |src|, if off >= node.cap then off - node.cap + 1 else 0, 3
    {
      var blockLeft := node.cap - off;
      if blockLeft > 0 {
        WriteInside(node, off, src, i);
      } else {
        ghost var d, nodes, o := disk[..], Nodes()[i := node.Rec()], owner;
        GrowNeeds(d, nodes, o, i, off, |src|);
        AddBlock(node, i);
        ghost var d2, nodes2, o2 := disk[..], Nodes()[i := node.Rec()], owner;
        GrownWritable(d, nodes, o, i, off, |src|, d2, nodes2, o2);
        WriteData(node, off, src, i);
        WrittenGrown(d, nodes, o, i, off, src, d2, nodes2, o2, disk[..], Nodes()[i := node.Rec()], owner);
      }
    }

    /** The case of an offset within the capacity: one chunk, then the rest from the next block on. */
    method WriteInside(node: Inode, off: int, src: seq<byte>, ghost i: nat)
      requires Shape() && i < |files| && Writable(disk[..], Nodes()[i := node.Rec()], owner, i, off, |src|)
      requires off < node.cap
      modifies disk, node`cap, node`addr1, `owner
      ensures Shape()
      ensures Written(old(disk[..]), old(Nodes()[i := node.Rec()]), old(owner),
                      disk[..], Nodes()[i := node.Rec()], owner, i, off, src)
      decreases |src|, 0, 2
    {
      ghost var d, nodes, o := disk[..], Nodes()[i := node.Rec()], owner;
      var inner := off % DSIZE;
      if inner + |src| <= DSIZE {
        PutChunk(node, off, src, i);
        WrittenHere(d, nodes, o, i, off, src, disk[..]);
      } else {
        WriteAcross(node, off, src, DSIZE - inner, i);
      }
    }

    /** The case of a write that leaves its first block: the rest of that block, then the rest of the write. */
    method WriteAcross(node: Inode, off: int, src: seq<byte>, writeLen: nat, ghost i: nat)
      requires Shape() && i < |files| && Writable(disk[..], Nodes()[i := node.Rec()], owner, i, off, |src|)
      requires off < node.cap && off % DSIZE + |src| > DSIZE && writeLen == DSIZE - off % DSIZE
      modifies disk, node`cap, node`addr1, `owner
      ensures Shape()
      ensures Written(old(disk[..]), old(Nodes()[i := node.Rec()]), old(owner),
                      disk[..], Nodes()[i := node.Rec()], owner, i, off, src)
      decreases |src|, 0, 1
    {
      ghost var d, nodes, o := disk[..], Nodes()[i := node.Rec()], owner;
      var rest := src[writeLen..];
      PutChunk(node, off, src[..writeLen], i);
      ghost var d1 := disk[..];
      assert Nodes()[i := node.Rec()] == nodes && owner == o;
      TailWritable(d, nodes, o, i, off, src, writeLen, rest, d1);
      WriteRest(node, off, src, writeLen, rest, i, d, nodes);
    }

    /** What is left of a write whose first block has been written since the disk was `d`. */
    method WriteRest(node: Inode, off: int, src: seq<byte>, writeLen: nat, rest: seq<byte>, ghost i: nat,
                     ghost d: seq<byte>, ghost nodes: seq<Node>)
      requires Shape() && i < |files| && nodes == Nodes()[i := node.Rec()] && |rest| < |src|
      requires Begun(d, nodes, owner, i, off, src, writeLen, rest, disk[..])
      requires Writable(disk[..], nodes, owner, i, off + writeLen, |rest|)
      modifies disk, node`cap, node`addr1, `owner
      ensures Shape()
      ensures Written(d, nodes, old(owner), disk[..], Nodes()[i := node.Rec()], owner, i, off, src)
      decreases |rest| + 1, 0, 0
    {
      ghost var o, d1 := owner, disk[..];
      WriteData(node, off + writeLen, rest, i);
      WrittenThen(d, nodes, o, i, off, src, writeLen, rest, d1, disk[..], Nodes()[i := node.Rec()], owner);
    }

    /** Writes a chunk that stays inside one block. */
    method PutChunk(node: Inode, off: int, chunk: seq<byte>, ghost i: nat)
      requires Mapped(node.Rec(), i) && 0 <= off < node.cap && off % DSIZE + |chunk| <= DSIZE
      modifies disk
      ensures Nodes()[i := node.Rec()] == old(Nodes()[i := node.Rec()])
      ensures var a := Addr(old(disk[..]), node.Rec(), off);
        0 <= a && a + |chunk| <= disk.Length && disk[..] == Patch(old(disk[..]), a, chunk)
    {
      var addr := CalcDiskAddr(node, off, i);
      ChunkFits(disk[..], Nodes()[i := node.Rec()], owner, i, off, |chunk|);
      DWrite(addr, chunk);
    }

    /** Reads up to `len` bytes at file offset `off` into `buf` from index `at` on; `got` is what was read. */
    method ReadData(node: Inode, off: nat, buf: array<byte>, at: nat, len: nat, ghost i: nat)
      returns (ghost got: seq<byte>)
      requires Mapped(node.Rec(), i) && 0 <= node.size <= node.cap
      requires buf != disk && at + len <= buf.Length
      modifies buf
      ensures Delivered(Full(disk[..], node.Rec()), node.size, off, len, old(buf[..]), at, buf[..], got)
      decreases len, 2
    {
      ghost var d, b := disk[..], buf[..];
      ghost var full := Full(d, node.Rec());
      NodeCap(node, i);
      if off >= node.size {
        DeliveredNothing(full, node.size, off, len, b, at);
        return [];
      }
      var inner := off % DSIZE;
      if inner + len <= DSIZE {
        var count := if len > node.size - off then node.size - off else len;
        got := GetChunk(node, off, buf, at, count, i);
        assert disk[..] == d;
        DeliveredHere(full, node.size, off, len, b, at, buf[..], got);
      } else {
        got := ReadAcross(node, off, buf, at, len, DSIZE - inner, i);
      }
    }

    /** The case of a read that leaves its first block: the rest of that block, then the rest of the read. */
    method ReadAcross(node: Inode, off: nat, buf: array<byte>, at: nat, len: nat, readLen: nat, ghost i: nat)
      returns (ghost got: seq<byte>)
      requires Mapped(node.Rec(), i) && 0 <= node.size <= node.cap
      requires buf != disk && at + len <= buf.Length
      requires off < node.size && off % DSIZE + len > DSIZE && readLen == DSIZE - off % DSIZE
      modifies buf
      ensures Delivered(Full(disk[..], node.Rec()), node.size, off, len, old(buf[..]), at, buf[..], got)
      decreases len, 1
    {
      ghost var d, nodes, b := disk[..], Nodes()[i := node.Rec()], buf[..];
      ghost var full := Full(d, node.Rec());
      NodeCap(node, i);
      AcrossBlock(node.cap, off, len, readLen);
      var first := GetChunk(node, off, buf, at, readLen, i);
      assert disk[..] == d && Nodes()[i := node.Rec()] == nodes;
      got := ReadRest(node, off, buf, at, len, readLen, i, full, first, b);
    }

    /** What is left of a read whose first block is in the buffer, which was `b`. */
    method ReadRest(node: Inode, off: nat, buf: array<byte>, at: nat, len: nat, readLen: nat, ghost i: nat,
                    ghost full: seq<byte>, ghost first: seq<byte>, ghost b: seq<byte>)
      returns (ghost got: seq<byte>)
      requires Mapped(node.Rec(), i) && 0 <= node.size <= node.cap && full == Full(disk[..], node.Rec())
      requires buf != disk && at + len <= buf.Length && 0 < readLen <= len
      requires ReadBegun(full, node.size, off, len, readLen, first, b, at, buf[..])
      modifies buf
      ensures Delivered(full, node.size, off, len, b, at, buf[..], got)
      decreases len, 0
    {
      ghost var d, b1 := disk[..], buf[..];
      var rest := ReadData(node, off + readLen, buf, at + readLen, len - readLen, i);
      assert disk[..] == d;
      got := Chunk(full, off, ReadCount(node.size, off, len));
      DeliveredJoin(full, node.size, off, len, readLen, first, rest, b, at, b1, buf[..], got);
    }

    lemma NodeCap(node: Inode, i: nat)
      requires Mapped(node.Rec(), i)
      ensures node.cap % DSIZE == 0 && |Full(disk[..], node.Rec())| == node.cap
    {
      assert NodeShape(Nodes()[i := node.Rec()][i]);
    }

    /** Reads a chunk that stays inside one block. */
    method GetChunk(node: Inode, off: int, buf: array<byte>, at: nat, len: nat, ghost i: nat)
      returns (ghost got: seq<byte>)
      requires Mapped(node.Rec(), i) && 0 <= off < node.cap && off % DSIZE + len <= DSIZE
      requires buf != disk && at + len <= buf.Length
      modifies buf
      ensures off + len <= node.cap
      ensures got == Chunk(Full(disk[..], node.Rec()), off, len) && |got| == len
      ensures buf[..] == Patch(old(buf[..]), at, got)
    {
      var addr := CalcDiskAddr(node, off, i);
      ReadHere(disk[..], Nodes()[i := node.Rec()], owner, i, off, len);
      got := DRead(addr, buf, at, len);
    }

    /** The disk and the inode region hold exactly `files`. */
    ghost predicate Sound()
      reads `inodes, `files, `owner, `icnt, disk
    {
      Shape() && Rep(disk[..], Nodes(), owner, icnt, files)
    }

    /** Writes and, when the write ends past the end of the file, raises the size. */
    method WriteAndResize(node: Inode, off: int, src: seq<byte>, ghost i: nat, ghost bytes: seq<byte>)
      requires Shape() && i < |files| && Writable(disk[..], Nodes()[i := node.Rec()], owner, i, off, |src|)
      requires HoldsBytes(disk[..], node.Rec(), bytes)
      modifies disk, node, `owner
      ensures Shape()
      ensures Stored(old(disk[..]), old(Nodes()[i := node.Rec()]), old(owner), bytes,
                     disk[..], node.Rec(), owner, i, off, src)
    {
      ghost var d, nodes, o := disk[..], Nodes()[i := node.Rec()], owner;
      WriteData(node, off, src, i);
      ghost var d', nodes' := disk[..], Nodes()[i := node.Rec()];
      if off + |src| <= node.size {
        // the size stays
      } else {
        node.size := off + |src|;
      }
      assert disk[..] == d';
      WrittenStored(d, nodes, o, i, off, src, bytes, d', nodes', owner, node.Rec());
    }

    // ---------- directories ----------

    /** One of the writes that append an entry ending at `end`: `src` goes to the end of the file. */
    method AppendBytes(node: Inode, src: seq<byte>, ghost i: nat, ghost bytes: seq<byte>, ghost end: int)
      requires Mapped(node.Rec(), i) && Tight(node.Rec()) && node.cap >= 0
      requires HoldsBytes(disk[..], node.Rec(), bytes)
      requires WriteEnd(|bytes|, |src|) <= end && EndFits(node.cap, end, |owner|)
      modifies disk, node, `owner
      ensures Shape()
      ensures Stored(old(disk[..]), old(Nodes()[i := node.Rec()]), old(owner), bytes,
                     disk[..], node.Rec(), owner, i, |bytes|, src)
      ensures Mapped(node.Rec(), i) && Tight(node.Rec())
      ensures node.cap >= 0 && EndFits(node.cap, end, |owner|)
      ensures HoldsBytes(disk[..], node.Rec(), bytes + src)
    {
      EndFitsEarlier(node.cap, WriteEnd(|bytes|, |src|), end, |owner|);
      SpliceEnd(bytes, src);
      ghost var d, nodes, o := disk[..], Nodes()[i := node.Rec()], owner;
      WriteData(node, node.size, src, i);
      ghost var d', nodes' := disk[..], Nodes()[i := node.Rec()];
      node.size := node.size + |src|;
      assert disk[..] == d';
      WrittenStored(d, nodes, o, i, |bytes|, src, bytes, d', nodes', owner, node.Rec());
      assert nodes[i := node.Rec()] == Nodes()[i := node.Rec()];
    }

    /** Appends the image of an entry to the file of directory `dir`; the counter is not yet raised. */
    method AppendEntry(node: Inode, id: int, name: Name, ghost dir: nat, ghost f: File)
      requires Mapped(node.Rec(), dir) && f.Dir? && Holds(disk[..], node.Rec(), f)
      requires AppendFits(f, name, |owner|)
      modifies disk, node, `owner
      ensures Shape()
      ensures OnlyFile(old(disk[..]), old(Nodes()[dir := node.Rec()]), old(owner), disk[..], node.Rec(), owner, dir)
      ensures HoldsBytes(disk[..], node.Rec(), EncodeDir(f.cnt, Push(f.log, Entry(id, name))))
      ensures node.kind == 1 && node.cap == GrowCap(f.cap, AppendEnd(f, name))
      ensures |owner| == |old(owner)| + NewBlocks(f.cap, AppendEnd(f, name))
    {
      ghost var d, nodes, o, b, end := disk[..], Nodes()[dir := node.Rec()], owner, Contents(f), AppendEnd(f, name);
      ghost var b1 := b + IntBytes(id);
      ghost var b2 := b1 + IntBytes(|name|);
      ghost var image := EncodeDir(f.cnt, Push(f.log, Entry(id, name)));
      AppendedImage(f, id, name, b, b1, b2);
      AppendBytes(node, IntBytes(id), dir, b, end);
      ghost var d1, n1, o1 := disk[..], node.Rec(), owner;
      assert Nodes()[dir := n1] == nodes[dir := n1];
      AppendBytes(node, IntBytes(|name|), dir, b1, end);
      ghost var d2, n2, o2 := disk[..], node.Rec(), owner;
      assert Nodes()[dir := n2] == nodes[dir := n2];
      AppendBytes(node, name, dir, b2, end);
      EntryStored(d, nodes, o, dir, f, id, name, b, b1, b2, image, d1, n1, o1, d2, n2, o2, disk[..], node.Rec(), owner);
    }

    /** Adds `delta` to the counter at the start of a directory file; `nodes` is the inode table with the
        copy `n` of the directory's inode in it. */
    method BumpCounter(node: Inode, delta: int, ghost dir: nat, ghost c: int, ghost log: seq<Entry>,
                       ghost nodes: seq<Node>, ghost n: Node)
      requires Mapped(n, dir) && node.Rec() == n && nodes == Nodes()[dir := n]
      requires Tight(n) && Int32(c) && n.cap >= 0
      requires HoldsBytes(disk[..], n, EncodeDir(c, log))
      modifies disk
      ensures OnlyFile(old(disk[..]), nodes, owner, disk[..], n, owner, dir)
      ensures HoldsBytes(disk[..], n, EncodeDir(c + delta, log))
    {
      ghost var d := disk[..];
      CounterOf(d, nodes, owner, dir, c, log);
      var cnt := GetIntAt(node.addr0);
      PutIntAt(node.addr0, cnt + delta);
      FirstIntStored(d, nodes, owner, dir, EncodeDir(c, log), c + delta, disk[..]);
      SpliceCounter(c, log, c + delta);
    }

    /** Counts an entry `e` whose image has been appended to the file of directory `dir`, which has changed
        nothing else since the disk was `d`. */
    method CountEntry(node: Inode, ghost dir: nat, ghost e: Entry, ghost d: seq<byte>, ghost nodes: seq<Node>,
                      ghost o: seq<Slot>)
      requires Shape() && dir < |files| && Rep(d, nodes, o, icnt, files) && Nodes() == nodes[dir := node.Rec()]
      requires files[dir].Dir? && Sized(e)
      requires OnlyFile(d, nodes, o, disk[..], node.Rec(), owner, dir)
      requires HoldsBytes(disk[..], node.Rec(), EncodeDir(files[dir].cnt, Push(files[dir].log, e)))
      requires node.kind == 1 && node.cap == GrowCap(files[dir].cap, AppendEnd(files[dir], e.name))
      modifies disk, `files
      ensures Sound() && files == old(files)[dir := Append(old(files)[dir], e)]
      ensures Gained(o, owner, dir)
    {
      ghost var d3, n3, f := disk[..], node.Rec(), files[dir];
      CounterFits(d, nodes, o, icnt, files, dir);
      assert Nodes()[dir := n3] == nodes[dir := n3];
      BumpCounter(node, 1, dir, f.cnt, Push(f.log, e), nodes[dir := n3], n3);
      ghost var d4 := disk[..];
      EntryAdded(d, nodes, o, icnt, files, dir, e, d3, n3, owner, d4);
      files := files[dir := Append(f, e)];
      assert Nodes() == nodes[dir := n3] && disk[..] == d4;
    }

    /** Appends an entry to the log of directory `dir` and counts it. */
    method AddEntryToDir(id: int, name: Name, dir: nat)
      requires Sound() && dir < |files| && files[dir].Dir? && Sized(Entry(id, name))
      requires AppendFits(files[dir], name, |owner|)
      modifies disk, `inodes, `owner, `files
      ensures Sound()
      ensures files == old(files)[dir := Append(old(files)[dir], Entry(id, name))]
      ensures |owner| == |old(owner)| + NewBlocks(old(files)[dir].cap, AppendEnd(old(files)[dir], name))
      ensures Gained(old(owner), owner, dir)
    {
      ghost var d, nodes, o, f := disk[..], Nodes(), owner, files[dir];
      assert Holds(d, nodes[dir], f);
      var node := ReadInode(dir);
      assert nodes[dir := node.Rec()] == nodes;
      AppendEntry(node, id, name, dir, f);
      ghost var d3, n3 := disk[..], node.Rec();
      WriteInode(dir, node);
      assert Nodes() == nodes[dir := n3] && disk[..] == d3;
      CountEntry(node, dir, Entry(id, name), d, nodes, o);
    }

    // ---------- creating files ----------

    /** A new empty file; -1 when the inode map or the data map is full.  In the latter case the inode
        id stays marked. */
    method CreateFile() returns (id: int)
      requires Sound()
      modifies disk, `inodes, `owner, `files, `icnt
      ensures Sound()
      ensures id == -1 <==> old(icnt) == INUM || |old(owner)| == DNUM
      ensures id == -1 ==> files == old(files) && inodes == old(inodes) && owner == old(owner)
      ensures id == -1 && old(icnt) < INUM ==> disk[..] == Patch(old(disk[..]), IMAP + old(icnt), [1])
      ensures id == -1 && old(icnt) == INUM ==> disk[..] == old(disk[..])
      ensures id != -1 ==> id == |old(files)| && files == Push(old(files), EmptyFile()) && icnt == |files|
      ensures id != -1 ==> |owner| == |old(owner)| + 1 && Gained(old(owner), owner, id)
      ensures icnt >= old(icnt)
    {
      ghost var d, nodes, o := disk[..], Nodes(), owner;
      id := AllocInodeBlock(icnt);
      if id == -1 {
        return;
      }
      ghost var d1 := disk[..];
      var block := AllocDataBlock(|owner|);
      if block == -1 {
        ImapNext(d, icnt, d1);
        RepLowWrite(d, nodes, o, icnt, files, d1, icnt + 1);
        icnt := icnt + 1;
        assert disk[..] == d1 && Nodes() == nodes;
        return -1;
      }
      PutNewInode(id, block, d, d1);
    }

    /** The last step of creating a file: its inode, with its one block, is written. */
    method PutNewInode(id: nat, block: nat, ghost d: seq<byte>, ghost d1: seq<byte>)
      requires Shape() && Rep(d, Nodes(), owner, icnt, files) && icnt < INUM && |owner| < DNUM
      requires id == |files| && block == |owner|
      requires IMAP + icnt + 1 <= |d| && d1 == Patch(d, IMAP + icnt, [1])
      requires DMAP + |owner| + 1 <= |d1| && disk[..] == Patch(d1, DMAP + |owner|, [1])
      modifies `inodes, `owner, `files, `icnt
      ensures Sound() && files == Push(old(files), EmptyFile()) && icnt == old(icnt) + 1 == |files|
      ensures |owner| == |old(owner)| + 1 && Gained(old(owner), owner, id)
    {
      ghost var nodes, o := Nodes(), owner;
      var node := new Inode();
      node.addr0 := DataOffset(block);
      ghost var n := node.Rec();
      RepCreate(d, nodes, o, icnt, files, d1, disk[..], n, o + [Slot(|files|, 0)]);
      WriteInode(id, node);
      owner := o + [Slot(|files|, 0)];
      icnt := icnt + 1;
      files := Push(files, EmptyFile());
      assert Nodes() == Push(nodes, n);
    }

    /** Turns the new empty file `id` into a directory with no entries. */
    method InitDir(id: nat)
      requires Sound() && id < |files| && files[id] == EmptyFile()
      modifies disk, `inodes, `files
      ensures Sound() && files == old(files)[id := BareDir()]
    {
      ghost var d, nodes := disk[..], Nodes();
      assert Holds(d, nodes[id], files[id]);
      var node := ReadInode(id);
      node.kind := 1;
      node.size := 4;
      ghost var n := node.Rec();
      RepBareDir(d, nodes, owner, icnt, files, id, n);
      WriteInode(id, node);
      files := files[id := BareDir()];
      ghost var nodes1 := nodes[id := n];
      assert Nodes() == nodes1 && disk[..] == d;
      FirstIntAddress(d, nodes1, owner, id);
      PutIntAt(node.addr0, 0);
      ghost var d1 := disk[..];
      FirstIntStored(d, nodes1, owner, id, EncodeDir(0, []), 0, d1);
      BareDirStored(d, nodes1, owner, icnt, files, id, d1);
      assert Nodes() == nodes1;
    }

    /** A new directory under `cwd`, holding its entries for itself and for its parent. */
    method NewDir() returns (id: int)
      requires Sound() && |files| < INUM && |owner| < DNUM && Int32(cwd)
      modifies disk, `inodes, `owner, `files, `icnt
      ensures icnt >= old(icnt)
      ensures Sound()
      ensures id == |old(files)| && files == Push(old(files), EmptyDir(id, cwd)) && |owner| == |old(owner)| + 1
    {
      id := CreateFile();
      InitDir(id);
      BareDirFilled(id, cwd);
      AddEntryToDir(id, DOT, id);
      AddEntryToDir(cwd, DOTDOT, id);
    }

    // ---------- reading directories ----------

    /** `len` bytes at `off`, inside the file. */
    method ReadBytes(node: Inode, off: nat, len: nat, ghost i: nat, ghost bytes: seq<byte>) returns (s: seq<byte>)
      requires Mapped(node.Rec(), i) && HoldsBytes(disk[..], node.Rec(), bytes) && off + len <= |bytes|
      ensures s == Chunk(bytes, off, len)
    {
      var buf := new byte[len];
      ghost var d, b := disk[..], buf[..];
      var got := ReadData(node, off, buf, 0, len, i);
      assert disk[..] == d;
      s := buf[..];
      ReadInside(d, node.Rec(), bytes, off, len, b, s, got);
    }

    method ReadInt(node: Inode, off: nat, ghost i: nat, ghost bytes: seq<byte>, ghost v: int) returns (r: int)
      requires Mapped(node.Rec(), i) && HoldsBytes(disk[..], node.Rec(), bytes)
      requires off + 4 <= |bytes| && Chunk(bytes, off, 4) == IntBytes(v) && Int32(v)
      ensures r == v
    {
      var s := ReadBytes(node, off, 4, i, bytes);
      IntRoundTrip(v);
      r := IntAt(s, 0);
    }

    /** Decodes raw entry `r` of directory `dir` from the offset at which it starts. */
    method ReadEntry(node: Inode, off: nat, ghost dir: nat, ghost r: nat) returns (e: Entry)
      requires Sound() && dir < |files| && files[dir].Dir? && node.Rec() == inodes[dir]
      requires r < |files[dir].log| && off == EntryOffset(files[dir].log, r)
      ensures e == files[dir].log[r]
      ensures off + 8 + |e.name| == EntryOffset(files[dir].log, r + 1)
    {
      ghost var f := files[dir];
      assert Holds(disk[..], Nodes()[dir], f);
      assert Nodes()[dir := node.Rec()] == Nodes();
      EntryBytes(f.cnt, f.log, r);
      ghost var b := Contents(f);
      var id := ReadInt(node, off, dir, b, f.log[r].id);
      var nlen := ReadInt(node, off + 4, dir, b, |f.log[r].name|);
      var name := ReadBytes(node, off + 8, nlen, dir, b);
      e := Entry(id, name);
    }

    /** The counter of a directory. */
    method GetDirFileNum(node: Inode, ghost dir: nat) returns (cnt: int)
      requires Sound() && dir < |files| && files[dir].Dir? && node.Rec() == inodes[dir]
      ensures cnt == files[dir].cnt
    {
      assert Holds(disk[..], Nodes()[dir], files[dir]);
      CounterAt(disk[..], Nodes(), owner, dir, files[dir]);
      cnt := GetIntAt(node.addr0);
    }

    /** The inner loop of loading: reads raw entries from offset `start` on until one is not deleted. */
    method NextLive(node: Inode, start: int, ghost dir: nat, ghost first: nat, ghost k: int,
                    ghost table: map<Name, int>)
      returns (off: int, e: Entry, ghost r: nat)
      requires Sound() && dir < |files| && files[dir].Dir? && node.Rec() == inodes[dir]
      requires Loading(files[dir].log, first, start, k, table) && k < |Live(files[dir].log)|
      ensures Loading(files[dir].log, r, off, k, table)
      ensures r < |files[dir].log| && e == files[dir].log[r] && e.id != DELETED
    {
      ghost var log, n := files[dir].log, node.Rec();
      off, r := start, first;
      LoadingMore(log, r, off, k, table);
      e := ReadEntry(node, off, dir, r);
      while e.id == DELETED
        invariant node.Rec() == n
        invariant Loading(log, r, off, k, table) && r < |log| && e == log[r]
        decreases |log| - r
      {
        LoadingSkips(log, r, off, k, table);
        off := off + 8 + |e.name|;
        r := r + 1;
        LoadingMore(log, r, off, k, table);
        e := ReadEntry(node, off, dir, r);
      }
    }

    /** Loads the names of a directory: `cnt` live entries, deleted ones skipped, the first of a name wins. */
    method LoadDirTable(dir: nat) returns (table: map<Name, int>)
      requires Sound() && dir < |files| && files[dir].Dir? && 0 <= files[dir].cnt <= |Live(files[dir].log)|
      ensures table == DirTable(files[dir])
    {
      var node := ReadInode(dir);
      var cnt := GetDirFileNum(node, dir);
      ghost var log, n := files[dir].log, node.Rec();
      var off, k := 4, 0;
      ghost var r := 0;
      table := map[];
      LoadingStarts(log);
      while k < cnt
        invariant node.Rec() == n && 0 <= k <= cnt
        invariant Loading(log, r, off, k, table)
      {
        var e;
        off, e, r := NextLive(node, off, dir, r, k, table);
        ghost var before := table;
        if e.name !in table {
          table := table[e.name := e.id];
        }
        LoadingEnters(log, r, off, k, before, table);
        off := off + 8 + |e.name|;
        r := r + 1;
        k := k + 1;
      }
      LoadingEnds(log, r, off, k, table);
    }

    method LoadCwdTable()
      requires Sound() && cwd < |files| && files[cwd].Dir? && 0 <= files[cwd].cnt <= |Live(files[cwd].log)|
      modifies `cwdTable
      ensures cwdTable == DirTable(files[cwd])
    {
      cwdTable := LoadDirTable(cwd);
    }

    // ---------- the state between commands ----------

    ghost function Model(): State
      reads `files, `cwd, `fdMap, `fdCnt
    {
      State(files, cwd, fdMap, fdCnt)
    }

    /** Between commands: the disk holds `files`, the files form a well-formed tree, the current
        directory is a directory, and the cached table is the one its log decodes to. */
    ghost predicate Valid()
      reads this, disk
    {
      Sound() && Inv(Model()) && cwdTable == DirTable(files[cwd])
    }

    // ---------- paths ----------

    /** Splits at the last slash; a path without a slash is first prefixed with `./`. */
    method ParsePath(path: seq<byte>) returns (dir: seq<byte>, name: Name)
      ensures dir == DirPart(path) && name == NamePart(path)
    {
      var count := 0;
      for i := 0 to |path|
        invariant count == Slashes(path[..i])
      {
        assert path[..i + 1][..i] == path[..i];
        if path[i] == SLASH {
          count := count + 1;
        }
      }
      assert path[..|path|] == path;
      var p: seq<byte> := path;
      NoSlash(path);
      if count == 0 {
        PrefixedPath(path);
        p := DOT + [SLASH] + path;
        count := 1;
      }
      assert p[..|p|] == p;
      var seen := 0;
      for i := 0 to |p|
        invariant seen == Slashes(p[..i]) < count
      {
        assert p[..i + 1][..i] == p[..i];
        if p[i] == SLASH {
          seen := seen + 1;
          if seen == count {
            LastCounted(p, i);
            return p[..i], p[i + 1..];
          }
        }
      }
      assert false;
    }

    /** Inode id of a name in the current directory, -1 when there is none. */
    method FindFileInCurDir(name: Name) returns (id: int)
      ensures id == if name in cwdTable then cwdTable[name] else -1
    {
      if name in cwdTable {
        return cwdTable[name];
      }
      return -1;
    }

    method ChangeCwdTo(dir: nat)
      requires Sound() && FilesOk(files) && FdsOk(Model()) && IsDir(files, dir)
      modifies `cwd, `cwdTable
      ensures Valid() && Model() == old(Model()).(cwd := dir)
    {
      assert DirOk(files, dir);
      cwd := dir;
      LoadCwdTable();
    }

    /** Follows the names of a path; stops in the last directory reached when a name is missing. */
    method Cd(path: seq<byte>) returns (ok: bool)
      requires Valid() && PathOk(Model(), path)
      modifies `cwd, `cwdTable
      ensures Valid()
      ensures Model() == old(Model()).(cwd := CdTo(old(Model()), path).0)
      ensures ok == CdTo(old(Model()), path).1
    {
      ghost var goal := CdTo(Model(), path);
      if |path| > 0 && path[0] == SLASH {
        ChangeCwdTo(ROOT);
      }
      var names := Tokens(path);
      assert names[0..] == names;
      WalkingIs(files, cwd, names, 0);
      ok := Follow(names, goal);
    }

    /** Follows names from the current directory to where they lead. */
    method Follow(names: seq<Name>, ghost goal: (nat, bool)) returns (ok: bool)
      requires Valid() && Walking(files, cwd, names, 0, goal)
      modifies `cwd, `cwdTable
      ensures Valid() && Model() == old(Model()).(cwd := goal.0) && ok == goal.1
    {
      var k := 0;
      while k < |names|
        invariant 0 <= k <= |names|
        invariant Valid() && files == old(files) && fdMap == old(fdMap) && fdCnt == old(fdCnt)
        invariant Walking(files, cwd, names, k, goal)
      {
        ok := FollowOne(names, k, goal);
        if !ok {
          return false;
        }
        k := k + 1;
      }
      return true;
    }

    /** One of them. */
    method FollowOne(names: seq<Name>, k: nat, ghost goal: (nat, bool)) returns (ok: bool)
      requires Valid() && k < |names| && Walking(files, cwd, names, k, goal)
      modifies `cwd, `cwdTable
      ensures Valid()
      ensures if ok then Walking(files, cwd, names, k + 1, goal) else goal == (cwd, false)
    {
      var id := FindFileInCurDir(names[k]);
      WalkingOn(files, cwd, names, k, goal, id);
      if id == -1 {
        return false;
      }
      ChangeCwdTo(id);
      return true;
    }

    // ---------- descriptors ----------

    method RegisterFD(id: nat) returns (fd: int)
      modifies `fdCnt, `fdMap
      ensures fd == old(fdCnt) + 1 && fdCnt == fd && fdMap == old(fdMap)[fd := Desc(id, 0)]
    {
      fdCnt := fdCnt + 1;
      fdMap := fdMap[fdCnt := Desc(id, 0)];
      return fdCnt;
    }

    method Close(fd: int)
      requires Valid()
      modifies `fdMap
      ensures Valid() && Model() == DoClose(old(Model()), fd)
    {
      ghost var s := Model();
      if fd in fdMap {
        fdMap := fdMap - {fd};
      }
      CloseEnds(s, fd, Model());
    }

    method Seek(fd: int, off: int) returns (ok: bool)
      requires Valid()
      modifies `fdMap
      ensures Valid() && (Model(), if ok then Done else Failed) == DoSeek(old(Model()), fd, off)
    {
      if fd !in fdMap {
        return false;
      }
      DescKeeps(Model(), fd, off);
      fdMap := fdMap[fd := Desc(fdMap[fd].inode, off)];
      return true;
    }

    /** Writes at the position of a descriptor, raises the file size if need be, and moves on. */
    method Write(fd: int, data: seq<byte>) returns (ok: bool)
      requires Valid() && CanWrite(Model(), fd, data)
      modifies disk, `inodes, `owner, `files, `fdMap
      ensures Valid() && (Model(), if ok then Done else Failed) == DoWrite(old(Model()), fd, data)
    {
      ghost var s := Model();
      if fd !in fdMap {
        return false;
      }
      var i, pos := fdMap[fd].inode, fdMap[fd].pos;
      OwnedIsUsed(disk[..], Nodes(), files);
      StoreAt(i, pos, data);
      fdMap := fdMap[fd := Desc(i, pos + |data|)];
      WriteEnds(s, fd, data, i, pos, Model());
      return true;
    }

    /** The file part of a write: inode `i` is read, written through, and written back. */
    method StoreAt(i: nat, pos: nat, data: seq<byte>)
      requires Sound() && i < |files| && files[i].Reg?
      requires EndFits(files[i].cap, WriteEnd(pos, |data|), |owner|)
      modifies disk, `inodes, `owner, `files
      ensures Sound() && files == old(files)[i := WriteFile(old(files)[i], pos, data)]
      ensures Gained(old(owner), owner, i)
    {
      ghost var d, nodes, o, f := disk[..], Nodes(), owner, files[i];
      assert Holds(d, nodes[i], f);
      var node := ReadInode(i);
      assert nodes[i := node.Rec()] == nodes;
      WriteAndResize(node, pos, data, i, f.data);
      ghost var d1, n1 := disk[..], node.Rec();
      WriteInode(i, node);
      RepReplace(d, nodes, o, icnt, files, d1, n1, owner, i, WriteFile(f, pos, data));
      files := files[i := WriteFile(f, pos, data)];
      assert Nodes() == nodes[i := n1] && disk[..] == d1;
    }

    /** Reads at the position of a descriptor and moves on by the length asked for. */
    method Read(fd: int, len: int) returns (ok: bool, data: seq<byte>)
      requires Valid() && CanRead(Model(), fd, len)
      modifies `fdMap
      ensures Valid() && (Model(), if ok then Got(data) else Failed) == DoRead(old(Model()), fd, len)
    {
      if fd !in fdMap {
        return false, [];
      }
      ghost var s := Model();
      var i, pos := fdMap[fd].inode, fdMap[fd].pos;
      data := FetchAt(i, pos, len);
      fdMap := fdMap[fd := Desc(i, pos + len)];
      ReadEnds(s, fd, len, i, pos, data, Model());
      return true, data;
    }

    /** The file part of a read; the buffer is one longer than the length asked for. */
    method FetchAt(i: nat, pos: nat, len: nat) returns (data: seq<byte>)
      requires Sound() && i < |files|
      ensures data == ReadFile(files[i], pos, len)
    {
      ghost var d, nodes, f := disk[..], Nodes(), files[i];
      assert Holds(d, nodes[i], f);
      var node := ReadInode(i);
      assert nodes[i := node.Rec()] == nodes;
      var buf := new byte[len + 1];
      ghost var b := buf[..];
      var got := ReadData(node, pos, buf, 0, len, i);
      assert disk[..] == d;
      data := buf[..ReadCount(node.size, pos, len)];
      DeliveredFile(d, nodes, owner, i, f, pos, len, b, buf[..], got);
    }

    // ---------- opening and making directories ----------

    /** Enters the newest inode in the current directory and brings the cached table up to date. */
    method EnterHere(id: nat, name: Name, ghost s: State, ghost f: File)
      requires Sound() && Inv(s) && AddFits(s.files, s.cwd, name) && cwd == s.cwd
      requires files == Push(s.files, f) && id == |s.files| && |owner| == Used(s.files) + 1
      requires f == EmptyFile() || f == EmptyDir(|s.files|, s.cwd)
      modifies disk, `inodes, `owner, `files, `cwdTable
      ensures Sound() && files == AddFile(s.files, s.cwd, f, name)
      ensures IsDir(files, cwd) && cwdTable == DirTable(files[cwd])
    {
      ghost var files1 := files;
      EnterNeeds(s, f, name, |owner|);
      AddEntryToDir(id, name, cwd);
      Entered(s, f, name, files1, files);
      LoadCwdTable();
    }

    /** A new file entered in the current directory. */
    method CreateHere(name: Name) returns (id: nat)
      requires Valid() && AddFits(files, cwd, name)
      modifies disk, `inodes, `owner, `files, `icnt, `cwdTable
      ensures icnt >= old(icnt)
      ensures Sound() && id == |old(files)| && files == AddFile(old(files), cwd, EmptyFile(), name)
      ensures IsDir(files, cwd) && cwdTable == DirTable(files[cwd])
    {
      ghost var s := Model();
      OwnedIsUsed(disk[..], Nodes(), files);
      id := CreateFile();
      EnterHere(id, name, s, EmptyFile());
    }

    /** A new file entered in the current directory, and a descriptor for it. */
    method CreateAndOpen(name: Name) returns (fd: int)
      requires Valid() && CanOpenHere(Model(), name, WriteFlag) && name !in cwdTable
      modifies disk, `inodes, `owner, `files, `icnt, `cwdTable, `fdCnt, `fdMap
      ensures icnt >= old(icnt)
      ensures Valid() && fd >= 0
      ensures Machine.OpenHere(old(Model()), name, WriteFlag) == (Model(), Opened(fd))
    {
      ghost var s := Model();
      CreateNeeds(s, name);
      var id := CreateHere(name);
      fd := RegisterFD(id);
      OpenHereCreates(s, name, Model());
    }

    /** Opens a name of the current directory, creating it when it is missing and the flag is `w`. */
    method OpenHere(name: Name, flag: Flag) returns (fd: int)
      requires Valid() && CanOpenHere(Model(), name, flag)
      modifies disk, `inodes, `owner, `files, `icnt, `cwdTable, `fdCnt, `fdMap
      ensures icnt >= old(icnt)
      ensures Valid() && fd >= -1
      ensures Machine.OpenHere(old(Model()), name, flag) == (Model(), if fd == -1 then Failed else Opened(fd))
    {
      ghost var s := Model();
      OpenHereKeeps(s, name, flag);
      var id := FindFileInCurDir(name);
      if id == -1 && flag.WriteFlag? {
        fd := CreateAndOpen(name);
      } else if id == -1 || flag.BadFlag? {
        OpenHereRefused(s, name, flag);
        fd := -1;
      } else {
        fd := RegisterFD(id);
        OpenHereFound(s, name, flag, id, fd, Model());
      }
    }

    /** Opens a file by path.  On failure the current directory is left where the path led. */
    method Open(path: seq<byte>, flag: Flag) returns (fd: int)
      requires Valid() && CanOpen(Model(), path, flag)
      modifies disk, `inodes, `owner, `files, `icnt, `cwd, `cwdTable, `fdCnt, `fdMap
      ensures icnt >= old(icnt)
      ensures Valid()
      ensures fd >= -1
      ensures (Model(), if fd == -1 then Failed else Opened(fd)) == DoOpen(old(Model()), path, flag)
    {
      var saved := cwd;
      var dir, name := ParsePath(path);
      var ok := Cd(dir);
      ghost var s1 := Model();
      fd := OpenHere(name, flag);
      if fd == -1 {
        return;
      }
      OpenHereKeeps(s1, name, flag);
      assert IsDir(s1.files, saved);
      ChangeCwdTo(saved);
    }

    /** Makes a directory in the current one. */
    method MkdirHere(name: Name)
      requires Valid() && CanMkdirHere(Model(), name)
      modifies disk, `inodes, `owner, `files, `icnt, `cwdTable
      ensures icnt >= old(icnt)
      ensures Valid()
      ensures Model() == Machine.MkdirHere(old(Model()), name)
    {
      ghost var s := Model();
      OwnedIsUsed(disk[..], Nodes(), files);
      var id := NewDir();
      EnterHere(id, name, s, EmptyDir(|s.files|, s.cwd));
      MkdirEnds(s, name, Model());
    }

    /** Makes a directory by path. */
    method Mkdir(path: seq<byte>)
      requires Valid() && CanMkdir(Model(), path)
      modifies disk, `inodes, `owner, `files, `icnt, `cwd, `cwdTable
      ensures icnt >= old(icnt)
      ensures Valid()
      ensures Model() == DoMkdir(old(Model()), path)
    {
      var saved := cwd;
      var dir, name := ParsePath(path);
      var ok := Cd(dir);
      ghost var s1 := Model();
      MkdirHere(name);
      MkdirHereKeeps(s1, name);
      assert IsDir(s1.files, saved);
      ChangeCwdTo(saved);
    }

    // ---------- removing ----------

    /** Stores 1, the value of an allocated byte. */
    method FreeBit(start: nat, id: int)
      requires 0 <= start + id < disk.Length
      modifies disk
      ensures disk[..] == Patch(old(disk[..]), start + id, [1])
    {
      DWrite(start + id, [1]);
    }

    /** The loop over the blocks past the first; it adds its counter to the first table entry. */
    method FreeTable(node: Inode, ghost id: nat)
      requires Mapped(node.Rec(), id) && node.cap > DSIZE
      modifies disk
      ensures disk[..] == old(disk[..])
    {
      ghost var d, nodes := disk[..], Nodes()[id := node.Rec()];
      assert NodeShape(nodes[id]);
      LoopMarked(d, nodes, owner, id, 0);
      var first := GetIntAt(node.addr1);
      var count := node.cap / DSIZE - 1;
      var k := 0;
      while k < count
        invariant 0 <= k <= count && disk[..] == d
      {
        LoopMarked(d, nodes, owner, id, k);
        PatchOwn(d, DMAP + DataId(first + k * 4));
        FreeBit(DMAP, DataId(first + k * 4));
        k := k + 1;
      }
    }

    /** The part of the release that is about blocks: every byte it sets is set already. */
    method FreeBlocks(node: Inode, ghost id: int)
      requires Sound() && -1 <= id < |files| && node.Rec() == if id == -1 then ZERO_NODE else inodes[id]
      modifies disk
      ensures disk[..] == old(disk[..])
    {
      ghost var d, nodes := disk[..], Nodes();
      if id >= 0 {
        assert nodes[id := node.Rec()] == nodes;
        assert Holds(d, nodes[id], files[id]) && NodeShape(nodes[id]);
      }
      if node.addr1 == -1 {
        DirectMarked(d, nodes, owner, id);
        PatchOwn(d, DMAP + DataId(node.addr0));
        FreeBit(DMAP, DataId(node.addr0));
      } else if node.addr2 == -1 {
        FreeTable(node, id);
      }
    }

    /** The release as the code does it.  It gives nothing back: on an inode in use it leaves every byte
        as it is, and for id -1 it sets the byte in front of the inode map. */
    method FreeFile(id: int)
      requires Sound() && -1 <= id < |files|
      modifies disk
      ensures Sound()
      ensures disk[..] == if id == -1 then Patch(old(disk[..]), IMAP - 1, [1]) else old(disk[..])
    {
      ghost var d := disk[..];
      var node := ReadInode(id);
      FreeBlocks(node, id);
      assert disk[..] == d;
      FreeBit(IMAP, id);
      if id >= 0 {
        assert d[IMAP + id] == 1;
        PatchOwn(d, IMAP + id);
        assert disk[..] == d;
      } else {
        RepLowWrite(d, Nodes(), owner, icnt, files, disk[..], icnt);
      }
    }

    /** A directory is empty when its counter says that only its first two entries are left. */
    method CheckDirEmpty(node: Inode, ghost id: nat) returns (empty: bool)
      requires Sound() && id < |files| && files[id].Dir? && node.Rec() == inodes[id]
      ensures empty == (files[id].cnt == 2)
    {
      var cnt := GetDirFileNum(node, id);
      empty := cnt == 2;
    }

    /** Lowers the counter of the current directory, the id of whose raw entry `r` has been overwritten;
        nothing else has changed since the disk was `d`. */
    method UncountEntry(node: Inode, ghost r: nat, ghost d: seq<byte>, ghost n: Node)
      requires Shape() && cwd < |files| && Rep(d, Nodes(), owner, icnt, files) && n == node.Rec() == Nodes()[cwd]
      requires files[cwd].Dir? && r < |files[cwd].log| && files[cwd].cnt >= 1
      requires OnlyFile(d, Nodes(), owner, disk[..], n, owner, cwd)
      requires HoldsBytes(disk[..], n, EncodeDir(files[cwd].cnt, Unlink(files[cwd], r).log))
      modifies disk, `files
      ensures Sound() && files == old(files)[cwd := Unlink(old(files)[cwd], r)]
    {
      ghost var d1, nodes, f := disk[..], Nodes(), files[cwd];
      CounterFits(d, nodes, owner, icnt, files, cwd);
      assert nodes[cwd := n] == nodes;
      BumpCounter(node, -1, cwd, f.cnt, Unlink(f, r).log, nodes, n);
      ghost var d2 := disk[..];
      UnlinkHeld(d, nodes, owner, icnt, files, cwd, r, n, d1, d2);
      files := files[cwd := Unlink(f, r)];
      assert Nodes() == nodes && disk[..] == d2;
    }

    /** Overwrites the id of raw entry `r` of the current directory and lowers its counter. */
    method UnlinkEntry(node: Inode, off: int, ghost r: nat)
      requires Sound() && cwd < |files| && files[cwd].Dir? && node.Rec() == inodes[cwd]
      requires r < |files[cwd].log| && off == EntryOffset(files[cwd].log, r) && files[cwd].cnt >= 1
      modifies disk, node, `owner, `files
      ensures Sound() && files == old(files)[cwd := Unlink(old(files)[cwd], r)]
      ensures owner == old(owner)
    {
      ghost var d, nodes, o, f := disk[..], Nodes(), owner, files[cwd];
      assert Holds(d, nodes[cwd], f);
      assert nodes[cwd := node.Rec()] == nodes;
      EntryInside(d, nodes, o, cwd, f, r, off);
      WriteData(node, off, IntBytes(DELETED), cwd);
      WrittenStored(d, nodes, o, cwd, off, IntBytes(DELETED), Contents(f), disk[..], Nodes()[cwd := node.Rec()],
                    owner, node.Rec());
      IdOverwritten(d, nodes, o, cwd, f, r, off, disk[..], node.Rec(), owner);
      UncountEntry(node, r, d, node.Rec());
    }

    /** Scans as many raw entries of the current directory as its counter says, deleted ones included.
        Stops at the first with the given name, at raw index `i` and file offset `off`. */
    method ScanFor(node: Inode, name: Name) returns (found: bool, i: nat, off: int, id: int)
      requires Sound() && FilesOk(files) && IsDir(files, cwd) && files[cwd].cnt <= |files[cwd].log|
      requires node.Rec() == inodes[cwd]
      ensures found == (i < files[cwd].cnt)
      ensures i <= files[cwd].cnt && forall q :: 0 <= q < i ==> files[cwd].log[q].name != name
      ensures found ==>
          off == EntryOffset(files[cwd].log, i) && files[cwd].log[i] == Entry(id, name) && -1 <= id < |files|
    {
      ghost var log, n := files[cwd].log, node.Rec();
      assert DirOk(files, cwd);
      var cnt := GetDirFileNum(node, cwd);
      off, id, i := 4, -1, 0;
      assert log[..0] == [];
      while i < cnt
        invariant node.Rec() == n && 0 <= i <= cnt
        invariant off == EntryOffset(log, i)
        invariant forall q :: 0 <= q < i ==> log[q].name != name
      {
        var e := ReadEntry(node, off, cwd, i);
        EntryIds(files, cwd, i);
        if e.name == name {
          return true, i, off, e.id;
        }
        off := off + 8 + |e.name|;
        i := i + 1;
      }
      found := false;
    }

    /** Removes a name of the current directory: `done` is false when it is a directory in use. */
    method Rm(name: Name) returns (done: bool)
      requires Valid() && CanRm(Model(), name)
      modifies disk, `owner, `files, `cwdTable
      ensures Valid()
      ensures DoRm(old(Model()), name) == (Model(), if done then Done else Failed)
    {
      ghost var s := Model();
      assert DirOk(files, cwd);
      var node := ReadInode(cwd);
      var found, i, off, id := ScanFor(node, name);
      if found {
        RmFinds(s, name, i);
        done := RemoveFound(node, id, off, i);
      } else {
        RmMisses(s, name);
        done := true;
      }
    }

    /** The scan has found the name at raw entry `i`, which names inode `id`. */
    method RemoveFound(node: Inode, id: int, off: int, ghost i: nat) returns (done: bool)
      requires Valid() && i < |files[cwd].log| && files[cwd].log[i].id == id && files[cwd].cnt >= 1
      requires node.Rec() == inodes[cwd] && off == EntryOffset(files[cwd].log, i) && -1 <= id < |files|
      requires !Occupied(files, id) ==> RmRemoves(Model(), i)
      modifies disk, node, `owner, `files, `cwdTable
      ensures done == !old(Occupied(files, id))
      ensures !done ==> Valid() && Model() == old(Model())
      ensures done ==> Valid() && Model() == old(Model()).(files := old(files)[cwd := Unlink(old(files)[cwd], i)])
    {
      var entryNode := ReadInode(id);
      if id >= 0 {
        assert Holds(disk[..], Nodes()[id], files[id]);
      }
      if entryNode.kind == 1 {
        var empty := CheckDirEmpty(entryNode, id);
        if !empty {
          return false;
        }
      }
      Discard(node, id, off, i);
      return true;
    }

    /** Unlinks raw entry `i` of the current directory and releases inode `id`. */
    method Discard(node: Inode, id: int, off: int, ghost i: nat)
      requires Valid() && i < |files[cwd].log| && files[cwd].cnt >= 1 && RmRemoves(Model(), i)
      requires node.Rec() == inodes[cwd] && off == EntryOffset(files[cwd].log, i) && -1 <= id < |files|
      modifies disk, node, `owner, `files, `cwdTable
      ensures Valid() && Model() == old(Model()).(files := old(files)[cwd := Unlink(old(files)[cwd], i)])
    {
      ghost var s' := Model().(files := files[cwd := Unlink(files[cwd], i)]);
      UnlinkEntry(node, off, i);
      assert Model() == s';
      LoadCwdTable();
      FreeFile(id);
    }

    // ---------- formatting ----------

    method ResetDisk()
      requires disk.Length == DISK_SIZE
      modifies disk, `inodes
      ensures disk[..] == Zeros(DISK_SIZE)
      ensures inodes == seq(INUM, i => ZERO_NODE)
    {
      var i := 0;
      while i < DISK_SIZE
        invariant 0 <= i <= DISK_SIZE
        invariant forall a :: 0 <= a < i ==> disk[a] == 0
      {
        disk[i] := 0;
        i := i + 1;
      }
      inodes := seq(INUM, k => ZERO_NODE);
    }

    method InitSuper()
      requires disk.Length == DISK_SIZE
      modifies disk
      ensures disk[..] == Patch(old(disk[..]), 0, MAGIC)
    {
      DWrite(0, MAGIC);
    }

    /** Wipes the disk and makes the root directory, inode 0, its own parent. */
    method Mkfs() returns (rootId: int)
      requires disk.Length == DISK_SIZE && fdMap == map[] && fdCnt >= -1
      modifies disk, this
      ensures Valid() && rootId == ROOT
      ensures Model() == Formatted(old(fdCnt))
    {
      ResetDisk();
      InitSuper();
      files, owner, icnt := [], [], 0;
      RepWiped(disk[..]);
      assert Nodes() == [];
      cwd := 0;
      rootId := NewDir();
      cwd := rootId;
      assert files == Formatted(fdCnt).files;
      FormattedInv(fdCnt);
      assert Model() == Formatted(fdCnt);
      assert DirOk(files, cwd);
      LoadCwdTable();
    }

    // ---------- listing the tree ----------

    /** Lists what is below directory `dir`, names in their order, subdirectories in depth; `paths` says
        which path each line is for.  Ids grow on the way down, so this ends. */
    method TreeInner(dir: nat, depth: int) returns (lines: seq<Line>, ghost paths: seq<Path>)
      requires Sound() && FilesOk(files) && IsDir(files, dir)
      ensures Lists(files, dir, depth, lines, paths)
      decreases |files| - dir
    {
      assert DirOk(files, dir);
      var table := LoadDirTable(dir);
      var todo := table.Keys;
      lines, paths := [], [];
      PartStarts(files, dir, depth);
      while todo != {}
        invariant todo <= table.Keys
        invariant ListsPart(files, dir, depth, table.Keys - todo, lines, paths)
        invariant forall m, n :: m in table.Keys - todo && n in todo ==> Less(m, n)
        decreases |todo|
      {
        var name := Least(todo);
        ghost var done := table.Keys - todo;
        todo := todo - {name};
        assert table.Keys - todo == done + {name};
        if name == DOT || name == DOTDOT {
          PartSkips(files, dir, depth, done, name, lines, paths);
        } else {
          var lines1, paths1 := TreeEntry(dir, depth, name, table[name]);
          PartAdds(files, dir, depth, done, name, lines, paths, lines1, paths1);
          lines, paths := lines + lines1, paths + paths1;
        }
      }
      PartEnds(files, dir, depth, table.Keys, lines, paths);
    }

    /** The lines for one name: its own and, for a directory, those of its subtree. */
    method TreeEntry(dir: nat, depth: int, name: Name, id: int) returns (lines: seq<Line>, ghost paths: seq<Path>)
      requires Sound() && FilesOk(files) && Shows(files, dir, name) && Child(files, dir, name) == id
      ensures Added(files, dir, depth, name, lines, paths)
      decreases |files| - dir, 0
    {
      ghost var r := ChildUp(files, dir, name);
      var node := ReadInode(id);
      assert Holds(disk[..], Nodes()[id], files[id]);
      if node.kind == 1 {
        ghost var paths1;
        lines, paths1 := TreeInner(id, depth + 1);
        AddedDir(files, dir, depth, name, lines, paths1);
        lines, paths := [Line(depth, name)] + lines, [[name]] + Prefixed(name, paths1);
      } else {
        AddedFile(files, dir, depth, name);
        lines, paths := [Line(depth, name)], [[name]];
      }
    }

    /** Lists what is below the current directory. */
    method Tree() returns (lines: seq<Line>)
      requires Valid()
      ensures lines == TreeOf(files, cwd)
    {
      ghost var paths;
      lines, paths := TreeInner(cwd, 0);
      OneListing(files, cwd, lines, paths);
    }

    /** The rows of the current directory, in the order of the names in the cached table: kind and size of
        what each stands for. */
    method Ls() returns (rows: seq<Row>)
      requires Valid()
      ensures rows == Rows(files[cwd], files)
    {
      assert DirOk(files, cwd);
      rows := [];
      ghost var names := [];
      var todo := cwdTable.Keys;
      while todo != {}
        invariant todo <= cwdTable.Keys
        invariant Listed(names, rows) && forall n :: n in names <==> n in cwdTable.Keys - todo
        invariant forall i, j :: 0 <= i < j < |names| ==> Less(names[i], names[j])
        invariant forall m, n :: m in names && n in todo ==> Less(m, n)
        decreases |todo|
      {
        var name := Least(todo);
        ghost var r := TableEntry(files, cwd, name);
        var row := RowAt(name, cwdTable[name]);
        ghost var before := names;
        names := Push(names, name);
        rows := Push(rows, row);
        todo := todo - {name};
        forall n
          ensures n in names <==> n in before || n == name
        {
          PushMember(before, name, n);
        }
      }
      KeysAre(cwdTable, names);
    }

    /** Row by row what the names stand for. */
    ghost predicate Listed(names: seq<Name>, rows: seq<Row>)
      reads `files, `cwdTable
    {
      && |rows| == |names|
      && forall i :: 0 <= i < |names| ==> names[i] in cwdTable && rows[i] == RowOf(files, names[i], cwdTable[names[i]])
    }

    method RowAt(name: Name, id: nat) returns (row: Row)
      requires Sound() && id < |files|
      ensures row == RowOf(files, name, id)
    {
      var node := ReadInode(id);
      assert Holds(disk[..], Nodes()[id], files[id]);
      row := Row(name, node.kind == 1, node.size);
    }

    /** The whole file that a name in the cached table stands for. */
    method Cat(name: Name) returns (ok: bool, data: seq<byte>)
      requires Valid() && CanCat(Model(), name)
      ensures DoCat(Model(), name) == if ok then Got(data) else Failed
    {
      if name !in cwdTable {
        return false, [];
      }
      var id := cwdTable[name];
      var node := ReadInode(id);
      SizeOf(node, id);
      data := FetchAt(id, 0, node.size);
      ok := true;
    }

    // ---------- host files ----------

    /** Copies a host file in.  When there is no such host file the opened descriptor stays open. */
    method Import(host: HostFile, path: seq<byte>) returns (ok: bool)
      requires Valid() && CanImport(Model(), host, path)
      modifies disk, `inodes, `owner, `files, `icnt, `cwd, `cwdTable, `fdCnt, `fdMap
      ensures icnt >= old(icnt)
      ensures Valid()
      ensures DoImport(old(Model()), host, path) == (Model(), if ok then Done else Failed)
    {
      var fd := Open(path, WriteFlag);
      if host.Missing? {
        return false;
      }
      var written := Write(fd, host.data);
      Close(fd);
      return true;
    }

    /** Copies a file out, whole. */
    method Export(path: seq<byte>) returns (ok: bool, data: seq<byte>)
      requires Valid() && CanExport(Model(), path)
      modifies disk, `inodes, `owner, `files, `icnt, `cwd, `cwdTable, `fdCnt, `fdMap
      ensures icnt >= old(icnt)
      ensures Valid()
      ensures DoExport(old(Model()), path) == (Model(), if ok then Got(data) else Failed)
    {
      var fd := Open(path, ReadFlag);
      ok, data := false, [];
      if fd != -1 {
        var i := fdMap[fd].inode;
        var node := ReadInode(i);
        SizeOf(node, i);
        data := FetchAt(i, 0, node.size);
        ok := true;
      }
      Close(fd);
    }

    /** What the shell does with a word that is no command: look for a file of that name and copy it out. */
    method Exec(path: seq<byte>) returns (ok: bool, data: seq<byte>)
      requires Valid() && CanOpen(Model(), path, ReadFlag)
      modifies disk, `inodes, `owner, `files, `icnt, `cwd, `cwdTable, `fdCnt, `fdMap
      ensures Valid() && icnt >= old(icnt)
      ensures DoExec(old(Model()), path) == (Model(), if ok then Got(data) else Failed)
    {
      var fd := Open(path, ReadFlag);
      if fd == -1 {
        return false, [];
      }
      Close(fd);
      ok, data := Export(path);
    }

    lemma SizeOf(node: Inode, i: nat)
      requires Sound() && i < |files| && node.Rec() == inodes[i]
      ensures node.size == Machine.Size(files[i])
    {
      assert Holds(disk[..], Nodes()[i], files[i]);
    }

    // ---------- the shell loop ----------

    /** A new session on the disk that this one leaves: every file is there, as it was. */
    method Restart() returns (fs: VSFileSystem)
      requires Valid()
      ensures fresh(fs) && fresh(fs.disk) && fs.Valid()
      ensures fs.Model() == State(files, ROOT, map[], -1)
    {
      fs := new VSFileSystem(disk[..], inodes, files, owner, icnt);
    }

    /** A command that only looks. */
    method Show(c: Cmd) returns (o: Out)
      requires Valid() && Enabled(Model(), c) && (c.Ls? || c.Cat? || c.Tree?)
      ensures Step(Model(), c) == (Model(), o)
    {
      match c
      case Ls => var rows := Ls(); o := Shown(rows);
      case Cat(name) => var ok, data := Cat(name); o := if ok then Got(data) else Failed;
      case Tree => var lines := Tree(); o := Drawn(lines);
    }

    /** A command that copies files in or out. */
    method Copy(c: Cmd) returns (o: Out)
      requires Valid() && Enabled(Model(), c) && (c.Import? || c.Export? || c.Exec?)
      modifies disk, `inodes, `owner, `files, `icnt, `cwd, `cwdTable, `fdCnt, `fdMap
      ensures Valid() && Step(old(Model()), c) == (Model(), o) && icnt >= old(icnt)
    {
      match c
      case Import(host, path) => var ok := Import(host, path); o := if ok then Done else Failed;
      case Export(path) => var ok, data := Export(path); o := if ok then Got(data) else Failed;
      case Exec(path) => var ok, data := Exec(path); o := if ok then Got(data) else Failed;
    }

    /** One command.  Unless it formats, no inode id is unmarked. */
    method Execute(c: Cmd) returns (o: Out)
      requires Valid() && Enabled(Model(), c)
      modifies disk, this
      ensures Valid() && Step(old(Model()), c) == (Model(), o)
      ensures c.Mkfs? || icnt >= old(icnt)
    {
      match c
      case Mkfs => var r := Mkfs(); o := Done;
      case Open(path, flag) => var fd := Open(path, flag); o := if fd == -1 then Failed else Opened(fd);
      case Mkdir(path) => Mkdir(path); o := Done;
      case Cd(path) => var ok := Cd(path); o := if ok then Done else Failed;
      case Seek(fd, off) => var ok := Seek(fd, off); o := if ok then Done else Failed;
      case Write(fd, data) => var ok := Write(fd, data); o := if ok then Done else Failed;
      case Read(fd, len) => var ok, data := Read(fd, len); o := if ok then Got(data) else Failed;
      case Close(fd) => Close(fd); o := Done;
      case Rm(name) => var ok := Rm(name); o := if ok then Done else Failed;
      case Import(host, path) => o := Copy(c);
      case Export(path) => o := Copy(c);
      case Ls => o := Show(c);
      case Cat(name) => o := Show(c);
      case Tree => o := Show(c);
      case Exec(path) => o := Copy(c);
    }

    /** The prompt: commands one after another.  The disk and the tables in memory do what the machine
        does, output for output, and the state between commands is valid throughout.  Unless a command
        formats, bytes of both maps only go from 0 to 1. */
    method Prompt(cmds: seq<Cmd>) returns (outs: seq<Out>)
      requires Valid() && Runs(Model(), cmds)
      modifies disk, this
      ensures Valid() && Run(old(Model()), cmds) == (Model(), outs)
      ensures NoMkfs(cmds) ==> MapsKept(old(disk[..]), disk[..])
    {
      ghost var s, d, nodes, o, marked := Model(), disk[..], Nodes(), owner, icnt;
      outs := [];
      var k := 0;
      assert cmds[..0] == [];
      while k < |cmds|
        invariant 0 <= k <= |cmds| && Valid()
        invariant Runs(s, cmds[..k]) && Run(s, cmds[..k]) == (Model(), outs)
        invariant NoMkfs(cmds) ==> icnt >= marked
      {
        RunNext(s, cmds, k);
        var o := Execute(cmds[k]);
        outs := Push(outs, o);
        k := k + 1;
      }
      assert cmds[..k] == cmds;
      if NoMkfs(cmds) {
        MapsGrew(s, cmds, d, nodes, o, marked, disk[..], Nodes(), owner, icnt);
      }
    }
  }
}
