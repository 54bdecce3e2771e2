/** The disk layout and the mapping from a file offset to a disk address. */
module Layout {

  const KB := 1024
  const MB := 1048576
  const DSIZE := 4096       // bytes in a data block
  const ISIZE := 256        // bytes in an inode slot
  const IMAP := 256 * KB    // section 1: inode byte map
  const DMAP := 512 * KB    // section 2: data byte map
  const IREGION := MB       // section 3: inodes
  const DATA := 5 * MB      // section 4: data blocks
  const DISK_SIZE := 100 * MB
  const INUM := (DATA - IREGION) / ISIZE
  const DNUM := (DISK_SIZE - DATA) / DSIZE
  const CAP0 := DSIZE
  const CAP1 := CAP0 / 4 * CAP0

  /** Disk address of data block `id`. */
  function DataOffset(id: int): int {
    DATA + DSIZE * id
  }

  /** Disk address of inode slot `id`. */
  function InodeOffset(id: int): int {
    IREGION + ISIZE * id
  }

  /** Inode slots lie in their section, apart from one another; the slot that id -1 addresses lies between
      the data map and that section. */
  lemma InodeSlots(i: int, j: int)
    requires 0 <= i < INUM && 0 <= j < INUM
    ensures IREGION <= InodeOffset(i) && InodeOffset(i) + ISIZE <= DATA
    ensures i != j ==> InodeOffset(i) + ISIZE <= InodeOffset(j) || InodeOffset(j) + ISIZE <= InodeOffset(i)
    ensures DMAP + DNUM <= InodeOffset(-1) && InodeOffset(-1) + ISIZE == IREGION
  {
  }

  /** Block id of a disk address; C division truncates towards zero. */
  function DataId(a: int): int {
    if a >= DATA then (a - DATA) / DSIZE else -((DATA - a) / DSIZE)
  }
}

module BlockMap {
  import opened Bytes
  import opened Layout

  /** The inode record kept in an inode slot. */
  datatype Node = Node(kind: int, size: int, cap: int, addr0: int, addr1: int, addr2: int)

  /** The reason a data block is in use: file block `pos` of inode `inode`, or its indirect table. */
  datatype Slot = Slot(inode: int, pos: int)

  /** The position that stands for the indirect table. */
  const TABLE := -1

  predicate HasSlot(n: Node, k: int) {
    if k == TABLE then n.addr1 != -1 else 0 <= k < n.cap / DSIZE
  }

  /** Address of block `k` of an inode, read from the inode or from its indirect table. */
  function SlotAddr(d: seq<byte>, n: Node, k: int): int {
    if k == TABLE then n.addr1
    else if k == 0 then n.addr0
    else IntAt(d, n.addr1 + 4 * (k - 1))
  }

  function Addr(d: seq<byte>, n: Node, o: int): int {
    SlotAddr(d, n, o / DSIZE) + o % DSIZE
  }

  /** Byte `o` of a file's blocks. */
  function ByteAt(d: seq<byte>, n: Node, o: int): byte {
    var a := Addr(d, n, o);
    if 0 <= a < |d| then d[a] else 0
  }

  function FirstBytes(d: seq<byte>, n: Node, c: nat): (r: seq<byte>)
    ensures |r| == c
  {
    if c == 0 then [] else FirstBytes(d, n, c - 1) + [ByteAt(d, n, c - 1)]
  }

  /** All bytes of a file's blocks, in file order: `cap` of them. */
  function Full(d: seq<byte>, n: Node): (r: seq<byte>)
    ensures n.cap >= 0 ==> |r| == n.cap
  {
    if n.cap < 0 then [] else FirstBytes(d, n, n.cap)
  }

  lemma {:induction false} FirstBytesAt(d: seq<byte>, n: Node, c: nat, o: nat)
    requires o < c
    ensures FirstBytes(d, n, c)[o] == ByteAt(d, n, o)
  {
    if o < c - 1 {
      FirstBytesAt(d, n, c - 1, o);
    }
  }

  predicate NodeShape(n: Node) {
    && DSIZE <= n.cap <= CAP1
    && n.cap % DSIZE == 0
    && (n.cap > DSIZE ==> n.addr1 != -1)
    && n.addr2 == -1
  }

  ghost predicate SlotOwned(d: seq<byte>, n: Node, i: int, k: int, owner: seq<Slot>) {
    var a := SlotAddr(d, n, k);
    var b := DataId(a);
    0 <= b < |owner| && a == DataOffset(b) && owner[b] == Slot(i, k)
  }

  ghost predicate BlockOwned(d: seq<byte>, nodes: seq<Node>, s: Slot, b: int) {
    && 0 <= s.inode < |nodes|
    && HasSlot(nodes[s.inode], s.pos)
    && SlotAddr(d, nodes[s.inode], s.pos) == DataOffset(b)
  }

  /** The byte map of `len` bytes at `start` marks exactly the ids below `used`. */
  ghost predicate MapPrefix(d: seq<byte>, start: nat, len: nat, used: int) {
    && start + len <= |d|
    && forall a :: start <= a < start + len ==> d[a] == if a - start < used then 1 else 0
  }

  function NodeBlocks(n: Node): int {
    n.cap / DSIZE + if n.addr1 != -1 then 1 else 0
  }

  function SumBlocks(nodes: seq<Node>): int {
    if |nodes| == 0 then 0 else SumBlocks(nodes[..|nodes| - 1]) + NodeBlocks(nodes[|nodes| - 1])
  }

  ghost predicate Shapes(nodes: seq<Node>) {
    forall i {:trigger NodeShape(nodes[i])} :: 0 <= i < |nodes| ==> NodeShape(nodes[i])
  }

  ghost predicate SlotsOwned(d: seq<byte>, nodes: seq<Node>, owner: seq<Slot>) {
    forall i, k {:trigger SlotOwned(d, nodes[i], i, k, owner)} :: 0 <= i < |nodes| && HasSlot(nodes[i], k) ==>
      SlotOwned(d, nodes[i], i, k, owner)
  }

  ghost predicate BlocksOwned(d: seq<byte>, nodes: seq<Node>, owner: seq<Slot>) {
    forall b {:trigger BlockOwned(d, nodes, owner[b], b)} :: 0 <= b < |owner| ==> BlockOwned(d, nodes, owner[b], b)
  }

  ghost predicate FreeZero(d: seq<byte>, used: int) {
    forall a :: DataOffset(used) <= a < |d| && 0 <= a ==> d[a] == 0
  }

  /** The ownership invariant.  `owner[b]` names the one slot that block `b` serves: every slot of
      every inode points at a block that names it back, so no block has two owners; the data map marks
      exactly the owned blocks, and what follows the map up to the inodes is zero; blocks not yet handed
      out are all zero. */
  ghost predicate Phys(d: seq<byte>, nodes: seq<Node>, owner: seq<Slot>) {
    && |d| == DISK_SIZE
    && |owner| <= DNUM
    && Shapes(nodes)
    && SlotsOwned(d, nodes, owner)
    && BlocksOwned(d, nodes, owner)
    && MapPrefix(d, DMAP, IREGION - DMAP, |owner|)
    && FreeZero(d, |owner|)
    && |owner| == SumBlocks(nodes)
  }

  /** A file as the disk shows it is the same in `d` and `d'`: block list and bytes. */
  ghost predicate SameFile(d: seq<byte>, d': seq<byte>, n: Node) {
    && (forall k :: HasSlot(n, k) ==> SlotAddr(d', n, k) == SlotAddr(d, n, k))
    && Full(d', n) == Full(d, n)
  }

  /** Every file except that of inode `i` is the same in `d` and `d'`. */
  ghost predicate OthersSame(d: seq<byte>, d': seq<byte>, nodes: seq<Node>, i: int) {
    forall j {:trigger SameFile(d, d', nodes[j])} :: 0 <= j < |nodes| && j != i ==> SameFile(d, d', nodes[j])
  }

  lemma OthersSameSwap(d: seq<byte>, d': seq<byte>, nodes: seq<Node>, i: int, n: Node)
    requires 0 <= i < |nodes| && OthersSame(d, d', nodes[i := n], i)
    ensures OthersSame(d, d', nodes, i)
  {
    forall j | 0 <= j < |nodes| && j != i
      ensures SameFile(d, d', nodes[j])
    {
      assert SameFile(d, d', nodes[i := n][j]);
    }
  }

  lemma OthersSameSelf(d: seq<byte>, nodes: seq<Node>, i: int)
    ensures OthersSame(d, d, nodes, i)
  {
  }

  lemma OthersSameTwice(d: seq<byte>, d': seq<byte>, d'': seq<byte>, nodes: seq<Node>, i: int)
    requires OthersSame(d, d', nodes, i) && OthersSame(d', d'', nodes, i)
    ensures OthersSame(d, d'', nodes, i)
  {
    forall j | 0 <= j < |nodes| && j != i
      ensures SameFile(d, d'', nodes[j])
    {
      assert SameFile(d, d', nodes[j]) && SameFile(d', d'', nodes[j]);
    }
  }

  lemma SumUpdate(nodes: seq<Node>, i: nat, n: Node)
    requires i < |nodes|
    ensures SumBlocks(nodes[i := n]) == SumBlocks(nodes) - NodeBlocks(nodes[i]) + NodeBlocks(n)
  {
    var m := |nodes| - 1;
    if i == m {
      assert nodes[i := n][..m] == nodes[..m];
    } else {
      assert nodes[i := n][..m] == nodes[..m][i := n];
      SumUpdate(nodes[..m], i, n);
    }
  }

  /** A table word of inode `i` lies inside the block owned as its indirect table. */
  lemma TableWord(d: seq<byte>, nodes: seq<Node>, owner: seq<Slot>, i: int, k: int)
    requires Phys(d, nodes, owner) && 0 <= i < |nodes|
    requires 1 <= k < CAP1 / DSIZE && nodes[i].addr1 != -1
    ensures var b := DataId(nodes[i].addr1);
      && 0 <= b < |owner| && owner[b] == Slot(i, TABLE)
      && DataOffset(b) <= nodes[i].addr1 + 4 * (k - 1) && nodes[i].addr1 + 4 * (k - 1) + 4 <= DataOffset(b + 1)
  {
    assert HasSlot(nodes[i], TABLE);
    assert SlotOwned(d, nodes[i], i, TABLE, owner);
  }

  /** How an offset past the first block is looked up: the word used is one of the first 1023 of the table. */
  lemma TableLookup(d: seq<byte>, nodes: seq<Node>, owner: seq<Slot>, i: int, off: int, k: int, w: int)
    requires Phys(d, nodes, owner) && 0 <= i < |nodes| && CAP0 <= off < nodes[i].cap
    requires k == (off - CAP0) / CAP0 && w == nodes[i].addr1 + k * 4
    ensures 0 <= k <= 1022
    ensures nodes[i].addr1 <= w && DATA <= w && w + 4 <= DISK_SIZE
    ensures Addr(d, nodes[i], off) == IntAt(d, w) + (off - CAP0) % CAP0
  {
    assert NodeShape(nodes[i]);
    assert off / DSIZE == k + 1 && off % DSIZE == (off - CAP0) % CAP0;
    TableWord(d, nodes, owner, i, k + 1);
  }

  /** The table word for the next block of a file that is not yet of full size. */
  lemma NextWord(d: seq<byte>, nodes: seq<Node>, owner: seq<Slot>, i: int, index: int, w: int)
    requires Phys(d, nodes, owner) && 0 <= i < |nodes| && nodes[i].addr1 != -1 && nodes[i].cap < CAP1
    requires index == (nodes[i].cap - 1 * DSIZE) / DSIZE && w == nodes[i].addr1 + index * 4
    ensures DATA <= w && w + 4 <= DISK_SIZE
    ensures nodes[i].cap == DSIZE * (index + 1)
  {
    assert NodeShape(nodes[i]);
    TableWord(d, nodes, owner, i, index + 1);
  }

  /** A change that spares the indirect table of inode `i` leaves its block list alone. */
  lemma SlotFrame(d: seq<byte>, d': seq<byte>, nodes: seq<Node>, owner: seq<Slot>, i: int, k: int)
    requires Phys(d, nodes, owner) && 0 <= i < |nodes| && HasSlot(nodes[i], k)
    requires |d'| == |d|
    requires forall a, b :: 0 <= b < |owner| && owner[b] == Slot(i, TABLE) && DataOffset(b) <= a < DataOffset(b + 1)
               ==> d'[a] == d[a]
    ensures SlotAddr(d', nodes[i], k) == SlotAddr(d, nodes[i], k)
  {
    if k >= 1 {
      assert NodeShape(nodes[i]);
      TableWord(d, nodes, owner, i, k);
      IntAtFrame(d, d', nodes[i].addr1 + 4 * (k - 1));
    }
  }

  /** Address of byte `o` of a file: inside the block that owns it, at the same place in that block. */
  lemma AddrInBlock(d: seq<byte>, nodes: seq<Node>, owner: seq<Slot>, i: int, o: int)
    requires Phys(d, nodes, owner) && 0 <= i < |nodes| && 0 <= o < nodes[i].cap
    ensures var b := DataId(SlotAddr(d, nodes[i], o / DSIZE));
      && 0 <= b < |owner| && owner[b] == Slot(i, o / DSIZE)
      && Addr(d, nodes[i], o) == DataOffset(b) + o % DSIZE
    ensures DATA <= Addr(d, nodes[i], o) < DISK_SIZE
  {
    assert NodeShape(nodes[i]);
    assert HasSlot(nodes[i], o / DSIZE);
    assert SlotOwned(d, nodes[i], i, o / DSIZE, owner);
  }

  /** Two file offsets share an address only when they are the same offset of the same inode. */
  lemma AddrInjective(d: seq<byte>, nodes: seq<Node>, owner: seq<Slot>, i: int, o: int, j: int, p: int)
    requires Phys(d, nodes, owner)
    requires 0 <= i < |nodes| && 0 <= o < nodes[i].cap
    requires 0 <= j < |nodes| && 0 <= p < nodes[j].cap
    requires Addr(d, nodes[i], o) == Addr(d, nodes[j], p)
    ensures i == j && o == p
  {
    AddrInBlock(d, nodes, owner, i, o);
    AddrInBlock(d, nodes, owner, j, p);
  }

  /** No file byte lies in any inode's indirect table. */
  lemma AddrMissesTables(d: seq<byte>, nodes: seq<Node>, owner: seq<Slot>, i: int, o: int, j: int)
    requires Phys(d, nodes, owner)
    requires 0 <= i < |nodes| && 0 <= o < nodes[i].cap
    requires 0 <= j < |nodes| && nodes[j].addr1 != -1
    ensures !(nodes[j].addr1 <= Addr(d, nodes[i], o) < nodes[j].addr1 + DSIZE)
  {
    AddrInBlock(d, nodes, owner, i, o);
    assert HasSlot(nodes[j], TABLE);
    assert SlotOwned(d, nodes[j], j, TABLE, owner);
  }

  /** Byte `o` of a file, as a disk byte. */
  lemma FullByte(d: seq<byte>, nodes: seq<Node>, owner: seq<Slot>, i: int, o: int)
    requires Phys(d, nodes, owner) && 0 <= i < |nodes| && 0 <= o < nodes[i].cap
    ensures 0 <= Addr(d, nodes[i], o) < |d| && Full(d, nodes[i])[o] == d[Addr(d, nodes[i], o)]
  {
    AddrInBlock(d, nodes, owner, i, o);
    FirstBytesAt(d, nodes[i], nodes[i].cap, o);
  }

  lemma ChunkFits(d: seq<byte>, nodes: seq<Node>, owner: seq<Slot>, i: int, o: int, len: nat)
    requires Phys(d, nodes, owner) && 0 <= i < |nodes| && 0 <= o < nodes[i].cap
    requires o % DSIZE + len <= DSIZE
    ensures DATA <= Addr(d, nodes[i], o) && Addr(d, nodes[i], o) + len <= DataOffset(|owner|) <= |d|
    ensures o + len <= nodes[i].cap
  {
    AddrInBlock(d, nodes, owner, i, o);
    assert NodeShape(nodes[i]);
  }

  lemma WriteKeepsSlots(d: seq<byte>, nodes: seq<Node>, owner: seq<Slot>, i: int, o: int, chunk: seq<byte>,
                        d': seq<byte>)
    requires Phys(d, nodes, owner) && 0 <= i < |nodes| && 0 <= o < nodes[i].cap
    requires o % DSIZE + |chunk| <= DSIZE
    requires 0 <= Addr(d, nodes[i], o) && Addr(d, nodes[i], o) + |chunk| <= |d|
    requires d' == Patch(d, Addr(d, nodes[i], o), chunk)
    ensures forall j, k :: 0 <= j < |nodes| && HasSlot(nodes[j], k) ==>
        SlotAddr(d', nodes[j], k) == SlotAddr(d, nodes[j], k)
    ensures Phys(d', nodes, owner)
  {
    AddrInBlock(d, nodes, owner, i, o);
    ChunkFits(d, nodes, owner, i, o, |chunk|);
    forall j, k | 0 <= j < |nodes| && HasSlot(nodes[j], k)
      ensures SlotAddr(d', nodes[j], k) == SlotAddr(d, nodes[j], k)
    {
      SlotFrame(d, d', nodes, owner, j, k);
    }
    PhysFrame(d, d', nodes, owner);
  }

  /** Writing a chunk inside one file block changes that stretch of that file and nothing else. */
  lemma WriteInBlock(d: seq<byte>, nodes: seq<Node>, owner: seq<Slot>, i: int, o: int, chunk: seq<byte>, d': seq<byte>)
    requires Phys(d, nodes, owner) && 0 <= i < |nodes| && 0 <= o < nodes[i].cap
    requires o % DSIZE + |chunk| <= DSIZE
    requires 0 <= Addr(d, nodes[i], o) && Addr(d, nodes[i], o) + |chunk| <= |d|
    requires d' == Patch(d, Addr(d, nodes[i], o), chunk)
    ensures o + |chunk| <= nodes[i].cap
    ensures Phys(d', nodes, owner)
    ensures Full(d', nodes[i]) == Patch(Full(d, nodes[i]), o, chunk)
    ensures OthersSame(d, d', nodes, i)
  {
    ChunkFits(d, nodes, owner, i, o, |chunk|);
    WriteKeepsSlots(d, nodes, owner, i, o, chunk, d');
    forall p | 0 <= p < nodes[i].cap
      ensures Full(d', nodes[i])[p] == Patch(Full(d, nodes[i]), o, chunk)[p]
    {
      WrittenByte(d, nodes, owner, i, o, chunk, d', i, p);
    }
    forall j | 0 <= j < |nodes| && j != i
      ensures SameFile(d, d', nodes[j])
    {
      forall p | 0 <= p < nodes[j].cap
        ensures Full(d', nodes[j])[p] == Full(d, nodes[j])[p]
      {
        WrittenByte(d, nodes, owner, i, o, chunk, d', j, p);
      }
    }
  }

  lemma WrittenByte(d: seq<byte>, nodes: seq<Node>, owner: seq<Slot>, i: int, o: int, chunk: seq<byte>, d': seq<byte>,
                    j: int, p: int)
    requires Phys(d, nodes, owner) && 0 <= i < |nodes| && 0 <= o < nodes[i].cap
    requires o % DSIZE + |chunk| <= DSIZE && o + |chunk| <= nodes[i].cap
    requires 0 <= Addr(d, nodes[i], o) && Addr(d, nodes[i], o) + |chunk| <= |d|
    requires d' == Patch(d, Addr(d, nodes[i], o), chunk)
    requires Phys(d', nodes, owner)
    requires 0 <= j < |nodes| && 0 <= p < nodes[j].cap
    requires forall k :: HasSlot(nodes[j], k) ==> SlotAddr(d', nodes[j], k) == SlotAddr(d, nodes[j], k)
    ensures Full(d', nodes[j])[p] == if j == i && o <= p < o + |chunk| then chunk[p - o] else Full(d, nodes[j])[p]
  {
    var a, q := Addr(d, nodes[i], o), Addr(d, nodes[j], p);
    assert Addr(d', nodes[j], p) == q by {
      assert NodeShape(nodes[j]);
      assert HasSlot(nodes[j], p / DSIZE);
    }
    FullByte(d, nodes, owner, j, p);
    FullByte(d', nodes, owner, j, p);
    assert a <= q < a + |chunk| <==> j == i && o <= p < o + |chunk| by {
      SameStretch(d, nodes, owner, i, o, |chunk|, j, p);
    }
    if j == i && o <= p < o + |chunk| {
      SameStretch(d, nodes, owner, i, o, |chunk|, j, p);
    }
  }

  /** A stretch inside one block of a file has as its addresses exactly the addresses of its offsets. */
  lemma SameStretch(d: seq<byte>, nodes: seq<Node>, owner: seq<Slot>, i: int, o: int, len: nat, j: int, p: int)
    requires Phys(d, nodes, owner) && 0 <= i < |nodes| && 0 <= o < nodes[i].cap
    requires o % DSIZE + len <= DSIZE
    requires 0 <= j < |nodes| && 0 <= p < nodes[j].cap
    ensures Addr(d, nodes[i], o) <= Addr(d, nodes[j], p) < Addr(d, nodes[i], o) + len <==> j == i && o <= p < o + len
    ensures j == i && o <= p < o + len ==> Addr(d, nodes[j], p) - Addr(d, nodes[i], o) == p - o
  {
    AddrInBlock(d, nodes, owner, i, o);
    AddrInBlock(d, nodes, owner, j, p);
    assert o == DSIZE * (o / DSIZE) + o % DSIZE;
    assert p == DSIZE * (p / DSIZE) + p % DSIZE;
    if j == i && o <= p < o + len {
      assert p / DSIZE == o / DSIZE;
    }
  }

  /** The invariant depends on the disk only through the block lists, the data map and the free blocks. */
  lemma PhysFrame(d: seq<byte>, d': seq<byte>, nodes: seq<Node>, owner: seq<Slot>)
    requires Phys(d, nodes, owner) && |d'| == |d|
    requires forall j, k :: 0 <= j < |nodes| && HasSlot(nodes[j], k) ==>
        SlotAddr(d', nodes[j], k) == SlotAddr(d, nodes[j], k)
    requires forall a :: DMAP <= a < IREGION ==> d'[a] == d[a]
    requires forall a :: DataOffset(|owner|) <= a < |d| ==> d'[a] == d[a]
    ensures Phys(d', nodes, owner)
  {
    forall j, k | 0 <= j < |nodes| && HasSlot(nodes[j], k)
      ensures SlotOwned(d', nodes[j], j, k, owner)
    {
      assert SlotOwned(d, nodes[j], j, k, owner);
    }
    forall b | 0 <= b < |owner|
      ensures BlockOwned(d', nodes, owner[b], b)
    {
      assert BlockOwned(d, nodes, owner[b], b);
    }
  }

  /** Handing the next block to one new slot `(i, pos)` keeps the invariant. */
  lemma PhysExtend(d: seq<byte>, nodes: seq<Node>, owner: seq<Slot>, d': seq<byte>, nodes': seq<Node>, i: int, pos: int)
    requires Phys(d, nodes, owner) && |owner| < DNUM && |d'| == |d|
    requires 0 <= i < |nodes'| && |nodes| <= |nodes'|
    requires forall j :: 0 <= j < |nodes'| && j != i ==> j < |nodes| && nodes'[j] == nodes[j]
    requires NodeShape(nodes'[i]) && HasSlot(nodes'[i], pos)
    requires SlotAddr(d', nodes'[i], pos) == DataOffset(|owner|)
    requires i < |nodes| ==> forall k :: HasSlot(nodes[i], k) ==> HasSlot(nodes'[i], k)
    requires forall k :: HasSlot(nodes'[i], k) && k != pos ==> i < |nodes| && HasSlot(nodes[i], k)
    requires forall j, k :: 0 <= j < |nodes| && HasSlot(nodes[j], k) ==>
        SlotAddr(d', nodes'[j], k) == SlotAddr(d, nodes[j], k)
    requires forall a :: DMAP <= a < IREGION ==> d'[a] == if a == DMAP + |owner| then 1 else d[a]
    requires forall a :: DataOffset(|owner|) <= a < |d| ==> d'[a] == d[a]
    requires SumBlocks(nodes') == |owner| + 1
    ensures Phys(d', nodes', owner + [Slot(i, pos)])
  {
    var owner' := owner + [Slot(i, pos)];
    forall j, k | 0 <= j < |nodes'| && HasSlot(nodes'[j], k)
      ensures SlotOwned(d', nodes'[j], j, k, owner')
    {
      if !(j == i && k == pos) {
        assert HasSlot(nodes[j], k);
        assert SlotOwned(d, nodes[j], j, k, owner);
      }
    }
    forall b | 0 <= b < |owner'|
      ensures BlockOwned(d', nodes', owner'[b], b)
    {
      if b < |owner| {
        assert BlockOwned(d, nodes, owner[b], b);
      }
    }
    forall j | 0 <= j < |nodes'|
      ensures NodeShape(nodes'[j])
    {
    }
  }

  /** Marking the next block and making it the indirect table of inode `i`. */
  lemma GrowTable(d: seq<byte>, nodes: seq<Node>, owner: seq<Slot>, i: nat, n': Node, d': seq<byte>)
    requires Phys(d, nodes, owner) && |owner| < DNUM && i < |nodes| && nodes[i].addr1 == -1
    requires n' == nodes[i].(addr1 := DataOffset(|owner|))
    requires DMAP + |owner| + 1 <= |d| && d' == Patch(d, DMAP + |owner|, [1])
    ensures Phys(d', nodes[i := n'], owner + [Slot(i, TABLE)])
    ensures Full(d', n') == Full(d, nodes[i])
    ensures OthersSame(d, d', nodes, i)
  {
    var nodes' := nodes[i := n'];
    assert NodeShape(nodes[i]);
    forall j, k | 0 <= j < |nodes| && HasSlot(nodes[j], k)
      ensures SlotAddr(d', nodes'[j], k) == SlotAddr(d, nodes[j], k)
    {
      SlotFrame(d, d', nodes, owner, j, k);
    }
    SumUpdate(nodes, i, n');
    PhysExtend(d, nodes, owner, d', nodes', i, TABLE);
    FullFrame(d, nodes, owner, d', nodes', owner + [Slot(i, TABLE)]);
    assert nodes'[i] == n';
  }

  /** Marking the next block and entering it in the indirect table as the next block of file `i`. */
  lemma GrowFile(d: seq<byte>, nodes: seq<Node>, owner: seq<Slot>, i: nat, n': Node, index: int, w: int,
                 d1: seq<byte>, d': seq<byte>)
    requires Phys(d, nodes, owner) && |owner| < DNUM && i < |nodes| && nodes[i].addr1 != -1 && nodes[i].cap < CAP1
    requires n' == nodes[i].(cap := nodes[i].cap + DSIZE)
    requires nodes[i].cap == DSIZE * (index + 1)
    requires w == nodes[i].addr1 + index * 4 && 0 <= w && w + 4 <= |d|
    requires DMAP + |owner| + 1 <= |d| && d1 == Patch(d, DMAP + |owner|, [1])
    requires d' == Patch(d1, w, IntBytes(DataOffset(|owner|)))
    ensures Phys(d', nodes[i := n'], owner + [Slot(i, index + 1)])
    ensures Full(d', n') == Full(d, nodes[i]) + Zeros(DSIZE)
    ensures OthersSame(d, d', nodes, i)
    ensures forall a :: 0 <= a < DMAP ==> d'[a] == d[a]
  {
    NextWord(d, nodes, owner, i, index, w);
    IntAtPatch(d1, w, DataOffset(|owner|));
    forall a | 0 <= a < |d| && !(w <= a < w + 4)
      ensures d'[a] == if a == DMAP + |owner| then 1 else d[a]
    {
      assert d'[a] == d1[a];
    }
    GrowFileBytes(d, nodes, owner, i, n', d', w);
  }

  lemma GrowFilePhys(d: seq<byte>, nodes: seq<Node>, owner: seq<Slot>, i: nat, n': Node, d': seq<byte>, w: int)
    requires Phys(d, nodes, owner) && |owner| < DNUM && i < |nodes| && nodes[i].addr1 != -1 && nodes[i].cap < CAP1
    requires n' == nodes[i].(cap := nodes[i].cap + DSIZE)
    requires w == nodes[i].addr1 + 4 * (nodes[i].cap / DSIZE - 1) && DATA <= w
    requires |d'| == |d| && IntAt(d', w) == DataOffset(|owner|)
    requires forall a :: 0 <= a < |d| && !(w <= a < w + 4) ==> d'[a] == if a == DMAP + |owner| then 1 else d[a]
    ensures Phys(d', nodes[i := n'], owner + [Slot(i, nodes[i].cap / DSIZE)])
    ensures forall j, k :: 0 <= j < |nodes| && HasSlot(nodes[j], k) ==>
        SlotAddr(d', nodes[i := n'][j], k) == SlotAddr(d, nodes[j], k)
    ensures SlotAddr(d', n', nodes[i].cap / DSIZE) == DataOffset(|owner|)
  {
    var nodes' := nodes[i := n'];
    var m := nodes[i].cap / DSIZE;
    assert NodeShape(nodes[i]);
    TableWord(d, nodes, owner, i, m);
    forall j, k | 0 <= j < |nodes| && HasSlot(nodes[j], k)
      ensures SlotAddr(d', nodes'[j], k) == SlotAddr(d, nodes[j], k)
    {
      TableWriteFrame(d, nodes, owner, i, m, d', j, k);
    }
    SumUpdate(nodes, i, n');
    PhysExtend(d, nodes, owner, d', nodes', i, m);
  }

  lemma GrowFileBytes(d: seq<byte>, nodes: seq<Node>, owner: seq<Slot>, i: nat, n': Node, d': seq<byte>, w: int)
    requires Phys(d, nodes, owner) && |owner| < DNUM && i < |nodes| && nodes[i].addr1 != -1 && nodes[i].cap < CAP1
    requires n' == nodes[i].(cap := nodes[i].cap + DSIZE)
    requires w == nodes[i].addr1 + 4 * (nodes[i].cap / DSIZE - 1) && DATA <= w
    requires |d'| == |d| && IntAt(d', w) == DataOffset(|owner|)
    requires forall a :: 0 <= a < |d| && !(w <= a < w + 4) ==> d'[a] == if a == DMAP + |owner| then 1 else d[a]
    ensures Phys(d', nodes[i := n'], owner + [Slot(i, nodes[i].cap / DSIZE)])
    ensures Full(d', n') == Full(d, nodes[i]) + Zeros(DSIZE)
    ensures OthersSame(d, d', nodes, i)
  {
    var nodes' := nodes[i := n'];
    var m := nodes[i].cap / DSIZE;
    var owner' := owner + [Slot(i, m)];
    GrowFilePhys(d, nodes, owner, i, n', d', w);
    OnlyTableWritten(d, nodes, owner, i, d', w);
    FullFrame(d, nodes, owner, d', nodes', owner');
    GrownBytes(d, nodes, d', nodes', owner', i);
  }

  lemma OnlyTableWritten(d: seq<byte>, nodes: seq<Node>, owner: seq<Slot>, i: nat, d': seq<byte>, w: int)
    requires Phys(d, nodes, owner) && |owner| < DNUM && i < |nodes| && nodes[i].addr1 != -1 && nodes[i].cap < CAP1
    requires w == nodes[i].addr1 + 4 * (nodes[i].cap / DSIZE - 1) && |d'| == |d|
    requires forall a :: 0 <= a < |d| && !(w <= a < w + 4) ==> d'[a] == if a == DMAP + |owner| then 1 else d[a]
    ensures forall b, a :: 0 <= b < |owner| && owner[b].pos != TABLE && DataOffset(b) <= a < DataOffset(b + 1) ==>
        d'[a] == d[a]
    ensures NodeShape(nodes[i]) && FreeZero(d', |owner|)
  {
    assert NodeShape(nodes[i]);
    TableWord(d, nodes, owner, i, nodes[i].cap / DSIZE);
  }

  lemma GrownBytes(d: seq<byte>, nodes: seq<Node>, d': seq<byte>, nodes': seq<Node>, owner': seq<Slot>, i: nat)
    requires Phys(d', nodes', owner') && i < |nodes| <= |nodes'| && |d| == |d'|
    requires 0 < |owner'| && owner'[|owner'| - 1] == Slot(i, nodes[i].cap / DSIZE)
    requires nodes[i].cap >= 0 && nodes[i].cap % DSIZE == 0 && nodes'[i].cap == nodes[i].cap + DSIZE
    requires SlotAddr(d', nodes'[i], nodes[i].cap / DSIZE) == DataOffset(|owner'| - 1)
    requires forall p :: 0 <= p < nodes[i].cap ==> Full(d', nodes'[i])[p] == Full(d, nodes[i])[p]
    requires FreeZero(d', |owner'| - 1)
    ensures Full(d', nodes'[i]) == Full(d, nodes[i]) + Zeros(DSIZE)
  {
    var m := nodes[i].cap / DSIZE;
    forall p | nodes[i].cap <= p < nodes'[i].cap
      ensures Full(d', nodes'[i])[p] == 0
    {
      assert p / DSIZE == m;
      FullByte(d', nodes', owner', i, p);
    }
  }

  /** Writing one table word of inode `i` leaves every other table word alone. */
  lemma TableWriteFrame(d: seq<byte>, nodes: seq<Node>, owner: seq<Slot>, i: nat, m: int, d': seq<byte>, j: int, k: int)
    requires Phys(d, nodes, owner) && |d'| == |d| && i < |nodes| && nodes[i].addr1 != -1
    requires 1 <= m < CAP1 / DSIZE
    requires forall a :: DATA <= a < |d| && !(nodes[i].addr1 + 4 * (m - 1) <= a < nodes[i].addr1 + 4 * m) ==>
        d'[a] == d[a]
    requires 0 <= j < |nodes| && HasSlot(nodes[j], k) && !(j == i && k == m)
    ensures SlotAddr(d', nodes[j], k) == SlotAddr(d, nodes[j], k)
  {
    if k >= 1 {
      WordsApart(d, nodes, owner, i, m, j, k);
      IntAtFrame(d, d', nodes[j].addr1 + 4 * (k - 1));
    }
  }

  lemma WordsApart(d: seq<byte>, nodes: seq<Node>, owner: seq<Slot>, i: int, m: int, j: int, k: int)
    requires Phys(d, nodes, owner) && 0 <= i < |nodes| && 0 <= j < |nodes|
    requires 1 <= m < CAP1 / DSIZE && nodes[i].addr1 != -1
    requires 1 <= k && HasSlot(nodes[j], k) && !(j == i && k == m)
    ensures DATA <= nodes[j].addr1 + 4 * (k - 1)
    ensures || nodes[j].addr1 + 4 * k <= nodes[i].addr1 + 4 * (m - 1)
            || nodes[i].addr1 + 4 * m <= nodes[j].addr1 + 4 * (k - 1)
  {
    assert NodeShape(nodes[j]);
    TableWord(d, nodes, owner, i, m);
    TableWord(d, nodes, owner, j, k);
    var bi, bj := DataId(nodes[i].addr1), DataId(nodes[j].addr1);
    assert HasSlot(nodes[i], TABLE) && HasSlot(nodes[j], TABLE);
    if i == j {
      assert nodes[i].addr1 == nodes[j].addr1;
    } else {
      assert bi != bj;
    }
  }

  /** Bytes of files keep their values when block lists and used data blocks (tables aside) do. */
  lemma FullFrame(d: seq<byte>, nodes: seq<Node>, owner: seq<Slot>, d': seq<byte>, nodes': seq<Node>, owner': seq<Slot>)
    requires Phys(d, nodes, owner) && Phys(d', nodes', owner')
    requires |nodes| <= |nodes'|
    requires forall j :: 0 <= j < |nodes| ==> nodes[j].cap <= nodes'[j].cap
    requires forall j, k :: 0 <= j < |nodes| && HasSlot(nodes[j], k) ==>
        SlotAddr(d', nodes'[j], k) == SlotAddr(d, nodes[j], k)
    requires forall b, a :: 0 <= b < |owner| && owner[b].pos != TABLE && DataOffset(b) <= a < DataOffset(b + 1) ==>
        d'[a] == d[a]
    ensures forall j, p :: 0 <= j < |nodes| && 0 <= p < nodes[j].cap ==> Full(d', nodes'[j])[p] == Full(d, nodes[j])[p]
    ensures forall j :: 0 <= j < |nodes| && nodes'[j].cap == nodes[j].cap ==> Full(d', nodes'[j]) == Full(d, nodes[j])
    ensures forall j :: 0 <= j < |nodes| && nodes'[j] == nodes[j] ==> SameFile(d, d', nodes[j])
  {
    forall j, p | 0 <= j < |nodes| && 0 <= p < nodes[j].cap
      ensures Full(d', nodes'[j])[p] == Full(d, nodes[j])[p]
    {
      assert NodeShape(nodes[j]);
      assert HasSlot(nodes[j], p / DSIZE);
      AddrInBlock(d, nodes, owner, j, p);
      var a := Addr(d, nodes[j], p);
      assert Addr(d', nodes'[j], p) == a;
      var b := DataId(SlotAddr(d, nodes[j], p / DSIZE));
      assert owner[b].pos != TABLE && DataOffset(b) <= a < DataOffset(b + 1);
      assert d'[a] == d[a];
      FullByte(d, nodes, owner, j, p);
      FullByte(d', nodes', owner', j, p);
    }
  }

  /** Marking the next block and making it the direct block of a new inode. */
  lemma GrowInode(d: seq<byte>, nodes: seq<Node>, owner: seq<Slot>, n: Node, d': seq<byte>)
    requires Phys(d, nodes, owner) && |owner| < DNUM
    requires NodeShape(n) && n.cap == DSIZE && n.addr0 == DataOffset(|owner|) && n.addr1 == -1
    requires DMAP + |owner| + 1 <= |d| && d' == Patch(d, DMAP + |owner|, [1])
    ensures Phys(d', Push(nodes, n), owner + [Slot(|nodes|, 0)])
    ensures Full(d', n) == Zeros(DSIZE)
    ensures OthersSame(d, d', nodes, -1)
  {
    var nodes' := Push(nodes, n);
    forall j, k | 0 <= j < |nodes| && HasSlot(nodes[j], k)
      ensures SlotAddr(d', nodes'[j], k) == SlotAddr(d, nodes[j], k)
    {
      assert NodeShape(nodes[j]);
      SlotFrame(d, d', nodes, owner, j, k);
    }
    assert nodes'[..|nodes|] == nodes;
    PhysExtend(d, nodes, owner, d', nodes', |nodes|, 0);
    FullFrame(d, nodes, owner, d', nodes', owner + [Slot(|nodes|, 0)]);
    forall p | 0 <= p < DSIZE
      ensures Full(d', n)[p] == 0
    {
      FullByte(d', nodes', owner + [Slot(|nodes|, 0)], |nodes|, p);
    }
  }

  /** Writing below the data map concerns no file. */
  lemma LowWrite(d: seq<byte>, nodes: seq<Node>, owner: seq<Slot>, d': seq<byte>)
    requires Phys(d, nodes, owner) && |d'| == |d|
    requires forall a :: DMAP <= a < |d| ==> d'[a] == d[a]
    ensures Phys(d', nodes, owner)
    ensures OthersSame(d, d', nodes, -1)
  {
    forall j, k | 0 <= j < |nodes| && HasSlot(nodes[j], k)
      ensures SlotAddr(d', nodes[j], k) == SlotAddr(d, nodes[j], k)
    {
      assert NodeShape(nodes[j]);
      SlotFrame(d, d', nodes, owner, j, k);
    }
    PhysFrame(d, d', nodes, owner);
    FullFrame(d, nodes, owner, d', nodes, owner);
  }

  // ---------- releasing blocks, as the code does it ----------

  /** Setting a byte that is set already changes nothing. */
  lemma PatchOwn(d: seq<byte>, a: nat)
    requires a < |d| && d[a] == 1
    ensures Patch(d, a, [1]) == d
  {
  }

  /** The direct block of an inode is marked. */
  lemma DirectMarked(d: seq<byte>, nodes: seq<Node>, owner: seq<Slot>, i: int)
    requires Phys(d, nodes, owner) && 0 <= i < |nodes|
    ensures var b := DataId(nodes[i].addr0); 0 <= b < DNUM && DMAP + b < |d| && d[DMAP + b] == 1
  {
    assert NodeShape(nodes[i]);
    assert HasSlot(nodes[i], 0);
    assert SlotOwned(d, nodes[i], i, 0, owner);
  }

  /** The release loop adds its counter to the first table entry instead of reading the next one, so
      every address it computes lies in the first block of the table, which is marked. */
  lemma LoopMarked(d: seq<byte>, nodes: seq<Node>, owner: seq<Slot>, i: int, k: int)
    requires Phys(d, nodes, owner) && 0 <= i < |nodes| && nodes[i].cap > DSIZE
    requires 0 <= k < nodes[i].cap / DSIZE - 1
    ensures 0 <= nodes[i].addr1 && nodes[i].addr1 + 4 <= |d|
    ensures var b := DataId(IntAt(d, nodes[i].addr1) + k * 4); 0 <= b < DNUM && DMAP + b < |d| && d[DMAP + b] == 1
  {
    assert NodeShape(nodes[i]);
    TableWord(d, nodes, owner, i, 1);
    assert HasSlot(nodes[i], 1);
    assert SlotOwned(d, nodes[i], i, 1, owner);
    assert SlotAddr(d, nodes[i], 1) == IntAt(d, nodes[i].addr1);
  }
}
