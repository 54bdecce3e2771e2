/** How the bytes on the disk and the inode records stand for files. */
module Representation {
  import opened Bytes
  import opened Layout
  import opened BlockMap
  import opened BlockIO
  import opened DirLog
  import opened Machine
  import opened Invariants

  /** The blocks of inode `n` hold `bytes`, and zeros from there to the capacity. */
  ghost predicate HoldsBytes(d: seq<byte>, n: Node, bytes: seq<byte>) {
    && n.size == |bytes| <= n.cap
    && Full(d, n) == Pad(bytes, n.cap)
  }

  /** Entries and counter are C ints. */
  predicate Decodable(f: File) {
    f.Dir? ==> 0 <= f.cnt <= |f.log| && forall r :: 0 <= r < |f.log| ==> Sized(f.log[r])
  }

  ghost predicate Holds(d: seq<byte>, n: Node, f: File) {
    && n.kind == (if f.Dir? then 1 else 0)
    && n.cap == f.cap
    && Tight(n)
    && Decodable(f)
    && HoldsBytes(d, n, Contents(f))
  }

  ghost predicate HoldsAll(d: seq<byte>, nodes: seq<Node>, files: seq<File>) {
    && |nodes| == |files|
    && forall i {:trigger Holds(d, nodes[i], files[i])} :: 0 <= i < |files| ==> Holds(d, nodes[i], files[i])
  }

  /** The inode map marks the ids in use.  A creation that fails for want of a data block leaves one
      more marked; from then on no data block is left for another creation. */
  ghost predicate ImapOk(d: seq<byte>, icnt: int, inUse: int, blocks: int) {
    && inUse <= icnt <= INUM
    && MapPrefix(d, IMAP, INUM, icnt)
    && (inUse < icnt ==> blocks == DNUM)
  }

  /** "Very Simple File System" */
  const MAGIC: seq<byte> := [86, 101, 114, 121, 32, 83, 105, 109, 112, 108, 101, 32,
                             70, 105, 108, 101, 32, 83, 121, 115, 116, 101, 109]

  /** The super block starts with the magic string. */
  ghost predicate Super(d: seq<byte>) {
    |MAGIC| <= |d| && forall a :: 0 <= a < |MAGIC| ==> d[a] == MAGIC[a]
  }

  ghost predicate Rep(d: seq<byte>, nodes: seq<Node>, owner: seq<Slot>, icnt: int, files: seq<File>) {
    && Phys(d, nodes, owner)
    && HoldsAll(d, nodes, files)
    && ImapOk(d, icnt, |files|, |owner|)
    && Super(d)
  }

  /** The blocks handed out are the blocks the files use. */
  lemma {:induction false} OwnedIsUsed(d: seq<byte>, nodes: seq<Node>, files: seq<File>)
    requires Shapes(nodes) && HoldsAll(d, nodes, files)
    ensures SumBlocks(nodes) == Used(files)
  {
    if |files| > 0 {
      var m := |files| - 1;
      assert Holds(d, nodes[m], files[m]) && NodeShape(nodes[m]);
      OneOwnedIsUsed(d, nodes[m], files[m]);
      forall i | 0 <= i < m
        ensures Holds(d, nodes[..m][i], files[..m][i]) && NodeShape(nodes[..m][i])
      {
        assert Holds(d, nodes[i], files[i]) && NodeShape(nodes[i]);
      }
      OwnedIsUsed(d, nodes[..m], files[..m]);
    }
  }

  lemma OneOwnedIsUsed(d: seq<byte>, n: Node, f: File)
    requires Holds(d, n, f) && NodeShape(n)
    ensures NodeBlocks(n) == BlocksFor(f.cap)
  {
  }

  /** Only the file of inode `i`, whose record is now `n'`, has changed; blocks were only added. */
  ghost predicate OnlyFile(d: seq<byte>, nodes: seq<Node>, owner: seq<Slot>, d': seq<byte>, n': Node,
                           owner': seq<Slot>, i: int)
    requires 0 <= i < |nodes|
  {
    && Phys(d', nodes[i := n'], owner')
    && Tight(n')
    && OthersSame(d, d', nodes, i)
    && owner <= owner'
    && |d'| == |d|
    && (forall a :: 0 <= a < DMAP && a < |d| ==> d'[a] == d[a])
  }

  lemma OnlyFileTwice(d: seq<byte>, nodes: seq<Node>, owner: seq<Slot>, d1: seq<byte>, n1: Node, owner1: seq<Slot>,
                      d2: seq<byte>, n2: Node, owner2: seq<Slot>, i: int)
    requires 0 <= i < |nodes|
    requires OnlyFile(d, nodes, owner, d1, n1, owner1, i)
    requires OnlyFile(d1, nodes[i := n1], owner1, d2, n2, owner2, i)
    ensures OnlyFile(d, nodes, owner, d2, n2, owner2, i)
  {
    OthersSameSwap(d1, d2, nodes, i, n1);
    OthersSameTwice(d, d1, d2, nodes, i);
    assert nodes[i := n1][i := n2] == nodes[i := n2];
  }

  /** A write together with the size update that follows it. */
  ghost predicate Stored(d: seq<byte>, nodes: seq<Node>, owner: seq<Slot>, bytes: seq<byte>,
                         d': seq<byte>, n': Node, owner': seq<Slot>, i: int, off: nat, src: seq<byte>)
    requires 0 <= i < |nodes| && nodes[i].cap >= 0
  {
    && OnlyFile(d, nodes, owner, d', n', owner', i)
    && HoldsBytes(d', n', Splice(bytes, off, src))
    && n' == nodes[i].(cap := GrowCap(nodes[i].cap, WriteEnd(off, |src|)), addr1 := n'.addr1, size := n'.size)
    && (nodes[i].addr1 != -1 ==> n'.addr1 == nodes[i].addr1)
    && |owner'| == |owner| + NewBlocks(nodes[i].cap, WriteEnd(off, |src|))
  }

  lemma WrittenStored(d: seq<byte>, nodes: seq<Node>, owner: seq<Slot>, i: int, off: int, src: seq<byte>,
                      bytes: seq<byte>,
                      d': seq<byte>, nodes': seq<Node>, owner': seq<Slot>, n': Node)
    requires Writable(d, nodes, owner, i, off, |src|)
    requires HoldsBytes(d, nodes[i], bytes)
    requires Written(d, nodes, owner, d', nodes', owner', i, off, src)
    requires n' == nodes'[i].(size := if off + |src| <= nodes'[i].size then nodes'[i].size else off + |src|)
    ensures Stored(d, nodes, owner, bytes, d', n', owner', i, off, src)
  {
    SplicePad(bytes, nodes[i].cap, nodes'[i].cap, off, src);
    ResizedPhys(d', nodes', owner', i, n');
    assert nodes'[i := n'] == nodes[i := n'];
    ResizedFull(d', nodes'[i], n');
  }

  /** The size is no part of the block map. */
  lemma ResizedPhys(d: seq<byte>, nodes: seq<Node>, owner: seq<Slot>, i: int, n': Node)
    requires Phys(d, nodes, owner) && 0 <= i < |nodes|
    requires n' == nodes[i].(size := n'.size, kind := n'.kind)
    ensures Phys(d, nodes[i := n'], owner)
  {
    var nodes' := nodes[i := n'];
    forall j, k | 0 <= j < |nodes'| && HasSlot(nodes'[j], k)
      ensures SlotOwned(d, nodes'[j], j, k, owner)
    {
      assert HasSlot(nodes[j], k);
      assert SlotOwned(d, nodes[j], j, k, owner);
    }
    forall b | 0 <= b < |owner|
      ensures BlockOwned(d, nodes', owner[b], b)
    {
      assert BlockOwned(d, nodes, owner[b], b);
    }
    forall j | 0 <= j < |nodes'|
      ensures NodeShape(nodes'[j])
    {
      assert NodeShape(nodes[j]);
    }
    SumUpdate(nodes, i, n');
  }

  lemma ResizedFull(d: seq<byte>, n: Node, n': Node)
    requires n' == n.(size := n'.size, kind := n'.kind)
    ensures Full(d, n') == Full(d, n)
  {
    if n.cap >= 0 {
      forall o | 0 <= o < n.cap
        ensures Full(d, n')[o] == Full(d, n)[o]
      {
        FirstBytesAt(d, n, n.cap, o);
        FirstBytesAt(d, n', n.cap, o);
      }
    }
  }

  /** Blocks were only added, all of them for inode `i`. */
  ghost predicate Gained(owner: seq<Slot>, owner': seq<Slot>, i: int) {
    owner <= owner' && forall b :: |owner| <= b < |owner'| ==> owner'[b].inode == i
  }

  /** A change that only concerns one file adds blocks for that file only. */
  lemma OnlyFileGained(d: seq<byte>, nodes: seq<Node>, owner: seq<Slot>, d': seq<byte>, n': Node, owner': seq<Slot>,
                       i: int)
    requires Phys(d, nodes, owner) && 0 <= i < |nodes|
    requires OnlyFile(d, nodes, owner, d', n', owner', i)
    ensures Gained(owner, owner', i)
  {
    forall b | |owner| <= b < |owner'|
      ensures owner'[b].inode == i
    {
      var s, nodes' := owner'[b], nodes[i := n'];
      assert BlockOwned(d', nodes', s, b);
      if s.inode != i {
        assert SameFile(d, d', nodes[s.inode]);
        OwnedBlock(d, nodes, owner, s, b);
        assert false;
      }
    }
  }

  lemma OwnedBlock(d: seq<byte>, nodes: seq<Node>, owner: seq<Slot>, s: Slot, b: nat)
    requires Phys(d, nodes, owner) && BlockOwned(d, nodes, s, b)
    ensures b < |owner| && owner[b] == s
  {
    assert SlotOwned(d, nodes[s.inode], s.inode, s.pos, owner);
  }

  /** Replacing one file: the others are the same, and the new one is held. */
  lemma RepReplace(d: seq<byte>, nodes: seq<Node>, owner: seq<Slot>, icnt: int, files: seq<File>,
                   d': seq<byte>, n': Node, owner': seq<Slot>, i: int, f': File)
    requires Rep(d, nodes, owner, icnt, files) && 0 <= i < |files|
    requires OnlyFile(d, nodes, owner, d', n', owner', i)
    requires Holds(d', n', f')
    ensures Rep(d', nodes[i := n'], owner', icnt, files[i := f'])
    ensures Gained(owner, owner', i)
  {
    OnlyFileGained(d, nodes, owner, d', n', owner', i);
    var nodes', files' := nodes[i := n'], files[i := f'];
    forall j | 0 <= j < |files'|
      ensures Holds(d', nodes'[j], files'[j])
    {
      if j != i {
        assert Holds(d, nodes[j], files[j]);
        assert SameFile(d, d', nodes[j]);
      }
    }
  }

  /** Room for a longer write is room for a shorter one, and what the shorter one leaves is enough. */
  lemma EndFitsEarlier(cap: nat, e: int, end: int, used: int)
    requires EndFits(cap, end, used) && e <= end
    ensures EndFits(cap, e, used) && EndFits(GrowCap(cap, e), end, used + NewBlocks(cap, e))
  {
    GrowCapTwice(cap, e, end);
  }

  // ---------- directory files ----------

  lemma SpliceCounter(c: int, log: seq<Entry>, c': int)
    ensures Splice(EncodeDir(c, log), 0, IntBytes(c')) == EncodeDir(c', log)
  {
  }

  lemma SpliceEnd(bytes: seq<byte>, src: seq<byte>)
    ensures Splice(bytes, |bytes|, src) == bytes + src
  {
  }

  lemma SpliceInside(bytes: seq<byte>, off: nat, src: seq<byte>)
    requires off + |src| <= |bytes|
    ensures Splice(bytes, off, src) == Patch(bytes, off, src)
  {
  }

  /** Three writes at the end append the image of an entry. */
  lemma EncodeAppend(c: int, log: seq<Entry>, e: Entry)
    ensures EncodeDir(c, Push(log, e)) == EncodeDir(c, log) + IntBytes(e.id) + IntBytes(|e.name|) + e.name
  {
    PushFront(log, e);
    assert EncodeLog(Push(log, e)) == EncodeLog(log) + EncodeEntry(e);
  }

  lemma {:induction false} LogLength(log: seq<Entry>)
    ensures LogSize(log) >= 8 * |log|
  {
    if |log| > 0 {
      LogLength(log[..|log| - 1]);
    }
  }

  /** The int at the start of a file is read at the address of its first block. */
  lemma FirstInt(d: seq<byte>, nodes: seq<Node>, owner: seq<Slot>, i: int, bytes: seq<byte>, v: int)
    requires Phys(d, nodes, owner) && 0 <= i < |nodes| && HoldsBytes(d, nodes[i], bytes)
    requires |bytes| >= 4 && Chunk(bytes, 0, 4) == IntBytes(v) && Int32(v)
    ensures 0 <= nodes[i].addr0 && nodes[i].addr0 + 4 <= |d|
    ensures IntAt(d, nodes[i].addr0) == v
  {
    assert NodeShape(nodes[i]);
    ReadHere(d, nodes, owner, i, 0, 4);
    ChunkPad(bytes, nodes[i].cap, 0, 4);
    ChunkInt(d, nodes[i].addr0, v);
  }

  lemma CounterOf(d: seq<byte>, nodes: seq<Node>, owner: seq<Slot>, i: int, c: int, log: seq<Entry>)
    requires Phys(d, nodes, owner) && 0 <= i < |nodes| && Int32(c)
    requires HoldsBytes(d, nodes[i], EncodeDir(c, log))
    ensures 0 <= nodes[i].addr0 && nodes[i].addr0 + 4 <= |d|
    ensures IntAt(d, nodes[i].addr0) == c
  {
    CounterBytes(c, log);
    FirstInt(d, nodes, owner, i, EncodeDir(c, log), c);
  }

  /** A directory's counter is read at the address of its first block. */
  lemma CounterAt(d: seq<byte>, nodes: seq<Node>, owner: seq<Slot>, i: int, f: File)
    requires Phys(d, nodes, owner) && 0 <= i < |nodes| && Holds(d, nodes[i], f) && f.Dir?
    ensures 0 <= nodes[i].addr0 && nodes[i].addr0 + 4 <= |d|
    ensures IntAt(d, nodes[i].addr0) == f.cnt
    ensures Int32(f.cnt + 1) && Int32(f.cnt - 1)
  {
    assert NodeShape(nodes[i]);
    LogLength(f.log);
    CounterOf(d, nodes, owner, i, f.cnt, f.log);
  }

  lemma CounterFits(d: seq<byte>, nodes: seq<Node>, owner: seq<Slot>, icnt: int, files: seq<File>, i: int)
    requires Rep(d, nodes, owner, icnt, files) && 0 <= i < |files| && files[i].Dir?
    ensures Int32(files[i].cnt) && nodes[i].cap >= 0 && Tight(nodes[i])
  {
    assert Holds(d, nodes[i], files[i]);
    assert NodeShape(nodes[i]);
    CounterAt(d, nodes, owner, i, files[i]);
  }

  /** Overwriting the int at the start of a file. */
  lemma FirstIntStored(d: seq<byte>, nodes: seq<Node>, owner: seq<Slot>, i: int, bytes: seq<byte>, v: int,
                       d': seq<byte>)
    requires Phys(d, nodes, owner) && 0 <= i < |nodes| && Tight(nodes[i]) && HoldsBytes(d, nodes[i], bytes)
    requires |bytes| >= 4 && 0 <= nodes[i].addr0 && nodes[i].addr0 + 4 <= |d|
    requires d' == Patch(d, nodes[i].addr0, IntBytes(v))
    ensures Stored(d, nodes, owner, bytes, d', nodes[i], owner, i, 0, IntBytes(v))
  {
    assert NodeShape(nodes[i]);
    WrittenHere(d, nodes, owner, i, 0, IntBytes(v), d');
    WrittenStored(d, nodes, owner, i, 0, IntBytes(v), bytes, d', nodes, owner, nodes[i]);
    assert nodes[i := nodes[i]] == nodes;
  }

  /** Three stores in a row change only the one file. */
  lemma StoredThrice(d: seq<byte>, nodes: seq<Node>, owner: seq<Slot>, i: int, b: seq<byte>, b1: seq<byte>,
                     b2: seq<byte>,
                     s0: seq<byte>, s1: seq<byte>, s2: seq<byte>,
                     d1: seq<byte>, n1: Node, o1: seq<Slot>, d2: seq<byte>, n2: Node, o2: seq<Slot>,
                     d3: seq<byte>, n3: Node, o3: seq<Slot>)
    requires 0 <= i < |nodes| && nodes[i].cap >= 0
    requires Stored(d, nodes, owner, b, d1, n1, o1, i, |b|, s0)
    requires n1.cap >= 0 && Stored(d1, nodes[i := n1], o1, b1, d2, n2, o2, i, |b1|, s1)
    requires n2.cap >= 0 && Stored(d2, nodes[i := n2], o2, b2, d3, n3, o3, i, |b2|, s2)
    ensures OnlyFile(d, nodes, owner, d3, n3, o3, i)
    ensures HoldsBytes(d3, n3, Splice(b2, |b2|, s2))
    ensures n3.kind == nodes[i].kind
    ensures var c1 := GrowCap(nodes[i].cap, WriteEnd(|b|, |s0|)); var c2 := GrowCap(c1, WriteEnd(|b1|, |s1|));
      && n3.cap == GrowCap(c2, WriteEnd(|b2|, |s2|))
      && |o3| == |owner| + NewBlocks(nodes[i].cap, WriteEnd(|b|, |s0|))
                 + NewBlocks(c1, WriteEnd(|b1|, |s1|)) + NewBlocks(c2, WriteEnd(|b2|, |s2|))
  {
    assert nodes[i := n1][i := n2] == nodes[i := n2];
    OnlyFileTwice(d, nodes, owner, d1, n1, o1, d2, n2, o2, i);
    OnlyFileTwice(d, nodes, owner, d2, n2, o2, d3, n3, o3, i);
  }

  /** The images a directory file goes through while an entry is appended. */
  lemma AppendedImage(f: File, id: int, name: Name, b: seq<byte>, b1: seq<byte>, b2: seq<byte>)
    requires f.Dir? && b == Contents(f) && b1 == b + IntBytes(id) && b2 == b1 + IntBytes(|name|)
    ensures |b| == Size(f) && |b1| == |b| + 4 && |b2| == |b| + 8
    ensures Splice(b2, |b2|, name) == EncodeDir(f.cnt, Push(f.log, Entry(id, name)))
  {
    SpliceEnd(b2, name);
    EncodeAppend(f.cnt, f.log, Entry(id, name));
  }

  /** The three writes of an entry, put together; `image` is the final one. */
  lemma EntryStored(d: seq<byte>, nodes: seq<Node>, owner: seq<Slot>, i: int, f: File, id: int, name: Name,
                    b: seq<byte>, b1: seq<byte>, b2: seq<byte>, image: seq<byte>,
                    d1: seq<byte>, n1: Node, o1: seq<Slot>, d2: seq<byte>, n2: Node, o2: seq<Slot>,
                    d3: seq<byte>, n3: Node, o3: seq<Slot>)
    requires 0 <= i < |nodes| && nodes[i].cap == f.cap && f.Dir? && nodes[i].kind == 1
    requires |b| == Size(f) && |b1| == |b| + 4 && |b2| == |b| + 8 && image == Splice(b2, |b2|, name)
    requires Stored(d, nodes, owner, b, d1, n1, o1, i, |b|, IntBytes(id))
    requires n1.cap >= 0 && Stored(d1, nodes[i := n1], o1, b1, d2, n2, o2, i, |b1|, IntBytes(|name|))
    requires n2.cap >= 0 && Stored(d2, nodes[i := n2], o2, b2, d3, n3, o3, i, |b2|, name)
    ensures OnlyFile(d, nodes, owner, d3, n3, o3, i)
    ensures HoldsBytes(d3, n3, image)
    ensures n3.kind == 1 && n3.cap == GrowCap(f.cap, AppendEnd(f, name))
    ensures |o3| == |owner| + NewBlocks(f.cap, AppendEnd(f, name))
  {
    StoredThrice(d, nodes, owner, i, b, b1, b2, IntBytes(id), IntBytes(|name|), name, d1, n1, o1, d2, n2, o2, d3, n3,
                 o3);
    EntryGrowth(f.cap, |b|, |name|);
  }

  /** Three writes in a row grow a file as one write to their end does, at the same cost. */
  lemma EntryGrowth(cap: nat, size: nat, nlen: nat)
    ensures var c1 := GrowCap(cap, WriteEnd(size, 4));
      var c2 := GrowCap(c1, WriteEnd(size + 4, 4));
      var end := WriteEnd(size + 8, nlen);
      && GrowCap(c2, end) == GrowCap(cap, end)
      && NewBlocks(cap, WriteEnd(size, 4)) + NewBlocks(c1, WriteEnd(size + 4, 4)) + NewBlocks(c2, end)
           == NewBlocks(cap, end)
  {
    GrowCapTwice(cap, WriteEnd(size, 4), WriteEnd(size + 4, 4));
    GrowCapTwice(cap, WriteEnd(size + 4, 4), WriteEnd(size + 8, nlen));
  }

  /** An appended entry and the raised counter: the directory is the appended one. */
  lemma AppendHeld(d: seq<byte>, nodes: seq<Node>, owner: seq<Slot>, i: int, f: File, e: Entry,
                   d3: seq<byte>, n3: Node, o3: seq<Slot>, d4: seq<byte>)
    requires Phys(d, nodes, owner) && 0 <= i < |nodes| && f.Dir? && Holds(d, nodes[i], f) && Sized(e)
    requires OnlyFile(d, nodes, owner, d3, n3, o3, i)
    requires n3.kind == 1 && n3.cap == GrowCap(f.cap, AppendEnd(f, e.name))
    requires OnlyFile(d3, nodes[i := n3], o3, d4, n3, o3, i)
    requires HoldsBytes(d4, n3, EncodeDir(f.cnt + 1, Push(f.log, e)))
    ensures OnlyFile(d, nodes, owner, d4, n3, o3, i)
    ensures Holds(d4, n3, Append(f, e))
  {
    OnlyFileTwice(d, nodes, owner, d3, n3, o3, d4, n3, o3, i);
  }

  /** The same for the whole disk. */
  lemma EntryAdded(d: seq<byte>, nodes: seq<Node>, owner: seq<Slot>, icnt: int, files: seq<File>, i: int, e: Entry,
                   d3: seq<byte>, n3: Node, o3: seq<Slot>, d4: seq<byte>)
    requires Rep(d, nodes, owner, icnt, files) && 0 <= i < |files| && files[i].Dir? && Sized(e)
    requires OnlyFile(d, nodes, owner, d3, n3, o3, i) && n3.cap >= 0
    requires n3.kind == 1 && n3.cap == GrowCap(files[i].cap, AppendEnd(files[i], e.name))
    requires OnlyFile(d3, nodes[i := n3], o3, d4, n3, o3, i)
    requires HoldsBytes(d4, n3, EncodeDir(files[i].cnt + 1, Push(files[i].log, e)))
    ensures Rep(d4, nodes[i := n3], o3, icnt, files[i := Append(files[i], e)])
    ensures Gained(owner, o3, i)
  {
    assert Holds(d, nodes[i], files[i]);
    AppendHeld(d, nodes, owner, i, files[i], e, d3, n3, o3, d4);
    RepReplace(d, nodes, owner, icnt, files, d4, n3, o3, i, Append(files[i], e));
  }

  /** A read inside the file fills a buffer of that length with the bytes there. */
  lemma ReadInside(d: seq<byte>, n: Node, bytes: seq<byte>, off: nat, len: nat, b: seq<byte>, b': seq<byte>,
                   got: seq<byte>)
    requires HoldsBytes(d, n, bytes) && off + len <= |bytes| && |b| == len && n.size >= 0
    requires Delivered(Full(d, n), n.size, off, len, b, 0, b', got)
    ensures b' == Chunk(bytes, off, len)
  {
    if off < |bytes| {
      assert off + len <= RoundUp(n.size);
      ChunkPad(bytes, n.cap, off, len);
    }
  }

  /** What a read delivers, in terms of the file. */
  lemma DeliveredFile(d: seq<byte>, nodes: seq<Node>, owner: seq<Slot>, i: int, f: File, off: nat, len: nat,
                      b: seq<byte>, b': seq<byte>, got: seq<byte>)
    requires Phys(d, nodes, owner) && 0 <= i < |nodes| && Holds(d, nodes[i], f) && nodes[i].size >= 0
    requires Delivered(Full(d, nodes[i]), nodes[i].size, off, len, b, 0, b', got)
    ensures ReadCount(nodes[i].size, off, len) <= |b'|
    ensures b'[..ReadCount(nodes[i].size, off, len)] == ReadFile(f, off, len)
  {
    assert NodeShape(nodes[i]);
    ReadCountFits(nodes[i].size, nodes[i].cap, off, len);
  }

  // ---------- removing entries ----------

  /** Overwriting the id of a raw entry leaves the inode record as it is. */
  lemma EntryInside(d: seq<byte>, nodes: seq<Node>, owner: seq<Slot>, i: int, f: File, r: nat, off: int)
    requires Phys(d, nodes, owner) && 0 <= i < |nodes| && Holds(d, nodes[i], f)
    requires f.Dir? && r < |f.log| && off == EntryOffset(f.log, r)
    ensures 0 <= off && off + 4 <= nodes[i].size && WriteEnd(off, 4) <= nodes[i].cap <= CAP1
    ensures |owner| <= DNUM && Writable(d, nodes, owner, i, off, 4)
  {
    assert NodeShape(nodes[i]);
    EntryBytes(f.cnt, f.log, r);
  }

  lemma IdOverwritten(d: seq<byte>, nodes: seq<Node>, owner: seq<Slot>, i: int, f: File, r: nat, off: nat,
                      d1: seq<byte>, n1: Node, owner1: seq<Slot>)
    requires Phys(d, nodes, owner) && 0 <= i < |nodes| && Holds(d, nodes[i], f) && nodes[i].cap >= 0
    requires f.Dir? && r < |f.log| && off == EntryOffset(f.log, r) && WriteEnd(off, 4) <= nodes[i].cap
    requires Stored(d, nodes, owner, Contents(f), d1, n1, owner1, i, off, IntBytes(DELETED))
    ensures n1 == nodes[i] && owner1 == owner
    ensures HoldsBytes(d1, n1, EncodeDir(f.cnt, Unlink(f, r).log))
  {
    EntryBytes(f.cnt, f.log, r);
    DeleteBytes(f.cnt, f.log, r);
    SpliceInside(Contents(f), off, IntBytes(DELETED));
    assert owner <= owner1 && |owner1| == |owner|;
  }

  /** The overwritten id and the lowered counter: the directory is the unlinked one. */
  lemma UnlinkHeld(d: seq<byte>, nodes: seq<Node>, owner: seq<Slot>, icnt: int, files: seq<File>, i: int, r: nat,
                   n: Node, d1: seq<byte>, d2: seq<byte>)
    requires Rep(d, nodes, owner, icnt, files) && 0 <= i < |files| && files[i].Dir? && r < |files[i].log|
    requires n == nodes[i] && n.cap >= 0 && files[i].cnt >= 1
    requires OnlyFile(d, nodes, owner, d1, n, owner, i)
    requires OnlyFile(d1, nodes, owner, d2, n, owner, i)
    requires HoldsBytes(d2, n, EncodeDir(files[i].cnt - 1, Unlink(files[i], r).log))
    ensures Rep(d2, nodes, owner, icnt, files[i := Unlink(files[i], r)])
  {
    var f := files[i];
    assert Holds(d, n, f);
    assert nodes[i := n] == nodes;
    OnlyFileTwice(d, nodes, owner, d1, n, owner, d2, n, owner, i);
    RepReplace(d, nodes, owner, icnt, files, d2, n, owner, i, Unlink(f, r));
  }

  // ---------- creating files ----------

  lemma RepLowWrite(d: seq<byte>, nodes: seq<Node>, owner: seq<Slot>, icnt: int, files: seq<File>, d': seq<byte>,
                    icnt': int)
    requires Rep(d, nodes, owner, icnt, files) && |d'| == |d|
    requires forall a :: DMAP <= a < |d| ==> d'[a] == d[a]
    requires ImapOk(d', icnt', |files|, |owner|) && Super(d')
    ensures Rep(d', nodes, owner, icnt', files)
  {
    LowWrite(d, nodes, owner, d');
    forall j | 0 <= j < |files|
      ensures Holds(d', nodes[j], files[j])
    {
      assert Holds(d, nodes[j], files[j]);
      assert SameFile(d, d', nodes[j]);
    }
  }

  /** Marking the next inode id. */
  lemma ImapNext(d: seq<byte>, icnt: int, d': seq<byte>)
    requires 0 <= icnt < INUM && MapPrefix(d, IMAP, INUM, icnt)
    requires d' == Patch(d, IMAP + icnt, [1])
    ensures MapPrefix(d', IMAP, INUM, icnt + 1)
    ensures forall a :: DMAP <= a < |d| ==> d'[a] == d[a]
  {
  }

  /** A marked inode id and the next data block make an empty file. */
  lemma RepCreate(d: seq<byte>, nodes: seq<Node>, owner: seq<Slot>, icnt: int, files: seq<File>,
                  d1: seq<byte>, d2: seq<byte>, n: Node, owner': seq<Slot>)
    requires Rep(d, nodes, owner, icnt, files) && icnt < INUM && |owner| < DNUM
    requires IMAP + icnt + 1 <= |d| && d1 == Patch(d, IMAP + icnt, [1])
    requires DMAP + |owner| + 1 <= |d1| && d2 == Patch(d1, DMAP + |owner|, [1])
    requires n == Node(0, 0, DSIZE, DataOffset(|owner|), -1, -1)
    requires owner' == owner + [Slot(|files|, 0)]
    ensures icnt == |files|
    ensures Rep(d2, Push(nodes, n), owner', icnt + 1, Push(files, EmptyFile()))
  {
    ImapNext(d, icnt, d1);
    LowWrite(d, nodes, owner, d1);
    GrowInode(d1, nodes, owner, n, d2);
    OthersSameTwice(d, d1, d2, nodes, -1);
    var nodes', files' := Push(nodes, n), Push(files, EmptyFile());
    forall j | 0 <= j < |files'|
      ensures Holds(d2, nodes'[j], files'[j])
    {
      if j < |files| {
        assert Holds(d, nodes[j], files[j]);
        assert SameFile(d, d2, nodes[j]);
      }
    }
  }

  function BareDir(): File {
    Dir(DSIZE, 0, [])
  }

  /** An empty file whose kind and size are set to those of a directory without entries is one. */
  lemma RepBareDir(d: seq<byte>, nodes: seq<Node>, owner: seq<Slot>, icnt: int, files: seq<File>, i: int, n': Node)
    requires Rep(d, nodes, owner, icnt, files) && 0 <= i < |files| && files[i] == EmptyFile()
    requires n' == nodes[i].(kind := 1, size := 4)
    ensures Rep(d, nodes[i := n'], owner, icnt, files[i := BareDir()])
    ensures HoldsBytes(d, n', EncodeDir(0, [])) && Tight(n')
  {
    assert Holds(d, nodes[i], files[i]);
    IntBytesZero();
    ResizedPhys(d, nodes, owner, i, n');
    ResizedFull(d, nodes[i], n');
    OthersSameSelf(d, nodes, i);
    RepReplace(d, nodes, owner, icnt, files, d, n', owner, i, BareDir());
  }

  lemma BareDirStored(d: seq<byte>, nodes: seq<Node>, owner: seq<Slot>, icnt: int, files: seq<File>, i: int,
                      d': seq<byte>)
    requires Rep(d, nodes, owner, icnt, files) && 0 <= i < |files| && files[i] == BareDir()
    requires nodes[i].cap >= 0 && Stored(d, nodes, owner, EncodeDir(0, []), d', nodes[i], owner, i, 0, IntBytes(0))
    ensures Rep(d', nodes, owner, icnt, files)
  {
    SpliceCounter(0, [], 0);
    assert Holds(d, nodes[i], files[i]);
    RepReplace(d, nodes, owner, icnt, files, d', nodes[i], owner, i, BareDir());
    assert nodes[i := nodes[i]] == nodes && files[i := files[i]] == files;
  }

  lemma FirstIntAddress(d: seq<byte>, nodes: seq<Node>, owner: seq<Slot>, i: int)
    requires Phys(d, nodes, owner) && 0 <= i < |nodes|
    ensures 0 <= nodes[i].addr0 && nodes[i].addr0 + 4 <= |d| && nodes[i].cap >= 0
  {
    assert NodeShape(nodes[i]);
    ChunkFits(d, nodes, owner, i, 0, 4);
  }

  /** A directory without entries after its first two are appended. */
  lemma BareDirFilled(id: int, parent: int)
    ensures Append(BareDir(), Entry(id, DOT)) == Dir(DSIZE, 1, [Entry(id, DOT)])
    ensures AppendEnd(BareDir(), DOT) <= DSIZE
    ensures Append(Dir(DSIZE, 1, [Entry(id, DOT)]), Entry(parent, DOTDOT)) == EmptyDir(id, parent)
    ensures AppendEnd(Dir(DSIZE, 1, [Entry(id, DOT)]), DOTDOT) <= DSIZE
  {
    var log := [Entry(id, DOT)];
    assert log[..0] == [];
    assert LogSize(log) == LogSize([]) + 8 + |log[0].name|;
  }

  // ---------- formatting ----------

  /** A wiped disk with only the super block written holds no files. */
  lemma RepWiped(d: seq<byte>)
    requires |d| == DISK_SIZE && Super(d) && forall a :: IMAP <= a < |d| ==> d[a] == 0
    ensures Rep(d, [], [], 0, [])
  {
  }
}
