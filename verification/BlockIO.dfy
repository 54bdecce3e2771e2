/** Arithmetic and byte lemmas behind block-by-block writing and reading. */
module BlockIO {
  import opened Bytes
  import opened Layout
  import opened BlockMap
  import opened Machine

  /** Between calls an inode has an indirect table exactly when it has more than one block. */
  predicate Tight(n: Node) {
    n.addr1 == -1 <==> n.cap == DSIZE
  }

  /** A chunk that ends inside a block ends inside the capacity. */
  lemma InsideBlock(cap: int, off: int, len: nat)
    requires 0 <= off < cap && cap % DSIZE == 0 && off % DSIZE + len <= DSIZE
    ensures WriteEnd(off, len) <= cap
  {
  }

  /** A write that leaves its first block goes on at the start of another. */
  lemma AcrossBlock(cap: int, off: int, len: nat, w: int)
    requires 0 <= off < cap && cap % DSIZE == 0 && off % DSIZE + len > DSIZE
    requires w == DSIZE - off % DSIZE
    ensures 0 < w < len && off + w <= cap
    ensures WriteEnd(off + w, len - w) == WriteEnd(off, len)
  {
  }

  /** Overwriting a first part and then the rest is overwriting the whole. */
  lemma PatchPad(full: seq<byte>, cap: nat, off: nat, w: nat, src: seq<byte>)
    requires w <= |src| && off + w <= |full| && off + |src| <= cap && |full| <= cap
    ensures Patch(Pad(Patch(full, off, src[..w]), cap), off + w, src[w..]) == Patch(Pad(full, cap), off, src)
  {
  }

  lemma PadPad(full: seq<byte>, cap: nat)
    requires |full| + DSIZE <= cap
    ensures Pad(full + Zeros(DSIZE), cap) == Pad(full, cap)
  {
  }

  /** A splice of the contents is an overwrite of the padded blocks. */
  lemma SplicePad(data: seq<byte>, cap: nat, cap': nat, off: nat, src: seq<byte>)
    requires |data| <= cap <= cap' && off + |src| <= cap'
    ensures Pad(Splice(data, off, src), cap') == Patch(Pad(Pad(data, cap), cap'), off, src)
  {
  }

  lemma ReadCountFits(size: nat, cap: nat, off: nat, len: nat)
    requires size <= cap && cap % DSIZE == 0
    ensures off < size ==> off + ReadCount(size, off, len) <= cap
  {
  }

  lemma ReadCountHere(size: nat, off: nat, len: nat)
    requires off < size && off % DSIZE + len <= DSIZE
    ensures ReadCount(size, off, len) == if len > size - off then size - off else len
  {
  }

  lemma ReadCountTail(size: nat, off: nat, len: nat, w: int)
    requires off < size && off % DSIZE + len > DSIZE && w == DSIZE - off % DSIZE
    ensures 0 < w < len && ReadCount(size, off, len) == w + ReadCount(size, off + w, len - w)
  {
  }

  /** Reading `len` bytes at `off` delivers `got` and puts it at index `at` of the buffer. */
  ghost predicate Delivered(full: seq<byte>, size: nat, off: nat, len: nat, b: seq<byte>, at: nat, b': seq<byte>,
                            got: seq<byte>) {
    && got == Chunk(full, off, ReadCount(size, off, len))
    && at + |got| <= |b|
    && |got| <= len
    && b' == Patch(b, at, got)
  }

  lemma DeliveredNothing(full: seq<byte>, size: nat, off: nat, len: nat, b: seq<byte>, at: nat)
    requires off >= size && at <= |b|
    ensures Delivered(full, size, off, len, b, at, b, [])
  {
  }

  lemma DeliveredHere(full: seq<byte>, size: nat, off: nat, len: nat, b: seq<byte>, at: nat, b': seq<byte>,
                      got: seq<byte>)
    requires off < size <= |full| && off % DSIZE + len <= DSIZE
    requires at + |got| <= |b| && b' == Patch(b, at, got)
    requires got == Chunk(full, off, if len > size - off then size - off else len)
    ensures Delivered(full, size, off, len, b, at, b', got)
  {
    ReadCountHere(size, off, len);
  }

  /** The rest of the first block of a read, `first`, is in the buffer, which is now `b1`. */
  ghost predicate ReadBegun(full: seq<byte>, size: nat, off: nat, len: nat, w: nat, first: seq<byte>,
                            b: seq<byte>, at: nat, b1: seq<byte>) {
    && size <= |full| && |full| % DSIZE == 0 && at + len <= |b|
    && off < size && off % DSIZE + len > DSIZE && w == DSIZE - off % DSIZE && w <= len
    && off + w <= |full| && first == Chunk(full, off, w) && |first| == w && b1 == Patch(b, at, first)
  }

  /** Reading a first part and then the rest is reading the whole. */
  lemma DeliveredJoin(full: seq<byte>, size: nat, off: nat, len: nat, w: nat, first: seq<byte>, rest: seq<byte>,
                      b: seq<byte>, at: nat, b1: seq<byte>, b2: seq<byte>, got: seq<byte>)
    requires ReadBegun(full, size, off, len, w, first, b, at, b1)
    requires Delivered(full, size, off + w, len - w, b1, at + w, b2, rest)
    requires got == Chunk(full, off, ReadCount(size, off, len))
    ensures Delivered(full, size, off, len, b, at, b2, got)
  {
    ReadCountTail(size, off, len, w);
    ReadCountFits(size, |full|, off, len);
  }

  // ---------- the effect of writeData ----------

  /** Inode `i` may take `len` bytes at `off`: the state is sound, and the file and the disk have room. */
  ghost predicate Writable(d: seq<byte>, nodes: seq<Node>, owner: seq<Slot>, i: int, off: int, len: nat) {
    && Phys(d, nodes, owner)
    && 0 <= i < |nodes| && Tight(nodes[i])
    && 0 <= off && nodes[i].cap >= 0 && EndFits(nodes[i].cap, WriteEnd(off, len), |owner|)
  }

  /** `src` has been written at offset `off` of inode `i`: its blocks, zero filled as far as it grew,
      carry `src` there; it grew to just the capacity needed, at just that cost in blocks; blocks
      handed out before keep their owners; every other file, the inode map and the super block are
      untouched. */
  ghost predicate Written(d: seq<byte>, nodes: seq<Node>, owner: seq<Slot>,
                          d': seq<byte>, nodes': seq<Node>, owner': seq<Slot>, i: int, off: int, src: seq<byte>)
    requires 0 <= i < |nodes| && nodes[i].cap >= 0
  {
    && Phys(d', nodes', owner')
    && |nodes'| == |nodes|
    && var n, n' := nodes[i], nodes'[i];
    && nodes' == nodes[i := n']
    && Tight(n')
    && n' == n.(cap := GrowCap(n.cap, WriteEnd(off, |src|)), addr1 := n'.addr1)
    && (n.addr1 != -1 ==> n'.addr1 == n.addr1)
    && |Full(d, n)| <= n'.cap && 0 <= off && off + |src| <= n'.cap
    && Full(d', n') == Patch(Pad(Full(d, n), n'.cap), off, src)
    && OthersSame(d, d', nodes, i)
    && owner <= owner'
    && |owner'| == |owner| + NewBlocks(n.cap, WriteEnd(off, |src|))
    && |d'| == |d|
    && (forall a :: 0 <= a < DMAP && a < |d| ==> d'[a] == d[a])
  }

  /** One chunk inside one block. */
  lemma WrittenHere(d: seq<byte>, nodes: seq<Node>, owner: seq<Slot>, i: int, off: int, src: seq<byte>, d': seq<byte>)
    requires Writable(d, nodes, owner, i, off, |src|)
    requires off < nodes[i].cap && off % DSIZE + |src| <= DSIZE
    requires 0 <= Addr(d, nodes[i], off) && Addr(d, nodes[i], off) + |src| <= |d|
    requires d' == Patch(d, Addr(d, nodes[i], off), src)
    ensures Written(d, nodes, owner, d', nodes, owner, i, off, src)
  {
    assert NodeShape(nodes[i]);
    InsideBlock(nodes[i].cap, off, |src|);
    WriteInBlock(d, nodes, owner, i, off, src, d');
    ChunkFits(d, nodes, owner, i, off, |src|);
    assert nodes[i := nodes[i]] == nodes;
  }

  lemma TailWritable(d: seq<byte>, nodes: seq<Node>, owner: seq<Slot>, i: int, off: int, src: seq<byte>,
                     w: int, rest: seq<byte>, d1: seq<byte>)
    requires Writable(d, nodes, owner, i, off, |src|) && off < nodes[i].cap
    requires w == DSIZE - off % DSIZE && w < |src| && rest == src[w..]
    requires 0 <= Addr(d, nodes[i], off) && Addr(d, nodes[i], off) + w <= |d|
    requires d1 == Patch(d, Addr(d, nodes[i], off), src[..w])
    ensures Writable(d1, nodes, owner, i, off + w, |rest|)
  {
    assert NodeShape(nodes[i]);
    AcrossBlock(nodes[i].cap, off, |src|, w);
    WriteInBlock(d, nodes, owner, i, off, src[..w], d1);
  }

  /** The bytes of the file after a chunk up to the end of a block and then the rest. */
  lemma ThenBytes(d: seq<byte>, nodes: seq<Node>, owner: seq<Slot>, i: int, off: int, src: seq<byte>,
                  w: int, rest: seq<byte>, d1: seq<byte>, d2: seq<byte>, n2: Node)
    requires Phys(d, nodes, owner) && 0 <= i < |nodes| && 0 <= off < nodes[i].cap <= n2.cap
    requires w == DSIZE - off % DSIZE && w < |src| && rest == src[w..] && off + |src| <= n2.cap
    requires 0 <= Addr(d, nodes[i], off) && Addr(d, nodes[i], off) + w <= |d|
    requires d1 == Patch(d, Addr(d, nodes[i], off), src[..w])
    requires Full(d2, n2) == Patch(Pad(Full(d1, nodes[i]), n2.cap), off + w, rest)
    ensures Full(d2, n2) == Patch(Pad(Full(d, nodes[i]), n2.cap), off, src)
  {
    WriteInBlock(d, nodes, owner, i, off, src[..w], d1);
    PatchPad(Full(d, nodes[i]), n2.cap, off, w, src);
  }

  /** What the chunk and the rest leave alone. */
  lemma ThenOthers(d: seq<byte>, nodes: seq<Node>, owner: seq<Slot>, i: int, off: int, chunk: seq<byte>,
                   d1: seq<byte>, d2: seq<byte>)
    requires Phys(d, nodes, owner) && 0 <= i < |nodes| && 0 <= off < nodes[i].cap && off % DSIZE + |chunk| <= DSIZE
    requires 0 <= Addr(d, nodes[i], off) && Addr(d, nodes[i], off) + |chunk| <= |d| == |d2|
    requires d1 == Patch(d, Addr(d, nodes[i], off), chunk)
    requires OthersSame(d1, d2, nodes, i) && forall a :: 0 <= a < DMAP && a < |d1| ==> d2[a] == d1[a]
    ensures OthersSame(d, d2, nodes, i) && forall a :: 0 <= a < DMAP && a < |d| ==> d2[a] == d[a]
  {
    ChunkFits(d, nodes, owner, i, off, |chunk|);
    WriteInBlock(d, nodes, owner, i, off, chunk, d1);
    OthersSameTwice(d, d1, d2, nodes, i);
  }

  /** A first part and the rest, put together; where the parts meet no longer matters. */
  lemma ThenWritten(d: seq<byte>, nodes: seq<Node>, owner: seq<Slot>, i: int, off: int, src: seq<byte>,
                    w: int, rest: seq<byte>, d1: seq<byte>, d2: seq<byte>, nodes2: seq<Node>, owner2: seq<Slot>)
    requires 0 <= i < |nodes| && nodes[i].cap >= 0 && 0 <= off && |d1| == |d|
    requires 0 < w < |src| && |rest| == |src| - w && WriteEnd(off + w, |rest|) == WriteEnd(off, |src|)
    requires Written(d1, nodes, owner, d2, nodes2, owner2, i, off + w, rest)
    requires OthersSame(d, d2, nodes, i) && forall a :: 0 <= a < DMAP && a < |d| ==> d2[a] == d[a]
    requires Full(d2, nodes2[i]) == Patch(Pad(Full(d, nodes[i]), nodes2[i].cap), off, src)
    ensures Written(d, nodes, owner, d2, nodes2, owner2, i, off, src)
  {
  }

  /** The chunk up to the end of the first block of a write is in place; `rest` is to follow. */
  ghost predicate Begun(d: seq<byte>, nodes: seq<Node>, owner: seq<Slot>, i: int, off: int, src: seq<byte>,
                        w: int, rest: seq<byte>, d1: seq<byte>) {
    && Writable(d, nodes, owner, i, off, |src|) && off < nodes[i].cap
    && w == DSIZE - off % DSIZE && w < |src| && rest == src[w..]
    && 0 <= Addr(d, nodes[i], off) && Addr(d, nodes[i], off) + w <= |d|
    && d1 == Patch(d, Addr(d, nodes[i], off), src[..w])
  }

  /** A chunk up to the end of a block, then the rest. */
  lemma WrittenThen(d: seq<byte>, nodes: seq<Node>, owner: seq<Slot>, i: int, off: int, src: seq<byte>,
                    w: int, rest: seq<byte>, d1: seq<byte>, d2: seq<byte>, nodes2: seq<Node>, owner2: seq<Slot>)
    requires Begun(d, nodes, owner, i, off, src, w, rest, d1)
    requires Written(d1, nodes, owner, d2, nodes2, owner2, i, off + w, rest)
    ensures Written(d, nodes, owner, d2, nodes2, owner2, i, off, src)
  {
    assert NodeShape(nodes[i]);
    AcrossBlock(nodes[i].cap, off, |src|, w);
    GrowCapNotLess(nodes[i].cap, WriteEnd(off, |src|));
    ThenOthers(d, nodes, owner, i, off, src[..w], d1, d2);
    ThenBytes(d, nodes, owner, i, off, src, w, rest, d1, d2, nodes2[i]);
    ThenWritten(d, nodes, owner, i, off, src, w, rest, d1, d2, nodes2, owner2);
  }

  lemma {:induction false} GrowCapNotLess(cap: nat, end: int)
    ensures cap <= GrowCap(cap, end)
    decreases end - cap
  {
    if end > cap {
      GrowCapNotLess(cap + DSIZE, end);
    }
  }

  /** The next block of inode `i` has been added, with the indirect table if it was the second. */
  ghost predicate Grown(d: seq<byte>, nodes: seq<Node>, owner: seq<Slot>,
                        d': seq<byte>, nodes': seq<Node>, owner': seq<Slot>, i: int)
    requires 0 <= i < |nodes|
  {
    && Phys(d', nodes', owner')
    && |nodes'| == |nodes|
    && var n, n' := nodes[i], nodes'[i];
    && nodes' == nodes[i := n']
    && Tight(n')
    && n' == n.(cap := n.cap + DSIZE, addr1 := n'.addr1)
    && (n.addr1 != -1 ==> n'.addr1 == n.addr1)
    && Full(d', n') == Full(d, n) + Zeros(DSIZE)
    && OthersSame(d, d', nodes, i)
    && owner <= owner'
    && |owner'| == |owner| + (if n.cap == DSIZE then 2 else 1)
    && |d'| == |d|
    && (forall a :: 0 <= a < DMAP && a < |d| ==> d'[a] == d[a])
  }

  /** The indirect table of inode `i` has been added; its record is now `n'`. */
  ghost predicate TableAdded(d: seq<byte>, nodes: seq<Node>, owner: seq<Slot>, d': seq<byte>, n': Node,
                             owner': seq<Slot>, i: int)
    requires 0 <= i < |nodes|
  {
    && n' == nodes[i].(addr1 := n'.addr1) && n'.addr1 != -1
    && Phys(d', nodes[i := n'], owner')
    && Full(d', n') == Full(d, nodes[i])
    && OthersSame(d, d', nodes, i)
    && owner <= owner' && |owner'| == |owner| + 1
    && |d'| == |d| && (forall a :: 0 <= a < DMAP && a < |d| ==> d'[a] == d[a])
  }

  /** A block has been added to inode `i`; its record is about to be `n'`. */
  ghost predicate BlockAdded(d: seq<byte>, nodes: seq<Node>, owner: seq<Slot>, d': seq<byte>, n': Node,
                             owner': seq<Slot>, i: int)
    requires 0 <= i < |nodes|
  {
    && n' == nodes[i].(cap := nodes[i].cap + DSIZE)
    && Phys(d', nodes[i := n'], owner')
    && Full(d', n') == Full(d, nodes[i]) + Zeros(DSIZE)
    && OthersSame(d, d', nodes, i)
    && owner <= owner' && |owner'| == |owner| + 1
    && |d'| == |d| && (forall a :: 0 <= a < DMAP && a < |d| ==> d'[a] == d[a])
  }

  lemma BlockEntered(d: seq<byte>, nodes: seq<Node>, owner: seq<Slot>, i: int, n': Node, index: int, w: int,
                     d1: seq<byte>, d': seq<byte>, owner': seq<Slot>)
    requires Phys(d, nodes, owner) && |owner| < DNUM && 0 <= i < |nodes| && nodes[i].addr1 != -1 && nodes[i].cap < CAP1
    requires n' == nodes[i].(cap := nodes[i].cap + DSIZE)
    requires nodes[i].cap == DSIZE * (index + 1) && w == nodes[i].addr1 + index * 4 && 0 <= w && w + 4 <= |d|
    requires DMAP + |owner| + 1 <= |d| && d1 == Patch(d, DMAP + |owner|, [1])
    requires d' == Patch(d1, w, IntBytes(DataOffset(|owner|)))
    requires owner' == owner + [Slot(i, index + 1)]
    ensures BlockAdded(d, nodes, owner, d', n', owner', i)
  {
    GrowFile(d, nodes, owner, i, n', index, w, d1, d');
  }

  /** The indirect table first when there was none, then the block. */
  lemma GrownInSteps(d: seq<byte>, nodes: seq<Node>, owner: seq<Slot>, i: int, d1: seq<byte>, nodes1: seq<Node>,
                     owner1: seq<Slot>,
                     d2: seq<byte>, n2: Node, owner2: seq<Slot>)
    requires Phys(d, nodes, owner) && 0 <= i < |nodes| && Tight(nodes[i])
    requires |nodes1| == |nodes| && nodes1 == nodes[i := nodes1[i]]
    requires if nodes[i].addr1 == -1 then TableAdded(d, nodes, owner, d1, nodes1[i], owner1, i)
             else d1 == d && nodes1 == nodes && owner1 == owner
    requires BlockAdded(d1, nodes1, owner1, d2, n2, owner2, i)
    ensures Grown(d, nodes, owner, d2, nodes[i := n2], owner2, i)
  {
    assert NodeShape(nodes[i]);
    OthersSameSelf(d, nodes, i);
    OthersSameSwap(d1, d2, nodes, i, nodes1[i]);
    OthersSameTwice(d, d1, d2, nodes, i);
    assert nodes1[i := n2] == nodes[i := n2];
  }

  lemma GrowNeeds(d: seq<byte>, nodes: seq<Node>, owner: seq<Slot>, i: int, off: int, len: nat)
    requires Writable(d, nodes, owner, i, off, len) && nodes[i].cap <= off
    ensures nodes[i].cap < CAP1 && |owner| + (if nodes[i].cap == DSIZE then 2 else 1) <= DNUM
  {
    assert NodeShape(nodes[i]);
  }

  lemma GrownWritable(d: seq<byte>, nodes: seq<Node>, owner: seq<Slot>, i: int, off: int, len: nat,
                      d1: seq<byte>, nodes1: seq<Node>, owner1: seq<Slot>)
    requires Writable(d, nodes, owner, i, off, len) && nodes[i].cap <= off
    requires Grown(d, nodes, owner, d1, nodes1, owner1, i)
    ensures Writable(d1, nodes1, owner1, i, off, len)
  {
    assert NodeShape(nodes[i]);
  }

  lemma WrittenGrown(d: seq<byte>, nodes: seq<Node>, owner: seq<Slot>, i: int, off: int, src: seq<byte>,
                     d1: seq<byte>, nodes1: seq<Node>, owner1: seq<Slot>,
                     d2: seq<byte>, nodes2: seq<Node>, owner2: seq<Slot>)
    requires Writable(d, nodes, owner, i, off, |src|) && nodes[i].cap <= off
    requires Grown(d, nodes, owner, d1, nodes1, owner1, i)
    requires Written(d1, nodes1, owner1, d2, nodes2, owner2, i, off, src)
    ensures Written(d, nodes, owner, d2, nodes2, owner2, i, off, src)
  {
    GrowCapNotLess(nodes1[i].cap, WriteEnd(off, |src|));
    PadPad(Full(d, nodes[i]), nodes2[i].cap);
    OthersSameSwap(d1, d2, nodes, i, nodes1[i]);
    OthersSameTwice(d, d1, d2, nodes, i);
  }

  /** A stretch inside one block of a file is one stretch of the disk. */
  lemma ReadHere(d: seq<byte>, nodes: seq<Node>, owner: seq<Slot>, i: int, off: int, len: nat)
    requires Phys(d, nodes, owner) && 0 <= i < |nodes| && 0 <= off < nodes[i].cap
    requires off % DSIZE + len <= DSIZE
    ensures var a := Addr(d, nodes[i], off);
      && 0 <= a && a + len <= |d|
      && off + len <= nodes[i].cap
      && Chunk(d, a, len) == Chunk(Full(d, nodes[i]), off, len)
  {
    ChunkFits(d, nodes, owner, i, off, len);
    var a, full := Addr(d, nodes[i], off), Full(d, nodes[i]);
    assert NodeShape(nodes[i]);
    forall p | off <= p < off + len
      ensures full[p] == d[a + (p - off)]
    {
      FullByte(d, nodes, owner, i, p);
      SameStretch(d, nodes, owner, i, off, len, i, p);
    }
    ChunksAgree(d, a, full, off, len);
  }

  lemma ChunksAgree(d: seq<byte>, a: nat, full: seq<byte>, off: nat, len: nat)
    requires a + len <= |d| && off + len <= |full|
    requires forall p :: off <= p < off + len ==> full[p] == d[a + (p - off)]
    ensures Chunk(d, a, len) == Chunk(full, off, len)
  {
  }
}
