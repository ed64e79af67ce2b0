/** mkfs.c: files packed into an image that the kernel's invariants hold of. */
module MkfsOps {
  import opened FsBlock
  import opened FsMap
  import opened FsFile
  import opened Mkfs

  // ---------- the written file ----------

  /** The image once the index blocks have been written. */
  function Written(l: Layout): (disk: seq<Block>)
    requires Sized(l) && (l.cs >= 0 ==> l.dind[l.cs] < |l.disk|)
    ensures |disk| == |l.disk|
  {
    var d1 := if l.addrs[NDIRECT] != 0 && l.addrs[NDIRECT] < |l.disk| then l.disk[l.addrs[NDIRECT] := FromWords(l.ind)] else l.disk;
    var d2 := if l.cs >= 0 then d1[l.dind[l.cs] := FromWords(l.sec)] else d1;
    if l.addrs[NDIRECT + 1] != 0 && l.addrs[NDIRECT + 1] < |l.disk| then d2[l.addrs[NDIRECT + 1] := FromWords(l.dind)] else d2
  }

  /** What the kernel finds in a slot of the file, on a disk with addresses addrs in the inode. */
  function Found(disk: seq<Block>, addrs: seq<nat>, t: Slot): nat
    requires |addrs| == NDIRECT + 2 && GoodSlot(t.ino, t)
  {
    match t
    case Addr(_, i) => addrs[i]
    case Ent(_, j) => At0(disk, addrs[NDIRECT], j)
    case First(_, f) => At0(disk, addrs[NDIRECT + 1], f)
    case Second(_, f, s) => At0(disk, At0(disk, addrs[NDIRECT + 1], f), s)
  }

  function At0(disk: seq<Block>, b: nat, i: nat): nat
    requires i < NINDIRECT
  {
    if b == 0 || b >= |disk| then 0 else Word(disk[b], i)
  }

  /** The index blocks of a file are in three, or two, different places. */
  lemma IndexApart(l: Layout, ino: nat, own: map<nat, Slot>, lo: nat)
    requires Laid(l, ino, own, lo) && Indexed(l)
    ensures l.addrs[NDIRECT] != 0 ==> l.addrs[NDIRECT] in own && own[l.addrs[NDIRECT]] == Addr(ino, NDIRECT)
    ensures l.addrs[NDIRECT + 1] != 0 ==> l.addrs[NDIRECT + 1] in own && own[l.addrs[NDIRECT + 1]] == Addr(ino, NDIRECT + 1)
    ensures forall f :: 0 <= f < NINDIRECT && l.dind[f] != 0 ==> l.dind[f] in own && own[l.dind[f]] == First(ino, f)
    ensures forall b :: b in own ==> b < |l.disk|
  {
    assert At(l, ino, Addr(ino, NDIRECT)) == l.addrs[NDIRECT];
    assert At(l, ino, Addr(ino, NDIRECT + 1)) == l.addrs[NDIRECT + 1];
    forall f | 0 <= f < NINDIRECT && l.dind[f] != 0 ensures l.dind[f] in own && own[l.dind[f]] == First(ino, f) {
      assert At(l, ino, First(ino, f)) == l.dind[f];
    }
  }

  /** Blocks that are not this file's index blocks are as before. */
  lemma WrittenElse(l: Layout, ino: nat, own: map<nat, Slot>, lo: nat, b: nat)
    requires Laid(l, ino, own, lo) && Indexed(l) && b < |l.disk|
    requires b in own ==> own[b] != Addr(ino, NDIRECT) && own[b] != Addr(ino, NDIRECT + 1) && (l.cs >= 0 ==> own[b] != First(ino, l.cs))
    ensures l.cs >= 0 ==> l.dind[l.cs] < |l.disk|
    ensures Written(l)[b] == l.disk[b]
  {
    hide FromWords, At;
    IndexApart(l, ino, own, lo);
  }

  lemma WrittenIndex(l: Layout, ino: nat, own: map<nat, Slot>, lo: nat)
    requires Laid(l, ino, own, lo) && Indexed(l)
    ensures l.cs >= 0 ==> l.dind[l.cs] < |l.disk|
    ensures l.addrs[NDIRECT] != 0 ==> l.addrs[NDIRECT] < |l.disk| && Written(l)[l.addrs[NDIRECT]] == FromWords(l.ind)
    ensures l.addrs[NDIRECT + 1] != 0 ==> l.addrs[NDIRECT + 1] < |l.disk| && Written(l)[l.addrs[NDIRECT + 1]] == FromWords(l.dind)
    ensures l.cs >= 0 ==> Written(l)[l.dind[l.cs]] == FromWords(l.sec)
  {
    IndexApart(l, ino, own, lo);
    hide FromWords, At;
  }

  /** Through the index arithmetic of bmap the kernel finds every block where mkfs meant it. */
  lemma FoundIsAt(l: Layout, ino: nat, own: map<nat, Slot>, lo: nat, content: seq<Byte>, t: Slot)
    requires Turn(l, ino, own, lo, content) && GoodSlot(ino, t)
    ensures l.cs >= 0 ==> l.dind[l.cs] < |l.disk|
    ensures Found(Written(l), l.addrs, t) == At(l, ino, t)
  {
    WrittenIndex(l, ino, own, lo);
    hide FromWords, Chunk, Laid, Written;
    match t
    case Addr(_, i) =>
    case Ent(_, j) => WordOfFrom(l.ind, j); if l.addrs[NDIRECT] == 0 { NoEntry(l, ino, content, j); }
    case First(_, f) => WordOfFrom(l.dind, f);
    case Second(_, f, s) => WordOfFrom(l.dind, f); WordOfFrom(l.sec, s); if f < l.cs { SecondFound(l, ino, own, lo, f, s); }
  }

  lemma NoEntry(l: Layout, ino: nat, content: seq<Byte>, j: nat)
    requires Sized(l) && Indexed(l) && Filled(l, ino, content) && j < NINDIRECT && l.addrs[NDIRECT] == 0
    ensures l.ind[j] == 0
  {
    assert FilledAt(l, ino, content, NDIRECT + j);
  }

  lemma SecondFound(l: Layout, ino: nat, own: map<nat, Slot>, lo: nat, f: nat, s: nat)
    requires Laid(l, ino, own, lo) && Indexed(l) && f < NINDIRECT && s < NINDIRECT && f < l.cs
    ensures l.dind[l.cs] < |l.disk| && At0(Written(l), l.dind[f], s) == At(l, ino, Second(ino, f, s))
  {
    IndexApart(l, ino, own, lo);
    WrittenElse(l, ino, own, lo, l.dind[f]);
    hide Written;
  }

  // ---------- an image of several files ----------

  /** The block map of the image, before it has a bitmap: each block that some slot holds is held
      by one slot, and lies below the first free block. */
  ghost predicate Slots(fs: FS, own: map<nat, Slot>, free: nat)
  {
    && Shape(fs) && 0 < fs.sb.datastart <= free <= fs.sb.size
    && (forall t :: ValidSlot(fs, t) && Get(fs, t) != 0 ==> Get(fs, t) in own && own[Get(fs, t)] == t)
    && (forall b :: b in own ==> fs.sb.datastart <= b < free && ValidSlot(fs, own[b]) && Get(fs, own[b]) == b)
  }

  /** The image between two files: every inode is written, and no file has a hole. */
  ghost predicate Building(fs: FS, own: map<nat, Slot>, free: nat)
  {
    Slots(fs, own, free) && AllBacked(fs) && SavedBut(fs, -1)
  }

  /** Nothing a block map depends on has changed, but in inode x. */
  ghost predicate SameMap(fs: FS, fs': FS, own: map<nat, Slot>, x: nat)
  {
    && Shape(fs) && Shape(fs') && fs'.sb == fs.sb
    && (forall ino :: 0 <= ino < |fs.inodes| && ino != x ==> fs'.inodes[ino] == fs.inodes[ino])
    && (forall b :: b in own && b < |fs.disk| ==> fs'.disk[b] == fs.disk[b])
  }

  lemma GetKept(fs: FS, fs': FS, own: map<nat, Slot>, free: nat, x: nat, t: Slot)
    requires Slots(fs, own, free) && SameMap(fs, fs', own, x) && ValidSlot(fs, t) && t.ino != x
    ensures ValidSlot(fs', t) && Get(fs', t) == Get(fs, t)
    decreases t.Second?, !t.Addr?
  {
    if !t.Addr? {
      var a := Above(t);
      GetAbove(fs, t);
      GetAbove(fs', t);
      GetKept(fs, fs', own, free, x, a);
      hide Get, ValidSlot;
      var b := Get(fs, a);
      assert b != 0 ==> b in own && own[b] == a;
    }
  }

  lemma ByteKept(fs: FS, fs': FS, own: map<nat, Slot>, free: nat, x: nat, ino: nat, off: nat)
    requires Slots(fs, own, free) && SameMap(fs, fs', own, x) && ino < |fs.inodes| && ino != x && off < MAXBYTES
    ensures BlockOf(fs', ino, off / BSIZE) == BlockOf(fs, ino, off / BSIZE)
    ensures BlockOf(fs, ino, off / BSIZE) != 0 ==> ByteAt(fs', ino, off) == ByteAt(fs, ino, off)
  {
    DataSlotValid(fs, ino, off / BSIZE);
    GetKept(fs, fs', own, free, x, DataSlot(ino, off / BSIZE));
  }

  /** The inode of a file that has been laid out. */
  function NewInode(l: Layout, head: nat, tail: nat, size: nat): Inode
  {
    Inode(head, tail, size, l.addrs)
  }

  /** What add_file leaves: the index blocks written, the inode in its inode block. */
  function Packed(fs: FS, l: Layout, ino: nat, ip: Inode): FS
    requires Sized(l) && |l.disk| == |fs.disk| && (l.cs >= 0 ==> l.dind[l.cs] < |l.disk|) && GoodInode(ip)
    requires ino < |fs.inodes| && InodeBlock(fs, ino) < |fs.disk|
  {
    var d, b := Written(l), InodeBlock(fs, ino);
    FS(fs.sb, d[b := SetDinode(d[b], ino % IPB, ip)], fs.inodes[ino := ip])
  }

  /** Below lo the image is as it was. */
  ghost predicate Frame(disk0: seq<Block>, disk: seq<Block>, lo: nat)
  {
    |disk| == |disk0| && forall b :: 0 <= b < lo && b < |disk| ==> disk[b] == disk0[b]
  }

  lemma InodeBelow(fs: FS, ino: nat)
    requires Shape(fs) && ino < |fs.inodes|
    ensures 0 < InodeBlock(fs, ino) < fs.sb.bmapstart <= fs.sb.datastart <= |fs.disk|
  {
    assert ino / IPB <= (|fs.inodes| - 1) / IPB;
    assert (|fs.inodes| - 1) / IPB + 1 == (|fs.inodes| + IPB - 1) / IPB;
  }

  /** The file that is packed, and what is known of it. */
  ghost predicate Ready(fs: FS, own: map<nat, Slot>, free: nat, l: Layout, ino: nat, ours: map<nat, Slot>, content: seq<Byte>)
  {
    && Building(fs, own, free) && ino < |fs.inodes| && Turn(l, ino, ours, free, content) && Frame(fs.disk, l.disk, free)
    && (forall b :: b in own ==> own[b].ino != ino) && |content| <= MAXBYTES && l.bi == Blocks(|content|)
  }

  lemma PackedBlocks(fs: FS, own: map<nat, Slot>, free: nat, l: Layout, ino: nat, ours: map<nat, Slot>, content: seq<Byte>, ip: Inode)
    requires Ready(fs, own, free, l, ino, ours, content) && GoodInode(ip) && ip.addrs == l.addrs
    ensures l.cs >= 0 ==> l.dind[l.cs] < |l.disk|
    ensures InodeBlock(fs, ino) < |fs.disk| && SameMap(fs, Packed(fs, l, ino, ip), own, ino) && Shape(Packed(fs, l, ino, ip))
    ensures forall b :: fs.sb.datastart <= b < |fs.disk| ==> Packed(fs, l, ino, ip).disk[b] == Written(l)[b]
    ensures forall b :: 0 <= b < free && b != InodeBlock(fs, ino) ==> Packed(fs, l, ino, ip).disk[b] == fs.disk[b]
  {
    hide SetDinode, Written, At;
    InodeBelow(fs, ino);
    WrittenIndex(l, ino, ours, free);
    forall b | 0 <= b < free && b < |l.disk| ensures Written(l)[b] == fs.disk[b] { WrittenElse(l, ino, ours, free, b); }
  }

  /** The kernel's map of the packed file is the layout. */
  lemma PackedGet(fs: FS, own: map<nat, Slot>, free: nat, l: Layout, ino: nat, ours: map<nat, Slot>, content: seq<Byte>, ip: Inode, t: Slot)
    requires Ready(fs, own, free, l, ino, ours, content) && GoodInode(ip) && ip.addrs == l.addrs && GoodSlot(ino, t)
    ensures l.cs >= 0 ==> l.dind[l.cs] < |l.disk|
    ensures InodeBlock(fs, ino) < |fs.disk| && Shape(Packed(fs, l, ino, ip)) && ValidSlot(Packed(fs, l, ino, ip), t)
    ensures Get(Packed(fs, l, ino, ip), t) == At(l, ino, t)
  {
    hide Written, At, Filled, Chunk, SetDinode;
    PackedBlocks(fs, own, free, l, ino, ours, content, ip);
    FoundIsAt(l, ino, ours, free, content, t);
    IndexApart(l, ino, ours, free);
    if t.Second? { FoundIsAt(l, ino, ours, free, content, First(ino, t.f)); AtFirst(l, ino, t.f); }
    FoundSame(Packed(fs, l, ino, ip), Written(l), ours, free, ino, l, t);
  }

  lemma AtFirst(l: Layout, ino: nat, f: nat)
    requires Sized(l) && f < NINDIRECT
    ensures At(l, ino, First(ino, f)) == l.dind[f]
  {}

  lemma FoundSame(fs: FS, disk: seq<Block>, ours: map<nat, Slot>, free: nat, ino: nat, l: Layout, t: Slot)
    requires Shape(fs) && ino < |fs.inodes| && GoodSlot(ino, t) && Laid(l, ino, ours, free) && |disk| == |fs.disk| == |l.disk|
    requires fs.inodes[ino].addrs == l.addrs && fs.sb.datastart <= free
    requires forall b :: fs.sb.datastart <= b < |disk| ==> fs.disk[b] == disk[b]
    requires l.addrs[NDIRECT] != 0 ==> l.addrs[NDIRECT] in ours
    requires l.addrs[NDIRECT + 1] != 0 ==> l.addrs[NDIRECT + 1] in ours
    requires t.Second? ==> At0(disk, l.addrs[NDIRECT + 1], t.f) == l.dind[t.f] && (l.dind[t.f] != 0 ==> l.dind[t.f] in ours)
    ensures ValidSlot(fs, t) && Get(fs, t) == Found(disk, l.addrs, t)
  {
    hide At;
  }

  function Merged(own: map<nat, Slot>, ours: map<nat, Slot>): map<nat, Slot>
  {
    own + ours
  }

  /** The packed file is mapped like any other, ... */
  lemma PackedSlots(fs: FS, own: map<nat, Slot>, free: nat, l: Layout, ino: nat, ours: map<nat, Slot>, content: seq<Byte>, ip: Inode)
    requires Ready(fs, own, free, l, ino, ours, content) && GoodInode(ip) && ip.addrs == l.addrs
    ensures l.cs >= 0 ==> l.dind[l.cs] < |l.disk|
    ensures InodeBlock(fs, ino) < |fs.disk| && Slots(Packed(fs, l, ino, ip), Merged(own, ours), l.free)
  {
    PackedBlocks(fs, own, free, l, ino, ours, content, ip);
    var fs', own' := Packed(fs, l, ino, ip), Merged(own, ours);
    hide Packed, At, Filled, Indexed, Get, ValidSlot, SameMap, Ready;
    forall t | ValidSlot(fs', t) && Get(fs', t) != 0 ensures Get(fs', t) in own' && own'[Get(fs', t)] == t {
      PackedOwned(fs, own, free, l, ino, ours, content, ip, t);
    }
    forall b | b in own' ensures fs'.sb.datastart <= b < l.free && ValidSlot(fs', own'[b]) && Get(fs', own'[b]) == b {
      PackedHeld(fs, own, free, l, ino, ours, content, ip, b);
    }
    PackedRange(fs, own, free, l, ino, ours, content, ip);
  }

  lemma PackedRange(fs: FS, own: map<nat, Slot>, free: nat, l: Layout, ino: nat, ours: map<nat, Slot>, content: seq<Byte>, ip: Inode)
    requires Ready(fs, own, free, l, ino, ours, content) && GoodInode(ip) && ip.addrs == l.addrs
    ensures 0 < fs.sb.datastart <= l.free <= fs.sb.size && Shape(fs) && (l.cs >= 0 ==> l.dind[l.cs] < |l.disk|) && InodeBlock(fs, ino) < |fs.disk|
    ensures Packed(fs, l, ino, ip).sb == fs.sb
  {
    PackedBlocks(fs, own, free, l, ino, ours, content, ip);
    hide At, Filled, Indexed, Get, ValidSlot;
  }

  lemma PackedOwned(fs: FS, own: map<nat, Slot>, free: nat, l: Layout, ino: nat, ours: map<nat, Slot>, content: seq<Byte>, ip: Inode, t: Slot)
    requires Ready(fs, own, free, l, ino, ours, content) && GoodInode(ip) && ip.addrs == l.addrs
    ensures l.cs >= 0 ==> l.dind[l.cs] < |l.disk|
    ensures InodeBlock(fs, ino) < |fs.disk| && Shape(Packed(fs, l, ino, ip))
    ensures ValidSlot(Packed(fs, l, ino, ip), t) && Get(Packed(fs, l, ino, ip), t) != 0 ==>
              OwnedBy(Merged(own, ours), Get(Packed(fs, l, ino, ip), t), t)
  {
    PackedBlocks(fs, own, free, l, ino, ours, content, ip);
    var fs' := Packed(fs, l, ino, ip);
    assert |fs'.inodes| == |fs.inodes|;
    if ValidSlot(fs', t) {
      if t.ino == ino { PackedGet(fs, own, free, l, ino, ours, content, ip, t); } else { GetKept(fs, fs', own, free, ino, t); }
      hide Packed, At, Filled, Indexed, Get;
      if Get(fs', t) != 0 && t.ino != ino { MergedOld(own, ours, free, l, ino, Get(fs', t)); }
    }
  }

  predicate OwnedBy(own: map<nat, Slot>, b: nat, t: Slot)
  {
    b in own && own[b] == t
  }

  /** The new blocks are not among the old ones. */
  lemma MergedOld(own: map<nat, Slot>, ours: map<nat, Slot>, free: nat, l: Layout, ino: nat, b: nat)
    requires Laid(l, ino, ours, free) && b in own && b < free
    ensures Merged(own, ours)[b] == own[b] && b !in ours
  {}

  lemma PackedHeld(fs: FS, own: map<nat, Slot>, free: nat, l: Layout, ino: nat, ours: map<nat, Slot>, content: seq<Byte>, ip: Inode, b: nat)
    requires Ready(fs, own, free, l, ino, ours, content) && GoodInode(ip) && ip.addrs == l.addrs && b in Merged(own, ours)
    ensures l.cs >= 0 ==> l.dind[l.cs] < |l.disk|
    ensures InodeBlock(fs, ino) < |fs.disk| && Shape(Packed(fs, l, ino, ip))
    ensures var fs', t := Packed(fs, l, ino, ip), Merged(own, ours)[b];
            fs.sb.datastart <= b < l.free && ValidSlot(fs', t) && Get(fs', t) == b
  {
    PackedBlocks(fs, own, free, l, ino, ours, content, ip);
    var fs' := Packed(fs, l, ino, ip);
    hide Packed, Filled, Indexed;
    if b in ours { PackedGet(fs, own, free, l, ino, ours, content, ip, ours[b]); } else { GetKept(fs, fs', own, free, ino, own[b]); }
  }

  /** ... holds the contents of the host's file, ... */
  lemma PackedContent(fs: FS, own: map<nat, Slot>, free: nat, l: Layout, ino: nat, ours: map<nat, Slot>, content: seq<Byte>, ip: Inode)
    requires Ready(fs, own, free, l, ino, ours, content) && GoodInode(ip) && ip.addrs == l.addrs && ip.size == |content|
    ensures l.cs >= 0 ==> l.dind[l.cs] < |l.disk|
    ensures InodeBlock(fs, ino) < |fs.disk| && Shape(Packed(fs, l, ino, ip)) && Backed(Packed(fs, l, ino, ip), ino)
    ensures Content(Packed(fs, l, ino, ip), ino) == content
  {
    PackedBlocks(fs, own, free, l, ino, ours, content, ip);
    var fs' := Packed(fs, l, ino, ip);
    assert fs'.inodes[ino] == ip;
    hide Packed, At, Filled, Indexed, Chunk, Get;
    forall bn | 0 <= bn < MAXFILE && bn * BSIZE < ip.size ensures BlockOf(fs', ino, bn) != 0 {
      PackedBlock(fs, own, free, l, ino, ours, content, ip, bn);
    }
    forall off | 0 <= off < |content| ensures ByteAt(fs', ino, off) == content[off] {
      PackedBlock(fs, own, free, l, ino, ours, content, ip, off / BSIZE);
      ChunkByte(content, off);
    }
  }

  lemma ChunkByte(content: seq<Byte>, off: nat)
    requires off < |content|
    ensures Chunk(content, off / BSIZE)[off % BSIZE] == content[off]
  {}

  lemma PackedBlock(fs: FS, own: map<nat, Slot>, free: nat, l: Layout, ino: nat, ours: map<nat, Slot>, content: seq<Byte>, ip: Inode, bn: nat)
    requires Ready(fs, own, free, l, ino, ours, content) && GoodInode(ip) && ip.addrs == l.addrs && bn < MAXFILE && bn * BSIZE < |content|
    ensures l.cs >= 0 ==> l.dind[l.cs] < |l.disk|
    ensures InodeBlock(fs, ino) < |fs.disk| && Shape(Packed(fs, l, ino, ip)) && ino < |Packed(fs, l, ino, ip).inodes|
    ensures var b := BlockOf(Packed(fs, l, ino, ip), ino, bn); 0 < b < |fs.disk| && Packed(fs, l, ino, ip).disk[b] == Chunk(content, bn)
  {
    PackedBlocks(fs, own, free, l, ino, ours, content, ip);
    GoodData(ino, bn);
    PackedGet(fs, own, free, l, ino, ours, content, ip, DataSlot(ino, bn));
    var b := At(l, ino, DataSlot(ino, bn));
    assert FilledAt(l, ino, content, bn);
    hide At, Chunk;
    assert ours[b] == DataSlot(ino, bn);
    WrittenElse(l, ino, ours, free, b);
  }

  /** ... and the others are as they were. */
  lemma PackedOthers(fs: FS, own: map<nat, Slot>, free: nat, l: Layout, ino: nat, ours: map<nat, Slot>, content: seq<Byte>, ip: Inode, o: nat)
    requires Ready(fs, own, free, l, ino, ours, content) && GoodInode(ip) && ip.addrs == l.addrs && o < |fs.inodes| && o != ino
    ensures l.cs >= 0 ==> l.dind[l.cs] < |l.disk|
    ensures InodeBlock(fs, ino) < |fs.disk| && Shape(Packed(fs, l, ino, ip)) && o < |Packed(fs, l, ino, ip).inodes|
    ensures Backed(Packed(fs, l, ino, ip), o) && Content(Packed(fs, l, ino, ip), o) == Content(fs, o)
  {
    PackedBlocks(fs, own, free, l, ino, ours, content, ip);
    var fs' := Packed(fs, l, ino, ip);
    assert fs'.inodes[o] == fs.inodes[o] && Backed(fs, o);
    hide Packed, Ready, Get, BlockOf, ByteAt;
    assert Slots(fs, own, free) by { BuildingOf(fs, own, free, l, ino, ours, content); }
    hide Slots, SameMap;
    forall bn | 0 <= bn < MAXFILE && bn * BSIZE < fs.inodes[o].size ensures BlockOf(fs', o, bn) != 0 {
      ByteKept(fs, fs', own, free, ino, o, bn * BSIZE);
      assert bn * BSIZE / BSIZE == bn;
    }
    forall off | 0 <= off < fs.inodes[o].size && off < MAXBYTES ensures ByteAt(fs', o, off) == ByteAt(fs, o, off) {
      BelowSize(fs, o, off);
      ByteKept(fs, fs', own, free, ino, o, off);
    }
  }

  lemma BuildingOf(fs: FS, own: map<nat, Slot>, free: nat, l: Layout, ino: nat, ours: map<nat, Slot>, content: seq<Byte>)
    requires Ready(fs, own, free, l, ino, ours, content)
    ensures Building(fs, own, free)
  {}

  lemma BelowSize(fs: FS, o: nat, off: nat)
    requires Shape(fs) && o < |fs.inodes| && Backed(fs, o) && off < fs.inodes[o].size && off < MAXBYTES
    ensures BlockOf(fs, o, off / BSIZE) != 0
  {
    hide BlockOf;
    assert off / BSIZE * BSIZE <= off;
  }

  /** All inodes are on disk again. */
  lemma PackedSaved(fs: FS, own: map<nat, Slot>, free: nat, l: Layout, ino: nat, ours: map<nat, Slot>, content: seq<Byte>, ip: Inode)
    requires Ready(fs, own, free, l, ino, ours, content) && GoodInode(ip) && ip.addrs == l.addrs
    ensures l.cs >= 0 ==> l.dind[l.cs] < |l.disk|
    ensures InodeBlock(fs, ino) < |fs.disk| && SavedBut(Packed(fs, l, ino, ip), -1)
  {
    PackedBlocks(fs, own, free, l, ino, ours, content, ip);
    InodeBelow(fs, ino);
    var fs' := Packed(fs, l, ino, ip);
    var b := InodeBlock(fs, ino);
    WrittenElse(l, ino, ours, free, b);
    assert fs'.disk[b] == SetDinode(fs.disk[b], ino % IPB, ip);
    assert SavedBut(fs, -1) && Shape(fs) && fs'.inodes == fs.inodes[ino := ip];
    hide SetDinode, Dinode, Written, Ready, At, Slots, SameMap, Packed, Shape;
    forall o | 0 <= o < |fs'.inodes| ensures OnDisk(fs', o) { SavedOne(fs, fs', free, ino, ip, o); }
  }

  lemma SavedOne(fs: FS, fs': FS, free: nat, ino: nat, ip: Inode, o: nat)
    requires Shape(fs) && ino < |fs.inodes| && o < |fs.inodes| && OnDisk(fs, o) && GoodInode(ip) && fs.sb.datastart <= free
    requires fs'.sb == fs.sb && fs'.inodes == fs.inodes[ino := ip] && |fs'.disk| == |fs.disk| && InodeBlock(fs, ino) < |fs.disk|
    requires fs'.disk[InodeBlock(fs, ino)] == SetDinode(fs.disk[InodeBlock(fs, ino)], ino % IPB, ip)
    requires forall b :: 0 <= b < free && b < |fs.disk| && b != InodeBlock(fs, ino) ==> fs'.disk[b] == fs.disk[b]
    ensures OnDisk(fs', o)
  {
    InodeBelow(fs, o);
    hide SetDinode, Dinode;
    if InodeBlock(fs, o) == InodeBlock(fs, ino) {
      DinodeOfSet(fs.disk[InodeBlock(fs, ino)], ino % IPB, ip, o % IPB);
      if o % IPB == ino % IPB { SameInodeBlock(fs, o, ino); }
    }
  }

  lemma SameInodeBlock(fs: FS, o: nat, ino: nat)
    requires InodeBlock(fs, o) == InodeBlock(fs, ino) && o % IPB == ino % IPB
    ensures o == ino
  {}

  // ---------- the bitmap ----------

  /** The block of the bitmap with the bits from start up to end set. */
  predicate Marks(b: Block, start: nat, end: nat)
  {
    forall i :: 0 <= i < BPB ==> (Bit(b[i / 8], i % 8) <==> start + i < end)
  }

  lemma MarkOne(b: Block, start: nat, i: nat)
    requires i < BPB && Marks(b, start, start + i)
    ensures !Bit(b[i / 8], i % 8) && Marks(FlipBit(b, i), start, start + i + 1)
  {
    forall j | 0 <= j < BPB ensures Bit(FlipBit(b, i)[j / 8], j % 8) <==> start + j < start + i + 1 {
      if j / 8 == i / 8 { BitOfFlip(b[i / 8], i % 8, j % 8); }
    }
  }

  lemma MarkNone(start: nat, end: nat)
    requires end <= start
    ensures Marks(ZeroBlock, start, end)
  {
    forall j | 0 <= j < BPB ensures !Bit(ZeroBlock[j / 8], j % 8) { BitOfZero(j % 8); }
  }

  lemma {:induction false} BitOfZero(k: nat)
    ensures !Bit(0, k)
  {
    if k > 0 { BitOfZero(k - 1); }
  }

  /** The first n blocks of the bitmap are written, the rest of the image is as before. */
  ghost predicate Marked(fs: FS, disk: seq<Block>, free: nat, n: nat)
  {
    && |disk| == |fs.disk| && fs.sb.bmapstart + n <= |disk|
    && (forall k :: 0 <= k < n ==> Marks(disk[fs.sb.bmapstart + k], k * BPB, free))
    && (forall b :: 0 <= b < |disk| && !(fs.sb.bmapstart <= b < fs.sb.bmapstart + n) ==> disk[b] == fs.disk[b])
  }

  function BitmapBlocks(sb: Super): nat
  {
    (sb.size + BPB - 1) / BPB
  }

  /** With its bitmap the image is one the kernel can work on: exactly the bits of the blocks below
      the first free one are set, and every file is as it was packed. */
  lemma MarkedMapped(fs: FS, own: map<nat, Slot>, free: nat, disk: seq<Block>)
    requires Building(fs, own, free) && Marked(fs, disk, free, BitmapBlocks(fs.sb))
    ensures var fs' := fs.(disk := disk);
            && Mapped(fs', own) && AllBacked(fs') && SavedBut(fs', -1)
            && (forall b :: 0 <= b < fs.sb.size ==> (Used(fs', b) <==> b < free))
            && (forall o :: 0 <= o < |fs.inodes| ==> Content(fs', o) == Content(fs, o))
  {
    hide Used, Content, Backed, OnDisk, Marked;
    var fs' := fs.(disk := disk);
    forall b | 0 <= b < fs.sb.size ensures Used(fs', b) <==> b < free { MarkedUsed(fs, disk, free, b); }
    MarkedSame(fs, own, free, disk);
    forall t | ValidSlot(fs', t) && Get(fs', t) != 0 ensures Get(fs', t) in own && own[Get(fs', t)] == t {
      GetKept(fs, fs', own, free, |fs.inodes|, t);
    }
    forall b | b in own ensures Held(fs', own[b], b) { GetKept(fs, fs', own, free, |fs.inodes|, own[b]); }
    MarkedFiles(fs, own, free, disk);
  }

  lemma MarkedUsed(fs: FS, disk: seq<Block>, free: nat, b: nat)
    requires Shape(fs) && Marked(fs, disk, free, BitmapBlocks(fs.sb)) && b < fs.sb.size
    ensures Used(fs.(disk := disk), b) <==> b < free
  {
    BitmapBelow(fs, b);
    var k := b / BPB;
    assert k < BitmapBlocks(fs.sb) by {
      assert b / BPB <= (fs.sb.size - 1) / BPB;
      assert (fs.sb.size - 1) / BPB + 1 == (fs.sb.size + BPB - 1) / BPB;
    }
    assert Marks(disk[fs.sb.bmapstart + k], k * BPB, free);
    assert k * BPB + b % BPB == b;
  }

  lemma MarkedSame(fs: FS, own: map<nat, Slot>, free: nat, disk: seq<Block>)
    requires Building(fs, own, free) && Marked(fs, disk, free, BitmapBlocks(fs.sb))
    ensures SameMap(fs, fs.(disk := disk), own, |fs.inodes|)
  {
    hide Get, Content;
  }

  lemma MarkedFiles(fs: FS, own: map<nat, Slot>, free: nat, disk: seq<Block>)
    requires Building(fs, own, free) && Marked(fs, disk, free, BitmapBlocks(fs.sb)) && Shape(fs.(disk := disk))
    ensures var fs' := fs.(disk := disk);
            AllBacked(fs') && SavedBut(fs', -1) && forall o :: 0 <= o < |fs.inodes| ==> Content(fs', o) == Content(fs, o)
  {
    var fs' := fs.(disk := disk);
    MarkedSame(fs, own, free, disk);
    hide Get, BlockOf, ByteAt, SameMap, Slots;
    forall o | 0 <= o < |fs.inodes| ensures Backed(fs', o) && Content(fs', o) == Content(fs, o) && OnDisk(fs', o) {
      assert Backed(fs, o) && OnDisk(fs, o);
      InodeBelow(fs, o);
      MarkedFile(fs, own, free, disk, o);
    }
  }

  lemma MarkedFile(fs: FS, own: map<nat, Slot>, free: nat, disk: seq<Block>, o: nat)
    requires Slots(fs, own, free) && Shape(fs) && Shape(fs.(disk := disk)) && SameMap(fs, fs.(disk := disk), own, |fs.inodes|)
    requires o < |fs.inodes| && Backed(fs, o)
    ensures Backed(fs.(disk := disk), o) && Content(fs.(disk := disk), o) == Content(fs, o)
  {
    var fs' := fs.(disk := disk);
    hide Get, BlockOf, ByteAt, SameMap, Slots;
    forall bn | 0 <= bn < MAXFILE && bn * BSIZE < fs.inodes[o].size ensures BlockOf(fs', o, bn) != 0 {
      ByteKept(fs, fs', own, free, |fs.inodes|, o, bn * BSIZE);
      assert bn * BSIZE / BSIZE == bn;
    }
    forall off | 0 <= off < fs.inodes[o].size && off < MAXBYTES ensures ByteAt(fs', o, off) == ByteAt(fs, o, off) {
      BelowSize(fs, o, off);
      ByteKept(fs, fs', own, free, |fs.inodes|, o, off);
    }
  }

  // ---------- the program ----------

  class Image {
    const sb: Super
    var disk: seq<Block>
    var freeblock: nat
    ghost var inodes: seq<Inode>
    ghost var own: map<nat, Slot>

    ghost function S(): FS
      reads this
    {
      FS(sb, disk, inodes)
    }

    ghost predicate Valid()
      reads this
    {
      Building(S(), own, freeblock)
    }

    /** init_fs_image: a disk of zeroes. */
    constructor (sb: Super)
      requires Shape(FS(sb, seq(sb.size, _ => ZeroBlock), seq(sb.ninodes, _ => NoInode())))
      ensures Valid() && this.sb == sb && |inodes| == sb.ninodes && forall ino :: 0 <= ino < |inodes| ==> inodes[ino] == NoInode()
      ensures own == map[] && freeblock == sb.datastart
    {
      this.sb := sb;
      disk, freeblock := seq(sb.size, _ => ZeroBlock), sb.datastart;
      inodes, own := seq(sb.ninodes, _ => NoInode()), map[];
      new;
      EmptyImage(S());
    }

    /** alloc_block; None when the image is full. */
    method AllocBlock() returns (b: nat, ok: bool)
      requires |disk| == sb.size
      modifies this`disk, this`freeblock
      ensures ok <==> old(freeblock) < sb.size
      ensures ok ==> b == old(freeblock) && freeblock == b + 1 && disk == old(disk)[b := ZeroBlock]
      ensures !ok ==> disk == old(disk) && freeblock == old(freeblock)
    {
      if freeblock >= sb.size {
        return 0, false;
      }
      disk := disk[freeblock := ZeroBlock];
      freeblock := freeblock + 1;
      return freeblock - 1, true;
    }

    /** add_file: a file of the host goes into inode ino, whose other words are head and tail. It is
        read a block at a time. false is the end of the program: the image is full or the file too
        large. */
    method AddFile(ino: nat, head: nat, tail: nat, content: seq<Byte>) returns (ok: bool)
      requires Valid() && ino < |inodes| && inodes[ino] == NoInode() && head < WORDS && tail < WORDS
      modifies this
      ensures ok ==> Valid() && |inodes| == |old(inodes)| && Content(S(), ino) == content
      ensures ok ==> inodes == old(inodes)[ino := Inode(head, tail, |content|, inodes[ino].addrs)]
      ensures ok ==> forall o :: 0 <= o < |inodes| && o != ino ==> Content(S(), o) == old(Content(S(), o))
      ensures ok ==> old(freeblock) <= freeblock && forall b :: b in old(own) ==> b in own && own[b] == old(own)[b]
      ensures ok <==> |content| <= MAXBYTES && old(freeblock) + Needed(Blocks(|content|)) <= sb.size
      ensures ok ==> freeblock == old(freeblock) + Needed(Blocks(|content|))
    {
      hide Slots, AllBacked, SavedBut, Content, Laid, Filled, Chunk, Get, Packed, SetDinode, Written, Flushed, Needed, Blocks, LastSecond;
      ghost var fs, lo, before := S(), freeblock, own;
      BuildingShape(fs, own, lo);
      var addrs, ind, dind, sec := NoWords(NDIRECT + 2), NoWords(NINDIRECT), NoWords(NINDIRECT), NoWords(NINDIRECT);
      var cs, bi, size, rest := -1, 0, 0, content;
      ghost var ours: map<nat, Slot> := map[];
      StartTurn(disk, lo, ino, content);
      NoBlocks(|content|);
      while rest != []
        invariant Turn(Layout(disk, freeblock, addrs, ind, dind, sec, cs, bi), ino, ours, lo, content)
        invariant Frame(fs.disk, disk, lo) && |disk| == sb.size && inodes == fs.inodes && own == before
        invariant bi <= MAXFILE && size == (if bi * BSIZE < |content| then bi * BSIZE else |content|) && rest == content[size ..]
        invariant bi == Blocks(size) && freeblock == lo + Needed(bi)
        decreases |rest|
      {
        var nread := if |rest| < BSIZE then |rest| else BSIZE;
        var buf := Chunk(rest, 0);
        if bi >= MAXFILE {
          return false;
        }
        NextChunk(content, bi, size, rest);
        var done;
        done, addrs, ind, dind, sec, cs, ours := AddBlock(ino, lo, content, buf, addrs, ind, dind, sec, cs, bi, ours, fs.disk);
        MoreBlocks(|content|, size, nread, bi);
        if !done {
          return false;
        }
        size := size + nread;
        bi := bi + 1;
        rest := rest[nread ..];
      }
      ghost var l := Layout(disk, freeblock, addrs, ind, dind, sec, cs, bi);
      var ip := Inode(head, tail, size, addrs);
      Finish(fs, before, lo, l, ino, ours, content, ip);
      WriteIndex(addrs, ind, dind, sec, cs, bi);
      WriteInode(ino, ip);
      own := Merged(before, ours);
      WrittenIs(fs, l, ino, ip, S());
      return true;
    }

    /** The end of add_file_data: the index blocks are written. */
    method WriteIndex(addrs: seq<nat>, ind: seq<nat>, dind: seq<nat>, sec: seq<nat>, cs: int, ghost bi: nat)
      requires Sized(Layout(disk, freeblock, addrs, ind, dind, sec, cs, bi)) && (cs >= 0 ==> dind[cs] < |disk|)
      requires (addrs[NDIRECT] != 0 ==> addrs[NDIRECT] < |disk|) && (addrs[NDIRECT + 1] != 0 ==> addrs[NDIRECT + 1] < |disk|)
      modifies this`disk
      ensures disk == Written(Layout(old(disk), freeblock, addrs, ind, dind, sec, cs, bi))
    {
      hide FromWords;
      if addrs[NDIRECT] != 0 {
        disk := disk[addrs[NDIRECT] := FromWords(ind)];
      }
      if cs >= 0 {
        disk := disk[dind[cs] := FromWords(sec)];
      }
      if addrs[NDIRECT + 1] != 0 {
        disk := disk[addrs[NDIRECT + 1] := FromWords(dind)];
      }
    }

    /** write_inode */
    method WriteInode(ino: nat, ip: Inode)
      requires ino < |inodes| && sb.inodestart + ino / IPB < |disk| && GoodInode(ip)
      modifies this`disk, this`inodes
      ensures inodes == old(inodes)[ino := ip]
      ensures disk == old(disk)[sb.inodestart + ino / IPB := SetDinode(old(disk)[sb.inodestart + ino / IPB], ino % IPB, ip)]
    {
      var b := sb.inodestart + ino / IPB;
      disk := disk[b := SetDinode(disk[b], ino % IPB, ip)];
      inodes := inodes[ino := ip];
    }

    /** The body of the loop of add_file_data. */
    method AddBlock(ghost ino: nat, ghost lo: nat, ghost content: seq<Byte>, buf: Block, addrs0: seq<nat>, ind0: seq<nat>, dind0: seq<nat>,
                    sec0: seq<nat>, cs0: int, bi: nat, ghost ours0: map<nat, Slot>, ghost image: seq<Block>)
      returns (done: bool, addrs: seq<nat>, ind: seq<nat>, dind: seq<nat>, sec: seq<nat>, cs: int, ghost ours: map<nat, Slot>)
      requires Turn(Layout(disk, freeblock, addrs0, ind0, dind0, sec0, cs0, bi), ino, ours0, lo, content)
      requires |disk| == sb.size && bi < MAXFILE && buf == Chunk(content, bi) && Frame(image, disk, lo)
      modifies this`disk, this`freeblock
      ensures done ==> Turn(Layout(disk, freeblock, addrs, ind, dind, sec, cs, bi + 1), ino, ours, lo, content)
      ensures done ==> |disk| == sb.size && Frame(image, disk, lo)
      ensures done <==> old(freeblock) + (Needed(bi + 1) - Needed(bi)) <= sb.size
      ensures done ==> freeblock == old(freeblock) + (Needed(bi + 1) - Needed(bi))
    {
      hide Laid, Filled, Chunk, At;
      NeededMore(bi);
      addrs, ind, dind, sec, cs, ours := addrs0, ind0, dind0, sec0, cs0, ours0;
      ghost var l := Layout(disk, freeblock, addrs, ind, dind, sec, cs, bi);
      LaidSized(l, ino, ours, lo);
      var b, ok;
      if bi == NDIRECT {
        if freeblock < sb.size { AddrStep(l, ino, ours, lo, content, NDIRECT); }
        b, ok := AllocBlock();
        if !ok {
          return false, addrs, ind, dind, sec, cs, ours;
        }
        addrs := addrs[NDIRECT := b];
        l := WithAddr(Allocated(l, ZeroBlock), NDIRECT, b);
        ours := ours[b := Addr(ino, NDIRECT)];
      }
      assert l == Layout(disk, freeblock, addrs, ind, dind, sec, cs, bi);
      LaidSized(l, ino, ours, lo);
      if freeblock < sb.size {
        AllocKeeps(l, ino, ours, lo, buf);
        AllocFilled(l, ino, ours, lo, content, buf);
      }
      var data;
      data, ok := AllocBlock();
      if !ok {
        return false, addrs, ind, dind, sec, cs, ours;
      }
      disk := disk[data := buf];
      l := Allocated(l, buf);
      assert l == Layout(disk, freeblock, addrs, ind, dind, sec, cs, bi);
      if bi < NDIRECT + NINDIRECT {
        addrs, ind, ours := PlaceFirst(ino, lo, content, addrs, ind, dind, sec, cs, bi, data, ours);
      } else {
        done, addrs, dind, sec, cs, ours := AddSecond(ino, lo, content, addrs, ind, dind, sec, cs, bi, data, ours, image);
        return done, addrs, ind, dind, sec, cs, ours;
      }
      return true, addrs, ind, dind, sec, cs, ours;
    }

    /** A direct block, or an indirect one. */
    method PlaceFirst(ghost ino: nat, ghost lo: nat, ghost content: seq<Byte>, addrs0: seq<nat>, ind0: seq<nat>, ghost dind: seq<nat>,
                      ghost sec: seq<nat>, ghost cs: int, bi: nat, data: nat, ghost ours0: map<nat, Slot>)
      returns (addrs: seq<nat>, ind: seq<nat>, ghost ours: map<nat, Slot>)
      requires var l := Layout(disk, freeblock, addrs0, ind0, dind, sec, cs, bi);
               Laid(l, ino, ours0, lo) && Filled(l, ino, content) && Sized(l) && PlaceIndexed(l)
      requires bi < NDIRECT + NINDIRECT && lo <= data < freeblock && data !in ours0 && disk[data] == Chunk(content, bi)
      ensures Turn(Layout(disk, freeblock, addrs, ind, dind, sec, cs, bi + 1), ino, ours, lo, content)
    {
      hide Laid, Filled, Chunk, At;
      addrs, ind, ours := addrs0, ind0, ours0;
      ghost var l := Layout(disk, freeblock, addrs, ind, dind, sec, cs, bi);
      if bi < NDIRECT {
        AddrAt(l, ino, bi, data);
        DataStep(l, WithAddr(l, bi, data), ino, ours, lo, content, data);
        addrs := addrs[bi := data];
      } else {
        IndAt(l, ino, bi - NDIRECT, data);
        DataStep(l, WithInd(l, bi - NDIRECT, data), ino, ours, lo, content, data);
        ind := ind[bi - NDIRECT := data];
      }
      ours := ours[data := DataSlot(ino, bi)];
    }

    /** The last case of it: a block behind the indirect ones. */
    method AddSecond(ghost ino: nat, ghost lo: nat, ghost content: seq<Byte>, addrs0: seq<nat>, ghost ind: seq<nat>, dind0: seq<nat>,
                     sec0: seq<nat>, cs0: int, bi: nat, data: nat, ghost ours0: map<nat, Slot>, ghost image: seq<Block>)
      returns (done: bool, addrs: seq<nat>, dind: seq<nat>, sec: seq<nat>, cs: int, ghost ours: map<nat, Slot>)
      requires var l := Layout(disk, freeblock, addrs0, ind, dind0, sec0, cs0, bi);
               Laid(l, ino, ours0, lo) && Filled(l, ino, content) && Indexed(l)
      requires |disk| == sb.size && NDIRECT + NINDIRECT <= bi < MAXFILE && Frame(image, disk, lo)
      requires lo <= data < freeblock && data !in ours0 && disk[data] == Chunk(content, bi)
      modifies this`disk, this`freeblock
      ensures done ==> Turn(Layout(disk, freeblock, addrs, ind, dind, sec, cs, bi + 1), ino, ours, lo, content)
      ensures done ==> |disk| == sb.size && Frame(image, disk, lo)
      ensures done <==> old(freeblock) + MoreIndex(bi) <= sb.size
      ensures done ==> freeblock == old(freeblock) + MoreIndex(bi)
    {
      hide Laid, Filled, Chunk, At, FromWords;
      NeededMore(bi);
      addrs, dind, sec, cs, ours := addrs0, dind0, sec0, cs0, ours0;
      ghost var l := Layout(disk, freeblock, addrs, ind, dind, sec, cs, bi);
      LaidSized(l, ino, ours, lo);
      var rel := bi - NDIRECT - NINDIRECT;
      var outer, inner := rel / NINDIRECT, rel % NINDIRECT;
      var b, ok;
      if addrs[NDIRECT + 1] == 0 {
        if freeblock < sb.size { AddrStep(l, ino, ours, lo, content, NDIRECT + 1); }
        b, ok := AllocBlock();
        if !ok {
          return false, addrs, dind, sec, cs, ours;
        }
        addrs := addrs[NDIRECT + 1 := b];
        l := WithAddr(Allocated(l, ZeroBlock), NDIRECT + 1, b);
        ours := ours[b := Addr(ino, NDIRECT + 1)];
      }
      assert l == Layout(disk, freeblock, addrs, ind, dind, sec, cs, bi);
      LaidSized(l, ino, ours, lo);
      if outer != cs {
        done, dind, ours := NextSecond(ino, lo, content, addrs, ind, dind, sec, cs, bi, data, ours, image);
        if !done {
          return false, addrs, dind, sec, cs, ours;
        }
        cs := outer;
        sec := NoWords(NINDIRECT);
        l := Layout(disk, freeblock, addrs, ind, dind, sec, cs, bi);
      }
      LaidSized(l, ino, ours, lo);
      SecAt(l, ino, inner, data);
      DataStep(l, WithSec(l, inner, data), ino, ours, lo, content, data);
      sec := sec[inner := data];
      ours := ours[data := DataSlot(ino, bi)];
      return true, addrs, dind, sec, cs, ours;
    }

    /** A full second-level index block is written out, and a block found for the next. */
    method NextSecond(ghost ino: nat, ghost lo: nat, ghost content: seq<Byte>, ghost addrs: seq<nat>, ghost ind: seq<nat>, dind0: seq<nat>,
                      sec: seq<nat>, cs: int, ghost bi: nat, ghost data: nat, ghost ours0: map<nat, Slot>, ghost image: seq<Block>)
      returns (done: bool, dind: seq<nat>, ghost ours: map<nat, Slot>)
      requires var l := Layout(disk, freeblock, addrs, ind, dind0, sec, cs, bi);
               Laid(l, ino, ours0, lo) && Filled(l, ino, content) && Sized(l) && forall f :: 0 <= f < NINDIRECT ==> (dind0[f] != 0 <==> f <= cs)
      requires |disk| == sb.size && cs + 1 < NINDIRECT && Frame(image, disk, lo)
      requires lo <= data < freeblock && data !in ours0
      modifies this`disk, this`freeblock
      ensures done ==> |dind| == |dind0| && forall f :: 0 <= f < NINDIRECT ==> (dind[f] != 0 <==> f <= cs + 1)
      ensures done ==> LaidFilled(Layout(disk, freeblock, addrs, ind, dind, NoWords(NINDIRECT), cs + 1, bi), ino, ours, lo, content)
      ensures done ==> |disk| == sb.size && Frame(image, disk, lo) && data !in ours && disk[data] == old(disk)[data]
      ensures done <==> old(freeblock) < sb.size
      ensures done ==> freeblock == old(freeblock) + 1
    {
      hide Laid, Filled, Chunk, At, FromWords;
      dind, ours := dind0, ours0;
      ghost var l := Layout(disk, freeblock, addrs, ind, dind, sec, cs, bi);
      LaidSized(l, ino, ours, lo);
      FlushKeeps(l, ino, ours, lo);
      if freeblock < sb.size { SecondStep(l, ino, ours, lo, content, data); }
      FlushFrame(l, ino, ours, lo, image);
      if cs >= 0 {
        disk := disk[dind[cs] := FromWords(sec)];
      }
      var b, ok := AllocBlock();
      if !ok {
        return false, dind, ours;
      }
      dind := dind[cs + 1 := b];
      ours := ours[b := First(ino, cs + 1)];
      assert WithDind(Allocated(Flushed(l), ZeroBlock), cs + 1, b) == Layout(disk, freeblock, addrs, ind, dind, NoWords(NINDIRECT), cs + 1, bi);
      return true, dind, ours;
    }

    /** write_bitmap */
    method WriteBitmap()
      requires Valid()
      modifies this`disk
      ensures Mapped(S(), own) && AllBacked(S()) && SavedBut(S(), -1)
      ensures forall b :: 0 <= b < sb.size ==> (Used(S(), b) <==> b < freeblock)
      ensures forall o :: 0 <= o < |inodes| ==> Content(S(), o) == old(Content(S(), o))
    {
      hide Slots, AllBacked, SavedBut, Marks, Content, Mapped, Used, Get;
      ghost var fs := S();
      MarkedMappedNext(fs, own, freeblock);
      var k := 0;
      while k < BitmapBlocks(sb)
        invariant k <= BitmapBlocks(sb) && Marked(fs, disk, freeblock, k) && S() == fs.(disk := disk) && |disk| == sb.size
      {
        var start, end := k * BPB, k * BPB + BPB;
        if end > freeblock {
          end := freeblock;
        }
        var bmap: Block := ZeroBlock;
        var i := start;
        MarkNone(start, if end < start then end else start);
        while i < end
          invariant start <= i && (i <= end || i == start) && Marks(bmap, start, if end < start then end else i)
          modifies {}
        {
          MarkOne(bmap, start, i - start);
          bmap := FlipBit(bmap, i - start);
          i := i + 1;
        }
        MarkedOne(fs, disk, freeblock, k, bmap, start, end);
        disk := disk[sb.bmapstart + k := bmap];
        k := k + 1;
      }
      MarkedMapped(fs, own, freeblock, disk);
    }
  }

  lemma MarkedMappedNext(fs: FS, own: map<nat, Slot>, free: nat)
    requires Building(fs, own, free)
    ensures Marked(fs, fs.disk, free, 0) && |fs.disk| == fs.sb.size && fs.sb.bmapstart + BitmapBlocks(fs.sb) <= |fs.disk| && Shape(fs)
  {
    hide Get, Content;
  }

  /** A block of the bitmap marked up to its end, or up to the first free block, is marked as it
      should be. */
  lemma MarkedOne(fs: FS, disk: seq<Block>, free: nat, k: nat, bmap: Block, start: nat, end: nat)
    requires Marked(fs, disk, free, k) && k < BitmapBlocks(fs.sb) && fs.sb.bmapstart + BitmapBlocks(fs.sb) <= |fs.disk|
    requires start == k * BPB && end == (if start + BPB > free then free else start + BPB) && Marks(bmap, start, end)
    ensures Marked(fs, disk[fs.sb.bmapstart + k := bmap], free, k + 1)
  {
    forall i | 0 <= i < BPB ensures Bit(bmap[i / 8], i % 8) <==> start + i < free {}
    assert Marks(bmap, k * BPB, free);
    hide Marks;
  }

  function NoInode(): (ip: Inode)
  {
    Inode(0, 0, 0, NoWords(NDIRECT + 2))
  }

  lemma EmptyImage(fs: FS)
    requires Shape(fs) && (forall b :: 0 <= b < |fs.disk| ==> fs.disk[b] == ZeroBlock) && forall o :: 0 <= o < |fs.inodes| ==> fs.inodes[o] == NoInode()
    ensures Building(fs, map[], fs.sb.datastart)
  {
    forall o | 0 <= o < |fs.inodes| ensures OnDisk(fs, o) {
      InodeBelow(fs, o);
      EmptyDinode(o % IPB);
    }
  }

  lemma EmptyDinode(k: nat)
    requires k < IPB
    ensures Dinode(ZeroBlock, k) == NoInode()
  {
    forall i | 0 <= i < NINDIRECT ensures Word(ZeroBlock, i) == 0 { WordOfZero(i); }
    assert Dinode(ZeroBlock, k).addrs == NoInode().addrs;
  }

  lemma BuildingShape(fs: FS, own: map<nat, Slot>, free: nat)
    requires Building(fs, own, free)
    ensures Shape(fs) && 0 < free <= |fs.disk| == fs.sb.size < WORDS
  {
    hide Get, Content;
  }

  lemma StartTurn(disk: seq<Block>, lo: nat, ino: nat, content: seq<Byte>)
    requires 0 < lo <= |disk| < WORDS
    ensures Turn(Layout(disk, lo, NoWords(NDIRECT + 2), NoWords(NINDIRECT), NoWords(NINDIRECT), NoWords(NINDIRECT), -1, 0), ino, map[], lo, content)
  {
    hide Chunk;
  }

  /** The block that is read is the next one of the file. */
  lemma NextChunk(content: seq<Byte>, bi: nat, size: nat, rest: seq<Byte>)
    requires size == (if bi * BSIZE < |content| then bi * BSIZE else |content|) && rest == content[size ..] && rest != []
    ensures Chunk(rest, 0) == Chunk(content, bi)
    ensures var nread := if |rest| < BSIZE then |rest| else BSIZE;
            && size + nread == (if (bi + 1) * BSIZE < |content| then (bi + 1) * BSIZE else |content|)
            && rest[nread ..] == content[size + nread ..] && Blocks(size + nread) == bi + 1
  {
    assert size == bi * BSIZE;
    assert rest[if |rest| < BSIZE then |rest| else BSIZE ..] == content[size + (if |rest| < BSIZE then |rest| else BSIZE) ..];
  }

  /** The index blocks that the block to be placed needs are there. */
  predicate PlaceIndexed(l: Layout)
    requires Sized(l)
  {
    && (l.addrs[NDIRECT] != 0 <==> l.bi >= NDIRECT) && (l.addrs[NDIRECT + 1] != 0 <==> l.cs >= 0) && l.cs == -1
    && forall f :: 0 <= f < NINDIRECT ==> l.dind[f] == 0
  }

  ghost predicate LaidFilled(l: Layout, ino: nat, own: map<nat, Slot>, lo: nat, content: seq<Byte>)
  {
    Laid(l, ino, own, lo) && Filled(l, ino, content)
  }

  lemma NoBlocks(length: nat)
    ensures Blocks(0) == 0 && Needed(0) == 0 && (length <= MAXBYTES <==> Blocks(length) <= MAXFILE)
  {}

  /** One more block of the file is read. */
  lemma MoreBlocks(length: nat, size: nat, nread: nat, bi: nat)
    requires size < length && nread == (if length - size < BSIZE then length - size else BSIZE) && bi == Blocks(size) && size == bi * BSIZE
    ensures Blocks(size + nread) == bi + 1 && Needed(bi + 1) <= Needed(Blocks(length))
    ensures size + nread == if (bi + 1) * BSIZE < length then (bi + 1) * BSIZE else length
    ensures length <= MAXBYTES <==> Blocks(length) <= MAXFILE
    ensures bi < Blocks(length)
  {
    assert bi + 1 <= Blocks(length);
    NeededGrows(bi + 1, Blocks(length));
  }

  lemma LaidSized(l: Layout, ino: nat, own: map<nat, Slot>, lo: nat)
    requires Laid(l, ino, own, lo)
    ensures Sized(l) && 0 < lo <= l.free
  {}

  /** Only blocks of this file are written. */
  lemma FlushFrame(l: Layout, ino: nat, own: map<nat, Slot>, lo: nat, image: seq<Block>)
    requires Laid(l, ino, own, lo) && Frame(image, l.disk, lo) && (l.cs >= 0 ==> l.dind[l.cs] in own && l.dind[l.cs] < |l.disk|)
    ensures Sized(l) && Frame(image, Flushed(l).disk, lo)
  {
    hide FromWords, At;
  }

  /** All that add_file leaves behind. */
  lemma Finish(fs: FS, own: map<nat, Slot>, lo: nat, l: Layout, ino: nat, ours: map<nat, Slot>, content: seq<Byte>, ip: Inode)
    requires Building(fs, own, lo) && ino < |fs.inodes| && fs.inodes[ino] == NoInode() && Turn(l, ino, ours, lo, content)
    requires Frame(fs.disk, l.disk, lo) && |content| <= MAXBYTES && l.bi == Blocks(|content|)
    requires ip.addrs == l.addrs && ip.size == |content| && ip.head < WORDS && ip.tail < WORDS
    ensures Sized(l) && |l.disk| == |fs.disk| && (l.cs >= 0 ==> l.dind[l.cs] < |l.disk|) && GoodInode(ip) && InodeBlock(fs, ino) < |fs.disk|
    ensures (l.addrs[NDIRECT] != 0 ==> l.addrs[NDIRECT] < |l.disk|) && (l.addrs[NDIRECT + 1] != 0 ==> l.addrs[NDIRECT + 1] < |l.disk|)
    ensures var fs' := Packed(fs, l, ino, ip);
            && Building(fs', Merged(own, ours), l.free) && Content(fs', ino) == content
            && (forall o :: 0 <= o < |fs.inodes| && o != ino ==> Content(fs', o) == Content(fs, o))
            && lo <= l.free && forall b :: b in own ==> b in Merged(own, ours) && Merged(own, ours)[b] == own[b]
  {
    LaidSized(l, ino, ours, lo);
    assert |content| < WORDS;
    NoneOwned(fs, own, lo, ino);
    IndexApart(l, ino, ours, lo);
    hide Filled, Chunk, At, Get, Written, SetDinode, Slots, OnDisk, Backed, Content;
    assert Ready(fs, own, lo, l, ino, ours, content);
    PackedSlots(fs, own, lo, l, ino, ours, content, ip);
    PackedContent(fs, own, lo, l, ino, ours, content, ip);
    PackedSaved(fs, own, lo, l, ino, ours, content, ip);
    hide Packed;
    var fs' := Packed(fs, l, ino, ip);
    PackedCount(fs, l, ino, ip);
    forall o | 0 <= o < |fs.inodes| && o != ino ensures Backed(fs', o) && Content(fs', o) == Content(fs, o) {
      PackedOthers(fs, own, lo, l, ino, ours, content, ip, o);
    }
    MergedAll(fs, own, ours, lo, l, ino);
  }

  lemma PackedCount(fs: FS, l: Layout, ino: nat, ip: Inode)
    requires Sized(l) && |l.disk| == |fs.disk| && (l.cs >= 0 ==> l.dind[l.cs] < |l.disk|) && GoodInode(ip)
    requires ino < |fs.inodes| && InodeBlock(fs, ino) < |fs.disk|
    ensures |Packed(fs, l, ino, ip).inodes| == |fs.inodes|
  {}

  lemma MergedAll(fs: FS, own: map<nat, Slot>, ours: map<nat, Slot>, lo: nat, l: Layout, ino: nat)
    requires Slots(fs, own, lo) && Laid(l, ino, ours, lo)
    ensures forall b :: b in own ==> b in Merged(own, ours) && Merged(own, ours)[b] == own[b]
  {
    hide Get, At;
  }

  /** An inode without blocks owns none. */
  lemma NoneOwned(fs: FS, own: map<nat, Slot>, lo: nat, ino: nat)
    requires Building(fs, own, lo) && ino < |fs.inodes| && fs.inodes[ino] == NoInode()
    ensures forall b :: b in own ==> own[b].ino != ino
  {
    hide Backed, OnDisk;
    forall b | b in own ensures own[b].ino != ino {
      assert Get(fs, own[b]) == b;
    }
  }

  /** The writes at the end of add_file come to Packed. */
  lemma WrittenIs(fs: FS, l: Layout, ino: nat, ip: Inode, fs': FS)
    requires Sized(l) && |l.disk| == |fs.disk| && (l.cs >= 0 ==> l.dind[l.cs] < |l.disk|) && GoodInode(ip)
    requires ino < |fs.inodes| && InodeBlock(fs, ino) < |fs.disk|
    requires fs'.sb == fs.sb && fs'.inodes == fs.inodes[ino := ip]
    requires fs'.disk == Written(l)[InodeBlock(fs, ino) := SetDinode(Written(l)[InodeBlock(fs, ino)], ino % IPB, ip)]
    ensures fs' == Packed(fs, l, ino, ip)
  {
    hide Written, SetDinode;
  }
}
