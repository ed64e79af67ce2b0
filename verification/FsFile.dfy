/** Files as byte sequences on top of the block map, and inodes on disk (kernel/fs/fs.c). */
module FsFile {
  import opened FsBlock
  import opened FsMap

  // ---------- inodes on disk ----------

  /** Store a run of words, from entry at on. */
  function SetWords(b: Block, at: nat, ws: seq<nat>): Block
    requires at + |ws| <= NINDIRECT && forall i :: 0 <= i < |ws| ==> ws[i] < WORDS
    decreases |ws|
  {
    if ws == [] then b else SetWord(SetWords(b, at, ws[..|ws| - 1]), at + |ws| - 1, ws[|ws| - 1])
  }

  lemma {:induction false} WordOfSetWords(b: Block, at: nat, ws: seq<nat>, j: nat)
    requires at + |ws| <= NINDIRECT && forall i :: 0 <= i < |ws| ==> ws[i] < WORDS
    requires j < NINDIRECT
    ensures Word(SetWords(b, at, ws), j) == if at <= j < at + |ws| then ws[j - at] else Word(b, j)
    decreases |ws|
  {
    if ws != [] {
      WordOfSetWords(b, at, ws[..|ws| - 1], j);
      WordOfSetWord(SetWords(b, at, ws[..|ws| - 1]), at + |ws| - 1, ws[|ws| - 1], j);
    }
  }

  /** The words of a struct dinode. */
  function InodeWords(ip: Inode): (ws: seq<nat>)
    requires GoodInode(ip)
    ensures |ws| == 16 && forall i :: 0 <= i < 16 ==> ws[i] < WORDS
  {
    [ip.head, ip.tail, ip.size] + ip.addrs
  }

  /** The k-th struct dinode of an inode block. */
  function Dinode(b: Block, k: nat): Inode
    requires k < IPB
  {
    Inode(Word(b, 16 * k), Word(b, 16 * k + 1), Word(b, 16 * k + 2), Words(b, 16 * k + 3, NDIRECT + 2))
  }

  function Words(b: Block, at: nat, n: nat): (ws: seq<nat>)
    requires at + n <= NINDIRECT
    ensures |ws| == n && forall i :: 0 <= i < n ==> ws[i] == Word(b, at + i)
  {
    seq<nat>(n, i requires 0 <= i < n => Word(b, at + i))
  }

  function SetDinode(b: Block, k: nat, ip: Inode): Block
    requires k < IPB && GoodInode(ip)
  {
    SetWords(b, 16 * k, InodeWords(ip))
  }

  /** An inode written to disk is read back, and the others of its block are not touched. */
  lemma DinodeOfSet(b: Block, k: nat, ip: Inode, j: nat)
    requires k < IPB && j < IPB && GoodInode(ip)
    ensures Dinode(SetDinode(b, k, ip), j) == if j == k then ip else Dinode(b, j)
  {
    var d := Dinode(SetDinode(b, k, ip), j);
    DinodeWord(b, k, ip, j, 0);
    DinodeWord(b, k, ip, j, 1);
    DinodeWord(b, k, ip, j, 2);
    forall i | 0 <= i < NDIRECT + 2
      ensures d.addrs[i] == if j == k then ip.addrs[i] else Dinode(b, j).addrs[i]
    {
      DinodeWord(b, k, ip, j, 3 + i);
      assert 16 * j + (3 + i) == 16 * j + 3 + i;
    }
    assert d.addrs == if j == k then ip.addrs else Dinode(b, j).addrs;
  }

  lemma DinodeWord(b: Block, k: nat, ip: Inode, j: nat, i: nat)
    requires k < IPB && j < IPB && GoodInode(ip) && i < 16
    ensures Word(SetDinode(b, k, ip), 16 * j + i) ==
            if j == k then InodeWords(ip)[i] else Word(b, 16 * j + i)
  {
    WordOfSetWords(b, 16 * k, InodeWords(ip), 16 * j + i);
  }

  function InodeBlock(fs: FS, ino: nat): nat
  {
    fs.sb.inodestart + ino / IPB
  }

  /** The disk agrees with the inode in memory. */
  predicate OnDisk(fs: FS, ino: nat)
    requires ino < |fs.inodes|
  {
    InodeBlock(fs, ino) < |fs.disk| && Dinode(fs.disk[InodeBlock(fs, ino)], ino % IPB) == fs.inodes[ino]
  }

  // ---------- contents ----------

  /** bmap's case distinction. */
  function DataSlot(ino: nat, bn: nat): (t: Slot)
    requires bn < MAXFILE
    ensures IsData(t) && t.ino == ino
  {
    if bn < NDIRECT then Addr(ino, bn)
    else if bn - NDIRECT < NINDIRECT then Ent(ino, bn - NDIRECT)
    else
      var q := bn - NDIRECT - NINDIRECT;
      Second(ino, q / NINDIRECT, q % NINDIRECT)
  }

  lemma DataSlotOnce(ino: nat, bn: nat, ino': nat, bn': nat)
    requires bn < MAXFILE && bn' < MAXFILE
    ensures DataSlot(ino, bn) == DataSlot(ino', bn') <==> ino == ino' && bn == bn'
  {}

  lemma DataSlotValid(fs: FS, ino: nat, bn: nat)
    requires bn < MAXFILE && ino < |fs.inodes|
    ensures ValidSlot(fs, DataSlot(ino, bn))
  {}

  const MAXBYTES := 67382272   // MAXFILE * BSIZE

  function BlockOf(fs: FS, ino: nat, bn: nat): nat
    requires Shape(fs) && ino < |fs.inodes| && bn < MAXFILE
  {
    DataSlotValid(fs, ino, bn);
    Get(fs, DataSlot(ino, bn))
  }

  function ByteAt(fs: FS, ino: nat, off: nat): Byte
    requires Shape(fs) && ino < |fs.inodes| && off < MAXBYTES
  {
    var b := BlockOf(fs, ino, off / BSIZE);
    if b < |fs.disk| then fs.disk[b][off % BSIZE] else 0
  }

  /** The file: its bytes up to its size. */
  function Content(fs: FS, ino: nat): (c: seq<Byte>)
    requires Shape(fs) && ino < |fs.inodes|
    ensures |c| == fs.inodes[ino].size
  {
    seq(fs.inodes[ino].size, off requires 0 <= off < fs.inodes[ino].size =>
      if off < MAXBYTES then ByteAt(fs, ino, off) else 0)
  }

  /** Every block below the size is there. */
  ghost predicate Backed(fs: FS, ino: nat)
    requires Shape(fs) && ino < |fs.inodes|
  {
    fs.inodes[ino].size <= MAXBYTES &&
    forall bn :: 0 <= bn < MAXFILE && bn * BSIZE < fs.inodes[ino].size ==> BlockOf(fs, ino, bn) != 0
  }

  ghost predicate AllBacked(fs: FS)
    requires Shape(fs)
  {
    forall ino :: 0 <= ino < |fs.inodes| ==> Backed(fs, ino)
  }

  /** All inodes but x are on disk as they are in memory. */
  ghost predicate SavedBut(fs: FS, x: int)
  {
    forall ino :: 0 <= ino < |fs.inodes| && ino != x ==> OnDisk(fs, ino)
  }

  /** Blocks that the map does not hold, and index blocks, may change without a file noticing. */
  lemma ByteSame(fs: FS, fs': FS, own: map<nat, Slot>, ino: nat, off: nat)
    requires Mapped(fs, own) && SameIndex(fs, fs', own) && ino < |fs.inodes| && off < MAXBYTES
    requires BlockOf(fs, ino, off / BSIZE) != 0
    requires forall b :: b in own && b < |fs.disk| && own[b] == DataSlot(ino, off / BSIZE) ==>
               fs'.disk[b] == fs.disk[b]
    ensures BlockOf(fs', ino, off / BSIZE) == BlockOf(fs, ino, off / BSIZE)
    ensures ByteAt(fs', ino, off) == ByteAt(fs, ino, off)
  {
    DataSlotValid(fs, ino, off / BSIZE);
    GetSame(fs, fs', own, DataSlot(ino, off / BSIZE));
  }

}
