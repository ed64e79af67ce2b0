/** Inodes that come and go (ialloc, iput of kernel/fs/fs.c): what depends on the type and the
    links of an inode, and the inodes that are free. */
module FsInodes {
  import opened FsBlock
  import opened FsMap
  import opened FsFile
  import opened FsExtend
  import opened FsWrite

  /** ip->type; 0 for a free inode. */
  function TypeOf(ip: Inode): nat
  {
    ip.head % 0x1_0000
  }

  /** ip->nlink */
  function Links(ip: Inode): nat
  {
    ip.tail / 0x1_0000
  }

  predicate Empty(ip: Inode)
  {
    ip.size == 0 && |ip.addrs| == NDIRECT + 2 && forall i :: 0 <= i < NDIRECT + 2 ==> ip.addrs[i] == 0
  }

  /** A free inode holds no block, so that ialloc may clear it. */
  predicate FreeEmpty(fs: FS)
  {
    forall i :: 0 <= i < |fs.inodes| && TypeOf(fs.inodes[i]) == 0 ==> Empty(fs.inodes[i])
  }

  /** ialloc's new inode, without links and blocks. */
  function NewInode(kind: nat): Inode
  {
    Inode(kind, 0, 0, Zeros(NDIRECT + 2))
  }

  /** What is done to a file whose inode is not free keeps the free ones empty. */
  lemma FreeStaysEmpty(fs0: FS, fs: FS, x: nat)
    requires FreeEmpty(fs0) && OthersSame(fs0, fs, x) && x < |fs.inodes| && TypeOf(fs0.inodes[x]) != 0
    ensures FreeEmpty(fs)
  {}

  function Relabelled(fs: FS, x: nat, head: nat, tail: nat): FS
    requires x < |fs.inodes|
  {
    fs.(inodes := fs.inodes[x := fs.inodes[x].(head := head, tail := tail)])
  }

  /** Type and links are nothing to the block map or to any content. */
  lemma RelabelledFiles(fs: FS, own: map<nat, Slot>, x: nat, head: nat, tail: nat)
    requires Mapped(fs, own) && AllBacked(fs) && SavedBut(fs, -1)
    requires x < |fs.inodes| && head < WORDS && tail < WORDS
    ensures var fs' := Relabelled(fs, x, head, tail);
            && Mapped(fs', own) && AllBacked(fs') && SavedBut(fs', x)
            && (forall i :: 0 <= i < |fs.inodes| ==> Content(fs', i) == Content(fs, i))
            && (forall c :: 0 <= c < fs.sb.size ==> Used(fs', c) == Used(fs, c))
  {
    var fs' := Relabelled(fs, x, head, tail);
    forall c | 0 <= c < fs.sb.size ensures Used(fs', c) == Used(fs, c) { UsedSame(fs, fs', c); }
    WriteMapped(fs, fs', own);
    forall i | 0 <= i < |fs.inodes| ensures Backed(fs', i) && Content(fs', i) == Content(fs, i) {
      assert Backed(fs, i);
      RelabelledFile(fs, own, x, head, tail, i);
    }
    forall i | 0 <= i < |fs.inodes| && i != x ensures OnDisk(fs', i) { assert OnDisk(fs, i); }
  }

  lemma RelabelledFile(fs: FS, own: map<nat, Slot>, x: nat, head: nat, tail: nat, i: nat)
    requires Mapped(fs, own) && i < |fs.inodes| && Backed(fs, i)
    requires x < |fs.inodes| && head < WORDS && tail < WORDS
    ensures var fs' := Relabelled(fs, x, head, tail);
            Shape(fs') && Backed(fs', i) && Content(fs', i) == Content(fs, i)
  {
    var fs' := Relabelled(fs, x, head, tail);
    hide Get;
    forall bn | 0 <= bn < MAXFILE ensures BlockOf(fs', i, bn) == BlockOf(fs, i, bn) {
      DataSlotValid(fs, i, bn);
      GetSame(fs, fs', own, DataSlot(i, bn));
    }
    forall q | 0 <= q < fs.inodes[i].size ensures ByteAt(fs', i, q) == ByteAt(fs, i, q) {}
  }

  /** A file none of whose slots is in the map has no addresses. */
  lemma NoneHeld(fs: FS, own: map<nat, Slot>, x: nat)
    requires Mapped(fs, own) && x < |fs.inodes| && Content(fs, x) == []
    requires forall b :: b in own ==> own[b].ino != x
    ensures Empty(fs.inodes[x])
  {
    forall i | 0 <= i < NDIRECT + 2 ensures fs.inodes[x].addrs[i] == 0 {
      var t := Addr(x, i);
      assert ValidSlot(fs, t) && Get(fs, t) == fs.inodes[x].addrs[i];
    }
  }

  /** The dinode that ialloc writes is what iupdate would write for the new inode, and no file
      changes by it. */
  lemma NewInodeSaved(fs: FS, own: map<nat, Slot>, x: nat, kind: nat)
    requires Mapped(fs, own) && AllBacked(fs) && SavedBut(fs, -1) && FreeEmpty(fs)
    requires x < |fs.inodes| && TypeOf(fs.inodes[x]) == 0 && 0 < kind < 0x1_0000
    ensures InodeBlock(fs, x) < |fs.disk|
    ensures var at := InodeBlock(fs, x);
            var fs' := fs.(disk := fs.disk[at := SetDinode(fs.disk[at], x % IPB, NewInode(kind))],
                           inodes := fs.inodes[x := NewInode(kind)]);
            && Mapped(fs', own) && AllBacked(fs') && SavedBut(fs', -1) && FreeEmpty(fs')
            && (forall i :: 0 <= i < |fs.inodes| ==> Content(fs', i) == Content(fs, i))
            && (forall c :: 0 <= c < fs.sb.size ==> Used(fs', c) == Used(fs, c))
  {
    hide Mapped, AllBacked, SavedBut, Content, Used, SetDinode;
    RelabelledFiles(fs, own, x, kind, 0);
    var fs1 := Relabelled(fs, x, kind, 0);
    EmptyIs(fs.inodes[x], kind);
    RelabelledNew(fs, own, x, kind);
    MetaWrite(fs1, own, InodeBlock(fs, x), SetDinode(fs.disk[InodeBlock(fs, x)], x % IPB, NewInode(kind)));
    InodeSaved(fs1, x);
  }

  lemma EmptyIs(ip: Inode, kind: nat)
    requires Empty(ip)
    ensures ip.(head := kind, tail := 0) == NewInode(kind)
  {
    assert ip.addrs == Zeros(NDIRECT + 2);
  }

  lemma RelabelledNew(fs: FS, own: map<nat, Slot>, x: nat, kind: nat)
    requires Mapped(fs, own) && FreeEmpty(fs) && x < |fs.inodes| && 0 < kind < 0x1_0000
    ensures FreeEmpty(Relabelled(fs, x, kind, 0)) && Shape(Relabelled(fs, x, kind, 0)) && Shape(fs)
    ensures InodeBlock(fs, x) < fs.sb.bmapstart <= |fs.disk| && GoodInode(NewInode(kind))
  {
    InodeBlockBelow(fs, x);
  }
}
