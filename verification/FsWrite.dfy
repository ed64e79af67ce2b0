/** How writes to data blocks, inode blocks and sizes show in the files (kernel/fs/fs.c). */
module FsWrite {
  import opened FsBlock
  import opened FsMap
  import opened FsFile
  import opened FsExtend

  function WithBlock(fs: FS, b: nat, blk: Block): FS
    requires b < |fs.disk|
  {
    fs.(disk := fs.disk[b := blk])
  }

  // ---------- one data block ----------

  lemma DataWrite(fs: FS, own: map<nat, Slot>, ino: nat, bn: nat, blk: Block)
    requires Mapped(fs, own) && ino < |fs.inodes| && bn < MAXFILE && BlockOf(fs, ino, bn) != 0
    ensures BlockOf(fs, ino, bn) < |fs.disk|
    ensures Mapped(WithBlock(fs, BlockOf(fs, ino, bn), blk), own)
    ensures SameIndex(fs, WithBlock(fs, BlockOf(fs, ino, bn), blk), own)
    ensures BlockOf(fs, ino, bn) >= fs.sb.datastart
  {
    DataSlotValid(fs, ino, bn);
    var b := BlockOf(fs, ino, bn);
    HeldOf(fs, own, b);
    var fs' := WithBlock(fs, b, blk);
    forall c | 0 <= c < fs.sb.size ensures Used(fs', c) == Used(fs, c) { UsedSame(fs, fs', c); }
    WriteMapped(fs, fs', own);
  }

  /** A byte of another block keeps its value; one of the written block gets the new one. */
  lemma DataWriteByte(fs: FS, own: map<nat, Slot>, ino: nat, bn: nat, blk: Block, i: nat, q: nat)
    requires Mapped(fs, own) && ino < |fs.inodes| && bn < MAXFILE && BlockOf(fs, ino, bn) != 0
    requires i < |fs.inodes| && q < MAXBYTES && BlockOf(fs, i, q / BSIZE) != 0
    ensures BlockOf(fs, ino, bn) < |fs.disk|
    ensures var fs' := WithBlock(fs, BlockOf(fs, ino, bn), blk);
            && Shape(fs') && BlockOf(fs', i, q / BSIZE) == BlockOf(fs, i, q / BSIZE)
            && ByteAt(fs', i, q) == if i == ino && q / BSIZE == bn then blk[q % BSIZE] else ByteAt(fs, i, q)
  {
    DataWrite(fs, own, ino, bn, blk);
    DataSlotValid(fs, ino, bn);
    DataSlotValid(fs, i, q / BSIZE);
    var fs', t, u := WithBlock(fs, BlockOf(fs, ino, bn), blk), DataSlot(ino, bn), DataSlot(i, q / BSIZE);
    GetSame(fs, fs', own, u);
    DataSlotOnce(ino, bn, i, q / BSIZE);
    if u != t && Get(fs, u) == Get(fs, t) { HeldOnce(fs, own, t, u); }
  }

  lemma DataWriteSaved(fs: FS, b: nat, blk: Block, x: int)
    requires Shape(fs) && SavedBut(fs, x) && fs.sb.datastart <= b < |fs.disk|
    ensures SavedBut(WithBlock(fs, b, blk), x)
  {
    forall ino | 0 <= ino < |fs.inodes| && ino != x ensures OnDisk(WithBlock(fs, b, blk), ino) {
      assert OnDisk(fs, ino);
      InodeBlockBelow(fs, ino);
    }
  }

  // ---------- the loop of writei ----------

  /** The bytes of file x below n, where tot bytes of src have been written from off on, as seen
      from the state fs0 before; every other file is as it was. */
  ghost predicate Progress(fs0: FS, fs: FS, x: nat, off: nat, src: seq<Byte>, tot: nat)
  {
    && Shape(fs0) && Shape(fs) && fs.sb == fs0.sb && |fs.inodes| == |fs0.inodes| && x < |fs.inodes|
    && off <= fs0.inodes[x].size <= MAXBYTES && tot <= |src| && off + tot <= MAXBYTES
    && (forall q :: 0 <= q < fs0.inodes[x].size || off <= q < off + tot ==>
          q < MAXBYTES && NewByte(fs0, fs, x, off, src, tot, q))
    && fs.inodes[x] == fs0.inodes[x].(addrs := fs.inodes[x].addrs)
    && (forall i :: 0 <= i < |fs.inodes| && i != x ==> SameFile(fs0, fs, i))
  }

  ghost predicate NewByte(fs0: FS, fs: FS, x: nat, off: nat, src: seq<Byte>, tot: nat, q: nat)
    requires Shape(fs0) && Shape(fs) && x < |fs.inodes| == |fs0.inodes| && tot <= |src| && q < MAXBYTES
  {
    && BlockOf(fs, x, q / BSIZE) != 0
    && ByteAt(fs, x, q) == if off <= q < off + tot then src[q - off] else ByteAt(fs0, x, q)
  }

  ghost predicate SameFile(fs0: FS, fs: FS, i: nat)
    requires Shape(fs0) && Shape(fs) && i < |fs.inodes| == |fs0.inodes|
  {
    && fs.inodes[i] == fs0.inodes[i]
    && fs.inodes[i].size <= MAXBYTES
    && forall q :: 0 <= q < fs.inodes[i].size ==> BlockOf(fs, i, q / BSIZE) != 0 && ByteAt(fs, i, q) == ByteAt(fs0, i, q)
  }

  lemma BackedByte(fs: FS, i: nat, q: nat)
    requires Shape(fs) && i < |fs.inodes| && Backed(fs, i) && q < fs.inodes[i].size
    ensures q < MAXBYTES && BlockOf(fs, i, q / BSIZE) != 0
  {
    assert q / BSIZE * BSIZE <= q;
  }

  lemma ProgressStart(fs: FS, x: nat, off: nat, src: seq<Byte>)
    requires Shape(fs) && AllBacked(fs) && x < |fs.inodes| && off <= fs.inodes[x].size
    ensures Progress(fs, fs, x, off, src, 0)
  {
    assert Backed(fs, x);
    forall q | 0 <= q < fs.inodes[x].size ensures q < MAXBYTES && NewByte(fs, fs, x, off, src, 0, q) {
      BackedByte(fs, x, q);
    }
    forall i | 0 <= i < |fs.inodes| && i != x ensures SameFile(fs, fs, i) {
      assert Backed(fs, i);
      forall q | 0 <= q < fs.inodes[i].size ensures BlockOf(fs, i, q / BSIZE) != 0 {
        BackedByte(fs, i, q);
      }
    }
  }

  lemma ProgressBmap(fs0: FS, fs: FS, own: map<nat, Slot>, fs': FS, own': map<nat, Slot>,
                     x: nat, off: nat, src: seq<Byte>, tot: nat)
    requires Progress(fs0, fs, x, off, src, tot) && Extends(fs, own, fs', own', x)
    ensures Progress(fs0, fs', x, off, src, tot)
  {
    forall q | 0 <= q < fs0.inodes[x].size || off <= q < off + tot
      ensures q < MAXBYTES && NewByte(fs0, fs', x, off, src, tot, q)
    {
      assert NewByte(fs0, fs, x, off, src, tot, q);
      ExtendsByte(fs, own, fs', own', x, x, q);
    }
    forall i | 0 <= i < |fs.inodes| && i != x ensures SameFile(fs0, fs', i) {
      assert SameFile(fs0, fs, i) && fs'.inodes[i] == fs.inodes[i];
      forall q | 0 <= q < fs.inodes[i].size
        ensures BlockOf(fs', i, q / BSIZE) != 0 && ByteAt(fs', i, q) == ByteAt(fs0, i, q)
      {
        ExtendsByte(fs, own, fs', own', x, i, q);
      }
    }
  }

  /** The block after m bytes of src have been copied in at at. */
  function Patch(blk: Block, at: nat, piece: seq<Byte>): Block
    requires at + |piece| <= BSIZE
  {
    blk[..at] + piece + blk[at + |piece|..]
  }

  /** One turn of the loop: m more bytes, all in the block of off + tot. */
  lemma ProgressWrite(fs0: FS, fs: FS, own: map<nat, Slot>, x: nat, off: nat, src: seq<Byte>,
                      tot: nat, m: nat)
    requires Progress(fs0, fs, x, off, src, tot) && Mapped(fs, own)
    requires 0 < m && tot + m <= |src| && off + tot + m <= MAXBYTES
    requires (off + tot) % BSIZE + m <= BSIZE && BlockOf(fs, x, (off + tot) / BSIZE) != 0
    ensures var b := BlockOf(fs, x, (off + tot) / BSIZE);
            && b < |fs.disk|
            && Progress(fs0, WithBlock(fs, b, Patch(fs.disk[b], (off + tot) % BSIZE, src[tot..tot + m])),
                        x, off, src, tot + m)
  {
    hide Mapped, Get, SameIndex;
    var bn, at := (off + tot) / BSIZE, (off + tot) % BSIZE;
    DataWrite(fs, own, x, bn, ZeroBlock);
    var b := BlockOf(fs, x, bn);
    var blk := Patch(fs.disk[b], at, src[tot..tot + m]);
    DataWrite(fs, own, x, bn, blk);
    var fs' := WithBlock(fs, b, blk);
    var tot' := tot + m;
    forall q | 0 <= q < fs0.inodes[x].size || off <= q < off + tot'
      ensures q < MAXBYTES && NewByte(fs0, fs', x, off, src, tot', q)
    {
      WrittenByte(fs0, fs, own, x, off, src, tot, m, q);
    }
    forall i | 0 <= i < |fs.inodes| && i != x ensures SameFile(fs0, fs', i) {
      assert SameFile(fs0, fs, i);
      forall q | 0 <= q < fs.inodes[i].size
        ensures BlockOf(fs', i, q / BSIZE) != 0 && ByteAt(fs', i, q) == ByteAt(fs0, i, q)
      {
        DataWriteByte(fs, own, x, bn, blk, i, q);
      }
    }
  }

  lemma WrittenByte(fs0: FS, fs: FS, own: map<nat, Slot>, x: nat, off: nat, src: seq<Byte>,
                    tot: nat, m: nat, q: nat)
    requires Progress(fs0, fs, x, off, src, tot) && Mapped(fs, own)
    requires 0 < m && tot + m <= |src| && off + tot + m <= MAXBYTES
    requires (off + tot) % BSIZE + m <= BSIZE && BlockOf(fs, x, (off + tot) / BSIZE) != 0
    requires q < fs0.inodes[x].size || off <= q < off + (tot + m)
    ensures q < MAXBYTES
    ensures var b := BlockOf(fs, x, (off + tot) / BSIZE);
            && b < |fs.disk|
            && var fs' := WithBlock(fs, b, Patch(fs.disk[b], (off + tot) % BSIZE, src[tot..tot + m]));
               Shape(fs') && NewByte(fs0, fs', x, off, src, tot + m, q)
  {
    hide Mapped, SameFile, Get, SameIndex;
    var bn, at := (off + tot) / BSIZE, (off + tot) % BSIZE;
    DataWrite(fs, own, x, bn, ZeroBlock);
    var blk := Patch(fs.disk[BlockOf(fs, x, bn)], at, src[tot..tot + m]);
    if off + tot <= q < off + tot + m {
      assert q == bn * BSIZE + (at + (q - off - tot));
      assert q / BSIZE == bn && q % BSIZE == at + (q - off - tot);
    } else {
      assert NewByte(fs0, fs, x, off, src, tot, q);
      assert q / BSIZE == bn ==> q % BSIZE < at || q % BSIZE >= at + m;
    }
    DataWriteByte(fs, own, x, bn, blk, x, q);
  }

  // ---------- the end of writei ----------

  /** The file after src has been written at off, a gap before it filled with zeros. */
  function Written(c: seq<Byte>, off: nat, src: seq<Byte>): (r: seq<Byte>)
  {
    var p := if off > |c| then c + Zeros(off - |c|) else c;
    p[..off] + src + if off + |src| < |p| then p[off + |src|..] else []
  }

  /** Writing first the zeros of a gap and then src gives the same file as writing src. */
  lemma WrittenGap(c: seq<Byte>, off: nat, src: seq<Byte>)
    requires off > |c|
    ensures Written(Written(c, |c|, Zeros(off - |c|)), off, src) == Written(c, off, src)
  {
    assert Written(c, |c|, Zeros(off - |c|)) == c + Zeros(off - |c|);
  }

  function Resized(fs: FS, x: nat, size: nat): FS
    requires x < |fs.inodes|
  {
    fs.(inodes := fs.inodes[x := fs.inodes[x].(size := size)])
  }

  lemma ResizedMapped(fs: FS, own: map<nat, Slot>, x: nat, size: nat)
    requires Mapped(fs, own) && x < |fs.inodes| && size < WORDS
    ensures Mapped(Resized(fs, x, size), own) && SameIndex(fs, Resized(fs, x, size), own)
    ensures forall i, bn :: 0 <= i < |fs.inodes| && 0 <= bn < MAXFILE ==>
              BlockOf(Resized(fs, x, size), i, bn) == BlockOf(fs, i, bn)
    ensures forall i, q :: 0 <= i < |fs.inodes| && 0 <= q < MAXBYTES ==>
              ByteAt(Resized(fs, x, size), i, q) == ByteAt(fs, i, q)
  {
    var fs' := Resized(fs, x, size);
    forall c | 0 <= c < fs.sb.size ensures Used(fs', c) == Used(fs, c) { UsedSame(fs, fs', c); }
    WriteMapped(fs, fs', own);
    forall i, bn | 0 <= i < |fs.inodes| && 0 <= bn < MAXFILE
      ensures BlockOf(fs', i, bn) == BlockOf(fs, i, bn)
    {
      DataSlotValid(fs, i, bn);
      GetSame(fs, fs', own, DataSlot(i, bn));
    }
  }

  /** The loop done and the size brought up to date. */
  lemma ProgressEnd(fs0: FS, fs: FS, own: map<nat, Slot>, x: nat, off: nat, src: seq<Byte>, size: nat)
    requires Progress(fs0, fs, x, off, src, |src|) && Mapped(fs, own) && AllBacked(fs0)
    requires size == if off + |src| > fs0.inodes[x].size then off + |src| else fs0.inodes[x].size
    ensures Mapped(Resized(fs, x, size), own) && AllBacked(Resized(fs, x, size))
    ensures Content(Resized(fs, x, size), x) == Written(Content(fs0, x), off, src)
    ensures forall i :: 0 <= i < |fs.inodes| && i != x ==> SameFile(fs0, Resized(fs, x, size), i)
  {
    var fs' := Resized(fs, x, size);
    ResizedMapped(fs, own, x, size);
    ProgressContent(fs0, fs, own, x, off, src, size);
    hide Mapped, SameIndex, Get, Progress, SameFile;
    forall i | 0 <= i < |fs.inodes| ensures Backed(fs', i) {
      if i == x { ProgressBacked(fs0, fs, own, x, off, src, size); } else { SameFileBacked(fs0, fs, own, x, off, src, i, size); }
    }
    forall i | 0 <= i < |fs.inodes| && i != x ensures SameFile(fs0, fs', i) {
      SameFileBacked(fs0, fs, own, x, off, src, i, size);
    }
  }

  lemma ProgressBacked(fs0: FS, fs: FS, own: map<nat, Slot>, x: nat, off: nat, src: seq<Byte>, size: nat)
    requires Progress(fs0, fs, x, off, src, |src|) && Mapped(fs, own)
    requires size == if off + |src| > fs0.inodes[x].size then off + |src| else fs0.inodes[x].size
    ensures Shape(Resized(fs, x, size)) && Backed(Resized(fs, x, size), x)
  {
    ResizedMapped(fs, own, x, size);
    var fs' := Resized(fs, x, size);
    hide Mapped, SameFile, Get, SameIndex;
    forall bn | 0 <= bn < MAXFILE && bn * BSIZE < size ensures BlockOf(fs', x, bn) != 0 {
      var q := bn * BSIZE;
      assert q / BSIZE == bn;
      assert NewByte(fs0, fs, x, off, src, |src|, q);
    }
  }

  lemma SameFileBacked(fs0: FS, fs: FS, own: map<nat, Slot>, x: nat, off: nat, src: seq<Byte>, i: nat, size: nat)
    requires Progress(fs0, fs, x, off, src, |src|) && Mapped(fs, own) && i < |fs.inodes| && i != x
    requires size < WORDS
    ensures Shape(Resized(fs, x, size)) && SameFile(fs0, Resized(fs, x, size), i) && Backed(Resized(fs, x, size), i)
  {
    ResizedMapped(fs, own, x, size);
    var fs' := Resized(fs, x, size);
    assert SameFile(fs0, fs, i);
    hide Mapped, Progress, Get, SameIndex;
    forall bn | 0 <= bn < MAXFILE && bn * BSIZE < fs.inodes[i].size ensures BlockOf(fs', i, bn) != 0 {
      var q := bn * BSIZE;
      assert q / BSIZE == bn;
      assert BlockOf(fs, i, q / BSIZE) != 0;
    }
  }

  lemma ProgressContent(fs0: FS, fs: FS, own: map<nat, Slot>, x: nat, off: nat, src: seq<Byte>, size: nat)
    requires Progress(fs0, fs, x, off, src, |src|) && Mapped(fs, own)
    requires size == if off + |src| > fs0.inodes[x].size then off + |src| else fs0.inodes[x].size
    ensures Shape(Resized(fs, x, size)) && size <= MAXBYTES
    ensures Content(Resized(fs, x, size), x) == Written(Content(fs0, x), off, src)
  {
    hide Mapped, SameFile, Get, SameIndex, BlockOf;
    ResizedMapped(fs, own, x, size);
    var fs' := Resized(fs, x, size);
    var c, c' := Content(fs0, x), Content(fs', x);
    forall q | 0 <= q < size ensures c'[q] == Written(c, off, src)[q] {
      ProgressByte(fs0, fs, own, x, off, src, size, q);
    }
    assert |Written(c, off, src)| == size;
  }

  lemma ProgressByte(fs0: FS, fs: FS, own: map<nat, Slot>, x: nat, off: nat, src: seq<Byte>, size: nat, q: nat)
    requires Progress(fs0, fs, x, off, src, |src|) && Mapped(fs, own) && q < size <= MAXBYTES
    requires size == if off + |src| > fs0.inodes[x].size then off + |src| else fs0.inodes[x].size
    ensures Shape(Resized(fs, x, size)) && x < |fs0.inodes| == |fs.inodes| && Shape(fs0)
    ensures |Written(Content(fs0, x), off, src)| == size
    ensures Content(Resized(fs, x, size), x)[q] == Written(Content(fs0, x), off, src)[q]
  {
    ResizedMapped(fs, own, x, size);
    var fs' := Resized(fs, x, size);
    var c, c' := Content(fs0, x), Content(fs', x);
    hide Mapped, SameFile, Get, SameIndex;
    assert NewByte(fs0, fs, x, off, src, |src|, q);
    assert c'[q] == ByteAt(fs', x, q) == ByteAt(fs, x, q);
    if q < |c| { assert c[q] == ByteAt(fs0, x, q); }
  }

  // ---------- inode blocks ----------

  /** A block in front of the bitmap may change without any file noticing. */
  lemma MetaWrite(fs: FS, own: map<nat, Slot>, b: nat, blk: Block)
    requires Mapped(fs, own) && AllBacked(fs) && b < fs.sb.bmapstart
    ensures b < |fs.disk| && Mapped(WithBlock(fs, b, blk), own) && AllBacked(WithBlock(fs, b, blk))
    ensures forall i :: 0 <= i < |fs.inodes| ==> Content(WithBlock(fs, b, blk), i) == Content(fs, i)
    ensures forall c :: 0 <= c < fs.sb.size ==> Used(WithBlock(fs, b, blk), c) == Used(fs, c)
  {
    BitmapBelow(fs, 0);
    var fs' := WithBlock(fs, b, blk);
    MetaIndex(fs, own, b, blk);
    forall c | 0 <= c < fs.sb.size ensures Used(fs', c) == Used(fs, c) { BitmapBelow(fs, c); }
    WriteMapped(fs, fs', own);
    hide Mapped, SameIndex, Get;
    forall i | 0 <= i < |fs.inodes| ensures Backed(fs', i) && Content(fs', i) == Content(fs, i) {
      assert Backed(fs, i);
      forall bn | 0 <= bn < MAXFILE && bn * BSIZE < fs.inodes[i].size ensures BlockOf(fs', i, bn) != 0 {
        DataSlotValid(fs, i, bn);
        assert BlockOf(fs, i, bn) != 0;
        GetSame(fs, fs', own, DataSlot(i, bn));
      }
      forall q | 0 <= q < fs.inodes[i].size ensures ByteAt(fs', i, q) == ByteAt(fs, i, q) {
        BackedByte(fs, i, q);
        MetaByte(fs, own, b, blk, i, q);
      }
    }
  }

  lemma MetaIndex(fs: FS, own: map<nat, Slot>, b: nat, blk: Block)
    requires Mapped(fs, own) && b < fs.sb.bmapstart
    ensures b < |fs.disk| && SameIndex(fs, WithBlock(fs, b, blk), own)
    ensures b !in own
  {
    BitmapBelow(fs, 0);
    if b in own { HeldOf(fs, own, b); }
  }

  lemma MetaByte(fs: FS, own: map<nat, Slot>, b: nat, blk: Block, i: nat, q: nat)
    requires Mapped(fs, own) && b < fs.sb.bmapstart && i < |fs.inodes| && q < MAXBYTES
    requires BlockOf(fs, i, q / BSIZE) != 0
    ensures b < |fs.disk| && Shape(WithBlock(fs, b, blk)) && ByteAt(WithBlock(fs, b, blk), i, q) == ByteAt(fs, i, q)
  {
    MetaIndex(fs, own, b, blk);
    ByteSame(fs, WithBlock(fs, b, blk), own, i, q);
  }

  /** iupdate makes the disk agree with inode x. */
  lemma InodeSaved(fs: FS, x: nat)
    requires Shape(fs) && x < |fs.inodes| && SavedBut(fs, x)
    ensures InodeBlock(fs, x) < |fs.disk|
    ensures SavedBut(WithBlock(fs, InodeBlock(fs, x),
                               SetDinode(fs.disk[InodeBlock(fs, x)], x % IPB, fs.inodes[x])), -1)
  {
    InodeBlockBelow(fs, x);
    var b := InodeBlock(fs, x);
    var fs' := WithBlock(fs, b, SetDinode(fs.disk[b], x % IPB, fs.inodes[x]));
    forall ino | 0 <= ino < |fs.inodes| ensures OnDisk(fs', ino) {
      InodeBlockBelow(fs, ino);
      DinodeOfSet(fs.disk[b], x % IPB, fs.inodes[x], ino % IPB);
      if ino != x {
        assert OnDisk(fs, ino);
        assert InodeBlock(fs, ino) == b ==> ino % IPB != x % IPB;
      }
    }
  }

  /** The files other than x are the same, and x is of the same type with the same links. */
  ghost predicate OthersSame(fs0: FS, fs: FS, x: nat)
  {
    && Shape(fs0) && Shape(fs) && |fs.inodes| == |fs0.inodes|
    && (x < |fs.inodes| ==> fs.inodes[x].head == fs0.inodes[x].head && fs.inodes[x].tail == fs0.inodes[x].tail)
    && forall i :: 0 <= i < |fs.inodes| && i != x ==>
         fs.inodes[i] == fs0.inodes[i] && Content(fs, i) == Content(fs0, i)
  }

  lemma OthersTwice(fs0: FS, fs1: FS, fs2: FS, x: nat)
    requires OthersSame(fs0, fs1, x) && OthersSame(fs1, fs2, x)
    ensures OthersSame(fs0, fs2, x)
  {}

  /** The state at the end of writei, before iupdate. */
  lemma WriteDone(fs0: FS, fs: FS, own: map<nat, Slot>, x: nat, off: nat, src: seq<Byte>, size: nat)
    requires Progress(fs0, fs, x, off, src, |src|) && Mapped(fs, own) && AllBacked(fs0)
    requires size == if off + |src| > fs0.inodes[x].size then off + |src| else fs0.inodes[x].size
    ensures Mapped(Resized(fs, x, size), own) && AllBacked(Resized(fs, x, size))
    ensures Content(Resized(fs, x, size), x) == Written(Content(fs0, x), off, src)
    ensures OthersSame(fs0, Resized(fs, x, size), x)
  {
    ProgressEnd(fs0, fs, own, x, off, src, size);
    var fs' := Resized(fs, x, size);
    hide Mapped, AllBacked, Progress;
    forall i | 0 <= i < |fs.inodes| && i != x
      ensures fs'.inodes[i] == fs0.inodes[i] && Content(fs', i) == Content(fs0, i)
    {
      assert SameFile(fs0, fs', i);
    }
  }

  lemma ResizedSaved(fs: FS, x: nat, size: nat)
    requires Shape(fs) && x < |fs.inodes| && SavedBut(fs, x)
    ensures SavedBut(Resized(fs, x, size), x)
  {
    forall ino | 0 <= ino < |fs.inodes| && ino != x ensures OnDisk(Resized(fs, x, size), ino) {
      assert OnDisk(fs, ino);
    }
  }
}
