/** The operations of kernel/fs/fs.c and kernel/fs/bio.c on files. Reading and writing a block
    stand for bread and bwrite, which are BufferCache.ReadBlock and WriteBlock. A result that is None,
    or false, stands for a panic. */
module FsOps {
  import opened FsBlock
  import opened FsMap
  import opened FsFile
  import opened FsExtend
  import opened FsWrite
  import opened FsTrunc
  import opened FsInodes

  datatype Option<+T> = None | Some(value: T)

  /** What filling slot t comes to: its block, with the file extended by it if there was none; or
      None, with every bit set. */
  ghost predicate FilledIn(fs: FS, own: map<nat, Slot>, fs': FS, own': map<nat, Slot>, t: Slot, r: Option<nat>)
  {
    && (r.Some? ==> Extends(fs, own, fs', own', t.ino) && Shape(fs') && ValidSlot(fs', t) && Get(fs', t) == r.value != 0)
    && (Shape(fs) && ValidSlot(fs, t) && Get(fs, t) != 0 ==> r.Some? && fs' == fs && own' == own)
    && (r.None? ==> forall c :: 0 <= c < fs.sb.size ==> Used(fs', c))
  }

  /** Where the entry of slot t is. */
  lemma SlotEntry(fs: FS, own: map<nat, Slot>, at: nat, t: Slot)
    requires Mapped(fs, own) && ValidSlot(fs, t) && !t.Addr? && ValidSlot(fs, Above(t)) && Get(fs, Above(t)) == at != 0
    ensures at < |fs.disk| && Index(t) < NINDIRECT && Get(fs, t) == Word(fs.disk[at], Index(t)) && Shape(fs)
  {
    GetAbove(fs, t);
    IndexHeld(fs, own, Above(t));
  }

  lemma AlreadyThere(fs: FS, own: map<nat, Slot>, t: Slot, addr: nat)
    requires Mapped(fs, own) && ValidSlot(fs, t) && Get(fs, t) == addr != 0
    ensures FilledIn(fs, own, fs, own, t, Some(addr))
  {
    hide Get, Used;
    ExtendsSelf(fs, own, t.ino);
  }

  lemma NoneFree(fs: FS, own: map<nat, Slot>, t: Slot)
    requires Shape(fs) && ValidSlot(fs, t) && Get(fs, t) == 0 && forall c :: 0 <= c < fs.sb.size ==> Used(fs, c)
    ensures FilledIn(fs, own, fs, own, t, None)
  {
    hide Get, Used;
  }

  /** The index block is written, from a copy made before balloc ran, with the new block in it. */
  lemma FilledFresh(fs: FS, own: map<nat, Slot>, fs1: FS, at: nat, t: Slot, b: nat)
    requires Ballocd(fs, own, fs1, b) && ValidSlot(fs, t) && !t.Addr? && Get(fs, t) == 0
    requires ValidSlot(fs, Above(t)) && Get(fs, Above(t)) == at != 0
    ensures at < |fs.disk| == |fs1.disk| && b < WORDS && Index(t) < NINDIRECT
    ensures FilledIn(fs, own, fs1.(disk := fs1.disk[at := SetWord(fs.disk[at], Index(t), b)]), own[b := t], t, Some(b))
  {
    GetAbove(fs, t);
    FillExtends(fs, own, fs1, t, b);
    BallocdRange(fs, own, fs1, b);
    BallocdKeeps(fs, own, fs1, b, t);
    assert Plug(fs1, t, b) == fs1.(disk := fs1.disk[at := SetWord(fs.disk[at], Index(t), b)]);
    PlugShape(fs1, t, b);
    hide Mapped, Extends, Used, Ballocd, Get, Word, SetWord, Shape, Plug;
    PlugValid(fs1, t, b);
  }

  lemma PlugValid(fs: FS, t: Slot, b: nat)
    requires Shape(fs) && ValidSlot(fs, t) && b < WORDS
    ensures ValidSlot(Plug(fs, t, b), t)
  {
    PlugShape(fs, t, b);
  }

  class FileSystem {
    const sb: Super
    var disk: seq<Block>
    var inodes: seq<Inode>
    ghost var own: map<nat, Slot>

    ghost function S(): FS
      reads this
    {
      FS(sb, disk, inodes)
    }

    /** Between operations: every inode in memory agrees with the disk. */
    ghost predicate Valid()
      reads this
    {
      Within(-1)
    }

    /** Inside an operation on inode x, which may be ahead of the disk. */
    ghost predicate Within(x: int)
      reads this
    {
      Mapped(S(), own) && AllBacked(S()) && SavedBut(S(), x)
    }

    constructor (sb: Super, disk: seq<Block>, inodes: seq<Inode>, ghost own: map<nat, Slot>)
      requires Mapped(FS(sb, disk, inodes), own) && AllBacked(FS(sb, disk, inodes)) &&
               SavedBut(FS(sb, disk, inodes), -1)
      ensures Valid() && S() == FS(sb, disk, inodes) && this.own == own
    {
      this.sb, this.disk, this.inodes, this.own := sb, disk, inodes, own;
    }

    /** balloc: the lowest block whose bit is clear; its bit is set and its content zeroed. */
    method Balloc() returns (r: Option<nat>)
      requires Mapped(S(), own)
      modifies this`disk
      ensures r.None? ==> disk == old(disk) && forall c :: 0 <= c < sb.size ==> Used(S(), c)
      ensures r.Some? ==> Ballocd(old(S()), own, S(), r.value)
      ensures r.Some? ==> forall c :: 0 <= c < r.value ==> Used(old(S()), c)
    {
      hide Mapped, Get, Ballocd, Word, Bit, Shape;
      var b := 0;
      while b < sb.size
        invariant b % BPB == 0
        invariant forall c :: 0 <= c < b && c < sb.size ==> Used(S(), c)
        invariant disk == old(disk)
        decreases sb.size - b
      {
        MappedShape(S(), own);
        BitmapBelow(S(), b);
        var bp := disk[sb.bmapstart + b / BPB];
        var bi := 0;
        while bi < BPB && b + bi < sb.size
          invariant 0 <= bi <= BPB
          invariant forall c :: 0 <= c < b + bi && c < sb.size ==> Used(S(), c)
          invariant disk == old(disk)
        {
          SameBitmapBlock(b, bi);
          if !Bit(bp[bi / 8], bi % 8) {
            Take(b + bi);
            return Some(b + bi);
          }
          bi := bi + 1;
        }
        b := b + BPB;
      }
      return None;
    }

    /** The end of balloc: set the bit of block b, write the bitmap block back, zero the block. */
    method Take(b: nat)
      requires Mapped(S(), own) && b < sb.size && !Used(S(), b)
      modifies this`disk
      ensures Ballocd(old(S()), own, S(), b)
    {
      hide Mapped, Used;
      MappedShape(S(), own);
      TakeIsBallocd(S(), own, b);
      var at := sb.bmapstart + b / BPB;
      disk := disk[at := FlipBit(disk[at], b % BPB)];
      disk := disk[b := ZeroBlock];
    }

    /** The pattern of bmap on an inode: slot i, with a new block if it is empty. */
    method FillAddr(ino: nat, i: nat) returns (r: Option<nat>)
      requires Mapped(S(), own) && ino < |inodes| && i < NDIRECT + 2
      modifies this
      ensures r.Some? ==> Extends(old(S()), old(own), S(), own, ino)
      ensures r.Some? ==> Get(S(), Addr(ino, i)) == r.value != 0
      ensures old(Get(S(), Addr(ino, i))) != 0 ==> r.Some? && S() == old(S()) && own == old(own)
      ensures r.None? ==> forall c :: 0 <= c < sb.size ==> Used(S(), c)
    {
      hide Mapped, Extends, Used, Ballocd;
      ghost var fs, own0 := S(), own;
      MappedShape(fs, own);
      var addr := inodes[ino].addrs[i];
      ExtendsSelf(fs, own, ino);
      if addr == 0 {
        var b := Balloc();
        if b.None? {
          return None;
        }
        addr := b.value;
        ghost var fs1 := S();
        FillExtends(fs, own0, fs1, Addr(ino, i), addr);
        BallocdRange(fs, own0, fs1, addr);
        inodes := inodes[ino := inodes[ino].(addrs := inodes[ino].addrs[i := addr])];
        own := own[addr := Addr(ino, i)];
        assert S() == Plug(fs1, Addr(ino, i), addr);
      }
      r := Some(addr);
    }

    /** The pattern of bmap on index block at: the entry of slot t, with a new block if it is
        empty. The index block is read before balloc runs and written after. */
    method FillEntry(at: nat, t: Slot) returns (r: Option<nat>)
      requires Mapped(S(), own) && ValidSlot(S(), t) && !t.Addr?
      requires ValidSlot(S(), Above(t)) && Get(S(), Above(t)) == at != 0
      modifies this
      ensures FilledIn(old(S()), old(own), S(), own, t, r)
    {
      hide Mapped, Extends, Used, Ballocd, Get, Word, SetWord, Above, Index, ValidSlot, FilledIn, Shape;
      ghost var fs, own0 := S(), own;
      SlotEntry(fs, own, at, t);
      var a := disk[at];
      var i := Index(t);
      var addr := Word(a, i);
      if addr != 0 {
        AlreadyThere(fs, own, t, addr);
        return Some(addr);
      }
      var b := Balloc();
      if b.None? {
        assert S() == fs;
        NoneFree(fs, own, t);
        return None;
      }
      addr := b.value;
      FilledFresh(fs, own, S(), at, t, addr);
      a := SetWord(a, i, addr);
      disk := disk[at := a];
      own := own[addr := t];
      r := Some(addr);
    }

    /** bmap: the disk block of block bn of file ino. */
    method Bmap(ino: nat, bn: nat) returns (r: Option<nat>)
      requires Mapped(S(), own) && ino < |inodes| && bn < MAXFILE
      modifies this
      ensures r.Some? ==> Extends(old(S()), old(own), S(), own, ino)
      ensures r.Some? ==> BlockOf(S(), ino, bn) == r.value != 0
      ensures old(BlockOf(S(), ino, bn)) != 0 ==> r.Some? && S() == old(S()) && own == old(own)
      ensures r.None? ==> forall c :: 0 <= c < sb.size ==> Used(S(), c)
    {
      DataSlotBelow(S(), ino, bn);
      DataSlotValid(S(), ino, bn);
      hide Mapped, Extends, Used;
      if bn < NDIRECT {
        r := FillAddr(ino, bn);
      } else if bn - NDIRECT < NINDIRECT {
        r := BmapIndirect(ino, bn - NDIRECT);
      } else {
        r := BmapDouble(ino, (bn - NDIRECT - NINDIRECT) / NINDIRECT, (bn - NDIRECT - NINDIRECT) % NINDIRECT);
      }
    }

    method BmapIndirect(ino: nat, n: nat) returns (r: Option<nat>)
      requires Mapped(S(), own) && ino < |inodes| && n < NINDIRECT
      modifies this
      ensures r.Some? ==> Extends(old(S()), old(own), S(), own, ino)
      ensures r.Some? ==> Get(S(), Ent(ino, n)) == r.value != 0
      ensures old(Get(S(), Ent(ino, n))) != 0 ==> r.Some? && S() == old(S()) && own == old(own)
      ensures r.None? ==> forall c :: 0 <= c < sb.size ==> Used(S(), c)
    {
      GetAbove(S(), Ent(ino, n));
      hide Mapped, Extends, Used, Get;
      ghost var fs, own0 := S(), own;
      r := FillAddr(ino, NDIRECT);
      if r.Some? {
        ghost var fs1, own1 := S(), own;
        ExtendsMapped(fs, own0, fs1, own1, ino);
        r := FillEntry(r.value, Ent(ino, n));
        if r.Some? {
          ExtendsTwice(fs, own0, fs1, own1, S(), own, ino);
        }
      }
    }

    method BmapDouble(ino: nat, first: nat, second: nat) returns (r: Option<nat>)
      requires Mapped(S(), own) && ino < |inodes| && first < NINDIRECT && second < NINDIRECT
      modifies this
      ensures r.Some? ==> Extends(old(S()), old(own), S(), own, ino)
      ensures r.Some? ==> Get(S(), Second(ino, first, second)) == r.value != 0
      ensures old(Get(S(), Second(ino, first, second))) != 0 ==> r.Some? && S() == old(S()) && own == old(own)
      ensures r.None? ==> forall c :: 0 <= c < sb.size ==> Used(S(), c)
    {
      GetAbove(S(), First(ino, first));
      GetAbove(S(), Second(ino, first, second));
      hide Mapped, Extends, Used, Get;
      ghost var fs, own0 := S(), own;
      r := FillAddr(ino, NDIRECT + 1);
      if r.Some? {
        ghost var fs1, own1 := S(), own;
        ExtendsMapped(fs, own0, fs1, own1, ino);
        r := FillEntry(r.value, First(ino, first));
        if r.Some? {
          ghost var fs2, own2 := S(), own;
          ExtendsTwice(fs, own0, fs1, own1, fs2, own2, ino);
          ExtendsMapped(fs, own0, fs2, own2, ino);
          r := FillEntry(r.value, Second(ino, first, second));
          if r.Some? {
            ExtendsTwice(fs, own0, fs2, own2, S(), own, ino);
          }
        }
      }
    }

    /** iupdate */
    method Iupdate(ino: nat)
      requires ino < |inodes| && Within(ino)
      modifies this`disk
      ensures Valid() && inodes == old(inodes)
      ensures forall c :: 0 <= c < sb.size ==> Used(S(), c) == old(Used(S(), c))
      ensures forall i :: 0 <= i < |inodes| ==> Content(S(), i) == old(Content(S(), i))
      ensures OthersSame(old(S()), S(), ino)
    {
      MappedShape(S(), own);
      InodeBlockBelow(S(), ino);
      SizesFit(S());
      var at := InodeBlockNo(ino);
      var bp := SetDinode(disk[at], ino % IPB, inodes[ino]);
      MetaWrite(S(), own, at, bp);
      InodeSaved(S(), ino);
      hide Mapped, AllBacked, SavedBut, Content, SetDinode, Used;
      disk := disk[at := bp];
    }

    /** ilock on an inode of which only the number is known: it is read from the disk, and is what
        Valid says is in memory. None stands for the panic on a free inode. */
    method Ilock(ino: nat) returns (ip: Option<Inode>)
      requires Valid() && ino < |inodes|
      ensures ip == if TypeOf(inodes[ino]) == 0 then None else Some(inodes[ino])
    {
      hide Mapped, AllBacked;
      MappedShape(S(), own);
      InodeBlockBelow(S(), ino);
      assert OnDisk(S(), ino);
      var dip := Dinode(disk[InodeBlockNo(ino)], ino % IPB);
      if TypeOf(dip) == 0 {
        return None;
      }
      ip := Some(dip);
    }

    /** iput, for an inode with ref references that is loaded or not. The last reference to a
        file without links gives back its blocks, and then the inode. */
    method Iput(ino: nat, ref: nat, loaded: bool) returns (ref': nat, loaded': bool)
      requires Valid() && ino < |inodes| && ref > 0
      modifies this
      ensures Valid() && ref' == ref - 1 && loaded' == (loaded && ref' != 0)
      ensures !(ref == 1 && loaded && Links(old(inodes[ino])) == 0) ==> S() == old(S()) && own == old(own)
      ensures ref == 1 && loaded && Links(old(inodes[ino])) == 0 ==> Released(old(S()), old(own), S(), own, ino)
    {
      ref', loaded' := ref - 1, loaded;
      if ref' == 0 && loaded && Links(inodes[ino]) == 0 {
        Release(ino);
      }
      if ref' == 0 {
        loaded' := false;
      }
    }

    method Release(ino: nat)
      requires Valid() && ino < |inodes|
      modifies this
      ensures Valid() && Released(old(S()), old(own), S(), own, ino)
    {
      hide Mapped, AllBacked, SavedBut, Used, OthersSame, Content;
      ghost var fs0, own0 := S(), own;
      Itrunc(ino);
      ghost var fs1 := S();
      WithinShape(-1);
      OthersInside(fs0, fs1, ino);
      var head := inodes[ino].head - TypeOf(inodes[ino]);
      RelabelledFiles(fs1, own, ino, head, inodes[ino].tail);
      inodes := inodes[ino := inodes[ino].(head := head)];
      ghost var fs2 := S();
      assert fs2 == Relabelled(fs1, ino, head, fs1.inodes[ino].tail);
      Iupdate(ino);
      ReleasedIs(fs0, own0, fs1, S(), own, ino, head);
    }

    /** ialloc: the lowest free inode but 0 becomes an empty one of the given type, on disk and
        (iget, ilock) in memory; None stands for the panic when there is none, or when iget has no
        slot for it. */
    method Ialloc(kind: nat, slot: bool) returns (r: Option<nat>)
      requires Valid() && FreeEmpty(S()) && 0 < kind < 0x1_0000
      modifies this
      ensures Valid() && FreeEmpty(S()) && own == old(own)
      ensures r.Some? <==> slot && exists i :: 1 <= i < |old(inodes)| && TypeOf(old(inodes)[i]) == 0
      ensures r.None? && slot ==> S() == old(S())
      ensures r.Some? ==> 1 <= r.value < |old(inodes)| && TypeOf(old(inodes)[r.value]) == 0
      ensures r.Some? ==> forall i :: 1 <= i < r.value ==> TypeOf(old(inodes)[i]) != 0
      ensures r.Some? ==> inodes == old(inodes)[r.value := NewInode(kind)]
      ensures forall i :: 0 <= i < |inodes| ==> Content(S(), i) == old(Content(S(), i))
      ensures forall c :: 0 <= c < sb.size ==> Used(S(), c) == old(Used(S(), c))
    {
      hide Mapped, AllBacked, Content, Used, SetDinode, FreeEmpty;
      WithinShape(-1);
      var inum := 1;
      while inum < |inodes|
        invariant 1 <= inum && S() == old(S()) && own == old(own)
        invariant forall i :: 1 <= i < inum && i < |inodes| ==> TypeOf(inodes[i]) != 0
      {
        InodeBlockBelow(S(), inum);
        assert OnDisk(S(), inum);
        var at := InodeBlockNo(inum);
        if TypeOf(Dinode(disk[at], inum % IPB)) == 0 {
          NewInodeSaved(S(), own, inum, kind);
          disk := disk[at := SetDinode(disk[at], inum % IPB, NewInode(kind))];
          inodes := inodes[inum := NewInode(kind)];
          return if slot then Some(inum) else None;
        }
        inum := inum + 1;
      }
      r := None;
    }

    function InodeBlockNo(ino: nat): nat
    {
      sb.inodestart + ino / IPB
    }

    /** readi. Of the destination the first room bytes are there, if it is the user's, or all. Nothing
        changes: every block below the size is there. stored is what has reached the destination, of
        which the result tells those of whole blocks when copyout fails. */
    method Readi(ino: nat, off: nat, n: nat, user: bool, room: nat) returns (r: nat, stored: seq<Byte>)
      requires Valid() && ino < |inodes| && off < WORDS && n < WORDS
      modifies this
      ensures S() == old(S()) && own == old(own)
      ensures IsRead(Read(Content(S(), ino), off, n), off, user, room, r, stored)
    {
      hide Mapped, SavedBut, Content, AllBacked, Within, Shape, GoodInode, Read, Told, Fitting, ReadSoFar, IsRead;
      WithinShape(-1);
      SizeFits(S(), ino);
      ghost var fs, c := S(), Content(S(), ino);
      ghost var d := Read(c, off, n);
      var size := inodes[ino].size;
      if off > size || (off + n) % WORDS < off {
        ReadNone(c, off, n);
        NothingRead(off, user, room);
        return 0, [];
      }
      var len := if off + n > size then size - off else n;
      ReadSome(c, off, n);
      r, stored := 0, [];
      ReadBegun(d, off, user, room);
      while r < len
        invariant S() == fs && own == old(own) && Valid() && r <= len
        invariant ReadSoFar(d, off, user, room, r, stored)
        decreases len - r
      {
        var m := InBlock(off + r, len - r);
        var piece := ReadPiece(ino, off + r, m);
        PieceOfRead(c, off, len, r, m);
        ReadMore(d, off, user, room, r, stored, m, piece);
        if user && r + m > room {
          stored := stored + piece[..room - r];
          return;
        }
        stored := stored + piece;
        r := r + m;
      }
      ReadAll(d, off, user, room, r, stored);
    }

    /** The main loop of writei, and the size: src goes to off, at most the end of the file. The
        inode may be ahead of the disk afterwards, but only if the file has grown. */
    method WriteRange(ino: nat, off: nat, src: seq<Byte>) returns (ok: bool)
      requires Valid() && ino < |inodes| && off <= inodes[ino].size && off + |src| <= MAXBYTES
      modifies this
      ensures !ok ==> forall c :: 0 <= c < sb.size ==> Used(S(), c)
      ensures ok ==> Mapped(S(), own) && SavedBut(S(), Ahead(old(inodes), ino, off, src))
      ensures ok ==> Progress(old(S()), S(), ino, off, src, |src|)
      ensures ok && off + |src| <= old(inodes[ino].size) ==> inodes == old(inodes)
    {
      ghost var fs0 := S();
      ProgressStart(fs0, ino, off, src);
      hide Mapped, SavedBut, AllBacked, Extends, Progress, BlockOf, Used, Backed;
      var tot := 0;
      while tot < |src|
        invariant tot <= |src|
        invariant Mapped(S(), own) && SavedBut(S(), Ahead(old(inodes), ino, off, src)) && ino < |inodes|
        invariant Progress(fs0, S(), ino, off, src, tot)
        invariant off + |src| <= old(inodes[ino].size) ==> inodes == old(inodes)
        decreases |src| - tot
      {
        var m := InBlock(off + tot, |src| - tot);
        ok := WritePiece(ino, off, src, tot, m, fs0);
        if !ok {
          return false;
        }
        tot := tot + m;
      }
      ok := true;
    }

    /** One turn of the loop of writei. */
    method WritePiece(ino: nat, off: nat, src: seq<Byte>, tot: nat, m: nat, ghost fs0: FS) returns (ok: bool)
      requires Mapped(S(), own) && ino < |inodes| == |fs0.inodes|
      requires SavedBut(S(), Ahead(fs0.inodes, ino, off, src))
      requires Progress(fs0, S(), ino, off, src, tot)
      requires 0 < m && tot + m <= |src| && off + |src| <= MAXBYTES && (off + tot) % BSIZE + m <= BSIZE
      modifies this
      ensures !ok ==> forall c :: 0 <= c < sb.size ==> Used(S(), c)
      ensures ok ==> Mapped(S(), own) && |inodes| == |old(inodes)|
      ensures ok ==> SavedBut(S(), Ahead(fs0.inodes, ino, off, src))
      ensures ok ==> Progress(fs0, S(), ino, off, src, tot + m)
      ensures ok && off + |src| <= fs0.inodes[ino].size ==> inodes == old(inodes)
    {
      hide Mapped, SavedBut, Extends, Progress, BlockOf, Used, Patch;
      MappedShape(S(), own);
      if off + |src| <= fs0.inodes[ino].size { ProgressBacked0(fs0, S(), ino, off, src, tot); }
      ghost var fs, ownOld := S(), own;
      var bn, at := (off + tot) / BSIZE, (off + tot) % BSIZE;
      var r := Bmap(ino, bn);
      if r.None? {
        return false;
      }
      var b := r.value;
      ghost var fs1 := S();
      ExtendsMapped(fs, ownOld, fs1, own, ino);
      ghost var x := Ahead(fs0.inodes, ino, off, src);
      if x == ino { ExtendsSaved(fs, ownOld, fs1, own, ino); }
      ProgressBmap(fs0, fs, ownOld, fs1, own, ino, off, src, tot);
      DataWrite(fs1, own, ino, bn, ZeroBlock);
      var bp := Patch(disk[b], at, src[tot..tot + m]);
      DataWrite(fs1, own, ino, bn, bp);
      DataWriteSaved(fs1, b, bp, x);
      ProgressWrite(fs0, fs1, own, ino, off, src, tot, m);
      disk := disk[b := bp];
      assert S() == WithBlock(fs1, b, bp);
      ok := true;
    }

    /** writei from a place inside the file or at its end. */
    method WriteTail(ino: nat, off: nat, src: seq<Byte>) returns (ok: bool)
      requires Valid() && ino < |inodes| && off <= inodes[ino].size && off + |src| <= MAXBYTES
      modifies this
      ensures !ok ==> forall c :: 0 <= c < sb.size ==> Used(S(), c)
      ensures ok ==> Valid() && OthersSame(old(S()), S(), ino)
      ensures ok ==> Content(S(), ino) == Written(old(Content(S(), ino)), off, src)
    {
      WithinShape(-1);
      hide Mapped, AllBacked, SavedBut, Progress, Used, Content, OthersSame, Written;
      ghost var fs0 := S();
      var size := inodes[ino].size;
      ok := WriteRange(ino, off, src);
      if !ok {
        return;
      }
      ghost var fs := S();
      MappedShape(fs, own);
      ProgressShape(fs0, fs, ino, off, src, |src|);
      if off + |src| > size {
        SaveSize(ino, off, src, fs0);
      } else {
        WriteDone(fs0, fs, own, ino, off, src, size);
        assert S() == Resized(fs, ino, size);
      }
    }

    /** The end of writei when the file has grown: the new size, and iupdate. */
    method SaveSize(ino: nat, off: nat, src: seq<Byte>, ghost fs0: FS)
      requires Progress(fs0, S(), ino, off, src, |src|) && Mapped(S(), own) && AllBacked(fs0) && SavedBut(S(), ino)
      requires off + |src| > fs0.inodes[ino].size
      modifies this
      ensures Valid() && OthersSame(fs0, S(), ino) && Content(S(), ino) == Written(Content(fs0, ino), off, src)
    {
      hide Mapped, AllBacked, SavedBut, Progress, Used, Content, OthersSame, Written, Shape;
      ghost var fs := S();
      ProgressShape(fs0, fs, ino, off, src, |src|);
      WriteDone(fs0, fs, own, ino, off, src, off + |src|);
      ResizedSaved(fs, ino, off + |src|);
      inodes := inodes[ino := inodes[ino].(size := off + |src|)];
      ghost var fs1 := S();
      assert fs1 == Resized(fs, ino, off + |src|);
      Iupdate(ino);
      OthersTwice(fs0, fs1, S(), ino);
    }

    /** writei. Recursive as the original: the gap behind the end of the file is filled by writes
        of at most 128 zeros. */
    method Writei(ino: nat, off: nat, src: seq<Byte>) returns (ok: bool, r: int)
      requires Valid() && ino < |inodes| && off < WORDS && |src| < WORDS
      modifies this
      ensures !ok ==> forall c :: 0 <= c < sb.size ==> Used(S(), c)
      ensures ok ==> Valid() && OthersSame(old(S()), S(), ino)
      ensures ok ==> r == if off + |src| > MAXBYTES then -1 else |src|
      ensures ok && (r == -1 || src == []) ==> S() == old(S())
      ensures ok && r > 0 ==> Content(S(), ino) == Written(old(Content(S(), ino)), off, src)
      decreases if off > inodes[ino].size then 1 else 0, 1
    {
      hide Mapped, AllBacked, SavedBut, Used, Content, OthersSame, Written;
      WithinShape(-1);
      OthersSelf(S(), ino);
      if (off + |src|) % WORDS < off {
        return true, -1;
      }
      if off + |src| > MAXBYTES {
        return true, -1;
      }
      if src == [] {
        return true, 0;
      }
      r := |src|;
      ghost var fs0 := S();
      if off > inodes[ino].size {
        ok := FillGap(ino, off);
        if !ok {
          return;
        }
        ghost var fs1 := S();
        ok := WriteTail(ino, off, src);
        if ok {
          OthersTwice(fs0, fs1, S(), ino);
          WrittenGap(Content(fs0, ino), off, src);
        }
      } else {
        ok := WriteTail(ino, off, src);
      }
    }

    /** The gap loop of writei. None of its writes can return anything but its length. */
    method FillGap(ino: nat, off: nat) returns (ok: bool)
      requires Valid() && ino < |inodes| && inodes[ino].size < off <= MAXBYTES
      modifies this
      ensures !ok ==> forall c :: 0 <= c < sb.size ==> Used(S(), c)
      ensures ok ==> Valid() && OthersSame(old(S()), S(), ino) && ino < |inodes| && inodes[ino].size == off
      ensures ok ==>
                Content(S(), ino) == Written(old(Content(S(), ino)), old(inodes[ino].size),
                                             Zeros(off - old(inodes[ino].size)))
      decreases 1, 0
    {
      WithinShape(-1);
      OthersSelf(S(), ino);
      hide Mapped, AllBacked, SavedBut, Used, OthersSame;
      ghost var fs0 := S();
      ghost var c := Content(fs0, ino);
      while inodes[ino].size < off
        invariant Valid() && OthersSame(fs0, S(), ino) && ino < |inodes| && inodes[ino].size <= off
        invariant Shape(S()) && Content(S(), ino) == c + Zeros(inodes[ino].size - |c|)
        invariant |c| <= inodes[ino].size
        decreases off - inodes[ino].size
      {
        var gap := off - inodes[ino].size;
        if gap > 128 {
          gap := 128;
        }
        ghost var fs1 := S();
        var r;
        ok, r := Writei(ino, inodes[ino].size, Zeros(gap));
        if !ok {
          return;
        }
        assert r == gap;
        OthersTwice(fs0, fs1, S(), ino);
        WithinShape(-1);
        assert Content(S(), ino) == Content(fs1, ino) + Zeros(gap);
      }
      ok := true;
    }

    /** bfree. Its callers here never make it panic. */
    method Bfree(b: nat)
      requires Shape(S()) && b < sb.size && Used(S(), b)
      modifies this`disk
      ensures S() == FlipUsed(old(S()), b)
    {
      BitmapBelow(S(), b);
      var at := sb.bmapstart + b / BPB;
      var bp, bi := disk[at], b % BPB;
      assert Bit(bp[bi / 8], bi % 8);   // freeing free block
      disk := disk[at := FlipBit(bp, bi)];
    }

    /** The pattern of itrunc: free block b, which slot t of the file held when itrunc began. */
    method FreeSlot(b: nat, t: Slot, ghost fs0: FS, ghost own0: map<nat, Slot>)
      requires Trunc(fs0, S(), own0, t.ino, Rank(t)) && ValidSlot(fs0, t) && b == Get(fs0, t)
      modifies this`disk, this`inodes
      ensures Trunc(fs0, S(), own0, t.ino, Rank(t) + 1) && |inodes| == |old(inodes)|
    {
      hide Mapped, Trunc, Get, Used;
      ghost var fs := S();
      TruncShape(fs0, fs, own0, t.ino, Rank(t));
      TruncStep(fs0, fs, own0, t.ino, t);
      if b != 0 { NotYetFree(fs0, fs, own0, t.ino, t); }
      TruncAddr(fs0, fs, own0, t, Rank(t));
      if b != 0 {
        Bfree(b);
        if t.Addr? {
          inodes := inodes[t.ino := inodes[t.ino].(addrs := inodes[t.ino].addrs[t.i := 0])];
        }
      }
      if b == 0 && t.Addr? {
        assert inodes[t.ino].addrs[t.i := 0] == inodes[t.ino].addrs;
      }
      assert S() == Cleared(fs, t, b);
    }

    /** itrunc. The size is 0 and every block of the file is free; no other file notices. */
    method Itrunc(ino: nat)
      requires Valid() && ino < |inodes|
      modifies this
      ensures Valid() && OthersSame(old(S()), S(), ino) && Content(S(), ino) == []
      ensures own == Others(old(own), ino)
      ensures forall c :: 0 <= c < sb.size ==>
                Used(S(), c) == (old(Used(S(), c)) && !(c in old(own) && old(own)[c].ino == ino))
    {
      hide Mapped, Trunc, AllBacked, SavedBut, Used, Content, OthersSame, Get, Others, Shape;
      WithinShape(-1);
      ghost var fs0 := S();
      TruncStart(fs0, own, ino);
      TruncDirect(ino, fs0, own);
      TruncIndirect(ino, fs0, own);
      TruncDouble(ino, fs0, own);
      SavedWeaker(fs0, ino);
      TruncFiles(fs0, S(), own, ino);
      TruncShape(fs0, S(), own, ino, LAST + 1);
      inodes := inodes[ino := inodes[ino].(size := 0)];
      own := Others(own, ino);
      ghost var fs1 := S();
      MappedShape(fs1, own);
      Iupdate(ino);
      OthersTwice(fs0, fs1, S(), ino);
    }

    method TruncDirect(ino: nat, ghost fs0: FS, ghost own0: map<nat, Slot>)
      requires Trunc(fs0, S(), own0, ino, 0) && ino < |inodes|
      modifies this`disk, this`inodes
      ensures Trunc(fs0, S(), own0, ino, NDIRECT) && ino < |inodes|
    {
      hide Mapped, Trunc, Get;
      for i := 0 to NDIRECT
        invariant Trunc(fs0, S(), own0, ino, i) && ino < |inodes|
      {
        TruncShape(fs0, S(), own0, ino, i);
        TruncAddr(fs0, S(), own0, Addr(ino, i), i);
        FreeSlot(inodes[ino].addrs[i], Addr(ino, i), fs0, own0);
      }
    }

    method TruncIndirect(ino: nat, ghost fs0: FS, ghost own0: map<nat, Slot>)
      requires Trunc(fs0, S(), own0, ino, NDIRECT) && ino < |inodes|
      modifies this`disk, this`inodes
      ensures Trunc(fs0, S(), own0, ino, DOUBLE) && ino < |inodes|
    {
      hide Mapped, Trunc, Get, Shape, Rank;
      IndirectFacts(fs0, S(), own0, ino);
      var at := inodes[ino].addrs[NDIRECT];
      if at != 0 {
        FreeEntries(ino, disk[at], Ent(ino, 0), at, fs0, own0);
        FreeSlot(at, Addr(ino, NDIRECT), fs0, own0);
      }
    }

    /** A loop of itrunc over the entries a of index block at; t is the slot of the first. */
    method FreeEntries(ino: nat, a: Block, t: Slot, ghost at: nat, ghost fs0: FS, ghost own0: map<nat, Slot>)
      requires (t == Ent(ino, 0) || (t.Second? && t == Second(ino, t.f, 0) && t.f < NINDIRECT)) && ino < |inodes|
      requires Trunc(fs0, S(), own0, ino, Rank(t)) && 0 < at < |fs0.disk| && a == fs0.disk[at]
      requires ValidSlot(fs0, Above(t)) && Get(fs0, Above(t)) == at
      modifies this`disk, this`inodes
      ensures Trunc(fs0, S(), own0, ino, Rank(t) + NINDIRECT) && ino < |inodes|
    {
      hide Mapped, Trunc, Get, Shape, Rank;
      for i := 0 to NINDIRECT
        invariant Trunc(fs0, S(), own0, ino, Rank(t) + i) && ino < |inodes|
      {
        var u := Sibling(t, i);
        SiblingFacts(fs0, S(), own0, t, i, at, a);
        FreeSlot(Word(a, i), u, fs0, own0);
      }
    }

    method TruncDouble(ino: nat, ghost fs0: FS, ghost own0: map<nat, Slot>)
      requires Trunc(fs0, S(), own0, ino, DOUBLE) && ino < |inodes|
      modifies this`disk, this`inodes
      ensures Trunc(fs0, S(), own0, ino, LAST + 1) && ino < |inodes|
    {
      hide Mapped, Trunc, Get, Shape, Rank;
      DoubleFacts(fs0, S(), own0, ino);
      var at := inodes[ino].addrs[NDIRECT + 1];
      if at != 0 {
        var a := disk[at];
        for i := 0 to NINDIRECT
          invariant Trunc(fs0, S(), own0, ino, DOUBLE + i * PER) && ino < |inodes|
        {
          FirstFacts(fs0, S(), own0, ino, i, at, a);
          TruncSecond(ino, i, Word(a, i), fs0, own0);
        }
        FreeSlot(at, Addr(ino, NDIRECT + 1), fs0, own0);
      }
    }

    /** The turn of the outer loop for one index block of the doubly indirect block. */
    method TruncSecond(ino: nat, i: nat, at: nat, ghost fs0: FS, ghost own0: map<nat, Slot>)
      requires Trunc(fs0, S(), own0, ino, DOUBLE + i * PER) && ino < |inodes| && i < NINDIRECT
      requires ValidSlot(fs0, First(ino, i)) && at == Get(fs0, First(ino, i))
      modifies this`disk, this`inodes
      ensures Trunc(fs0, S(), own0, ino, DOUBLE + (i + 1) * PER) && ino < |inodes|
    {
      hide Mapped, Trunc, Get, Shape, Rank;
      SecondFacts(fs0, S(), own0, ino, i);
      if at != 0 {
        FreeEntries(ino, disk[at], Second(ino, i, 0), at, fs0, own0);
        FreeSlot(at, First(ino, i), fs0, own0);
      }
    }

    /** sys_ftruncate, from the locked inode on; pos is the offset of the open file. A length
        beyond the largest file fails, but not before the file has grown towards it. */
    method Ftruncate(ino: nat, length: nat, pos: nat) returns (ok: bool, r: int, pos': nat)
      requires Valid() && ino < |inodes| && length < 0x8000_0000
      modifies this
      ensures !ok ==> forall c :: 0 <= c < sb.size ==> Used(S(), c)
      ensures ok ==> Valid() && OthersSame(old(S()), S(), ino)
      ensures ok ==> (r == 0 <==> TypeOf(old(inodes[ino])) == T_FILE && length <= MAXBYTES)
      ensures ok && r == 0 ==> Content(S(), ino) == Resize(old(Content(S(), ino)), length)
      ensures ok && r == 0 ==> pos' == if pos > length then length else pos
      ensures ok && r != 0 ==> r == -1 && pos' == pos
      ensures ok && TypeOf(old(inodes[ino])) != T_FILE ==> S() == old(S())
      ensures ok && r != 0 && TypeOf(old(inodes[ino])) == T_FILE ==>
                |old(Content(S(), ino))| <= MAXBYTES && Content(S(), ino) == Outgrown(old(Content(S(), ino)))
    {
      hide Mapped, AllBacked, SavedBut, Used, OthersSame, Content, Shape;
      WithinShape(-1);
      OthersSelf(S(), ino);
      NoZeros(Content(S(), ino));
      SizesFit(S());
      if TypeOf(inodes[ino]) != T_FILE {
        return true, -1, pos;
      }
      if length == 0 {
        Itrunc(ino);
        ok := true;
      } else if length > inodes[ino].size {
        ok, r := Extend(ino, length);
        if !ok || r != 0 {
          return ok, r, pos;
        }
      } else {
        Shrink(ino, length);
        ok := true;
      }
      return ok, 0, if pos > length then length else pos;
    }

    /** The shrinking branch of sys_ftruncate: the blocks behind the new size stay in the map. */
    method Shrink(ino: nat, length: nat)
      requires Valid() && ino < |inodes| && length <= inodes[ino].size
      modifies this
      ensures Valid() && OthersSame(old(S()), S(), ino) && own == old(own)
      ensures Content(S(), ino) == old(Content(S(), ino))[..length]
    {
      WithinShape(-1);
      ghost var fs0 := S();
      ShrinkFiles(fs0, own, ino, length);
      hide Mapped, AllBacked, SavedBut, Used, Content, OthersSame, Shape;
      inodes := inodes[ino := inodes[ino].(size := length)];
      ghost var fs1 := S();
      assert fs1 == Resized(fs0, ino, length);
      Iupdate(ino);
      OthersTwice(fs0, fs1, S(), ino);
    }

    /** The growing branch of sys_ftruncate: writes of at most 128 zeros at the end. */
    method Extend(ino: nat, length: nat) returns (ok: bool, r: int)
      requires Valid() && ino < |inodes| && inodes[ino].size < length < 0x8000_0000
      modifies this
      ensures !ok ==> forall c :: 0 <= c < sb.size ==> Used(S(), c)
      ensures ok ==> Valid() && OthersSame(old(S()), S(), ino)
      ensures ok ==> r == if length <= MAXBYTES then 0 else -1
      ensures ok && r == 0 ==> Content(S(), ino) == old(Content(S(), ino)) + Zeros(length - old(inodes[ino].size))
      ensures ok && r != 0 ==> |old(Content(S(), ino))| <= MAXBYTES && Content(S(), ino) == Outgrown(old(Content(S(), ino)))
    {
      hide Mapped, AllBacked, SavedBut, Used, OthersSame, Content, Shape;
      WithinShape(-1);
      OthersSelf(S(), ino);
      SizesFit(S());
      ghost var fs0 := S();
      ghost var c := Content(fs0, ino);
      NoZeros(c);
      while inodes[ino].size < length
        invariant Valid() && OthersSame(fs0, S(), ino) && ino < |inodes| && inodes[ino].size <= length
        invariant Shape(S()) && |c| <= inodes[ino].size <= MAXBYTES
        invariant Content(S(), ino) == c + Zeros(inodes[ino].size - |c|)
        invariant inodes[ino].size == length || (inodes[ino].size - |c|) % 128 == 0
        decreases length - inodes[ino].size
      {
        var n := length - inodes[ino].size;
        if n > 128 {
          n := 128;
        }
        ghost var fs1 := S();
        var size := inodes[ino].size;
        ok, r := Writei(ino, size, Zeros(n));
        if !ok {
          return;
        }
        OthersTwice(fs0, fs1, S(), ino);
        if r != n {
          OutgrownIs(c, size, n, length);
          return true, -1;
        }
        WithinShape(-1);
        AppendZeros(Content(fs1, ino), c, size - |c|, n);
      }
      ok, r := true, 0;
    }

    lemma WithinShape(x: int)
      requires Within(x)
      ensures Shape(S())
    {}

    /** One turn of the loop of readi. */
    method ReadPiece(ino: nat, at: nat, m: nat) returns (piece: seq<Byte>)
      requires Valid() && ino < |inodes| && at % BSIZE + m <= BSIZE && 0 < m && at + m <= inodes[ino].size
      modifies this
      ensures S() == old(S()) && own == old(own) && Valid()
      ensures piece == Content(S(), ino)[at..at + m]
    {
      hide Mapped, SavedBut, Extends, Used, Content, AllBacked, BlockOf;
      PieceOf(S(), own, ino, at);
      MappedShape(S(), own);
      var r := Bmap(ino, at / BSIZE);
      var bp := disk[r.value];
      PieceIs(S(), ino, at, m);
      piece := bp[at % BSIZE..at % BSIZE + m];
    }
  }

  /** What a read of n bytes at off returns, for 32-bit off and n: nothing behind the end of the
      file or when off + n wraps. */
  function Read(c: seq<Byte>, off: nat, n: nat): seq<Byte>
  {
    if off > |c| || off + n >= WORDS then []
    else if off + n > |c| then c[off..] else c[off..off + n]
  }

  /** iput has given file x up: its blocks are free and its inode is, and nothing else changed. */
  ghost predicate Released(fs0: FS, own0: map<nat, Slot>, fs: FS, own: map<nat, Slot>, x: nat)
  {
    && Shape(fs0) && Shape(fs) && x < |fs.inodes| == |fs0.inodes| && fs.sb == fs0.sb
    && TypeOf(fs.inodes[x]) == 0 && Empty(fs.inodes[x]) && own == Others(own0, x)
    && (forall i :: 0 <= i < |fs.inodes| && i != x ==>
          fs.inodes[i] == fs0.inodes[i] && Content(fs, i) == Content(fs0, i))
    && (forall c :: 0 <= c < fs.sb.size ==> Used(fs, c) == (Used(fs0, c) && !(c in own0 && own0[c].ino == x)))
  }

  /** iput keeps free inodes empty. */
  lemma ReleasedEmpty(fs0: FS, own0: map<nat, Slot>, fs: FS, own: map<nat, Slot>, x: nat)
    requires Released(fs0, own0, fs, own, x) && FreeEmpty(fs0)
    ensures FreeEmpty(fs)
  {
    hide Shape, Content, Used;
  }

  lemma OthersInside(fs0: FS, fs: FS, x: nat)
    requires OthersSame(fs0, fs, x) && x < |fs0.inodes|
    ensures Shape(fs0) && Shape(fs) && x < |fs.inodes| == |fs0.inodes| && GoodInode(fs.inodes[x])
  {}

  lemma ReleasedIs(fs0: FS, own0: map<nat, Slot>, fs1: FS, fs: FS, own: map<nat, Slot>, x: nat, head: nat)
    requires OthersSame(fs0, fs1, x) && Mapped(fs, own) && x < |fs1.inodes| && fs.sb == fs1.sb == fs0.sb
    requires own == Others(own0, x) && Content(fs1, x) == [] && head == fs1.inodes[x].head - TypeOf(fs1.inodes[x])
    requires fs.inodes == fs1.inodes[x := fs1.inodes[x].(head := head)]
    requires forall i :: 0 <= i < |fs1.inodes| ==> Content(fs, i) == Content(fs1, i)
    requires forall c :: 0 <= c < fs.sb.size ==> Used(fs, c) == Used(fs1, c)
    requires forall c :: 0 <= c < fs.sb.size ==> Used(fs1, c) == (Used(fs0, c) && !(c in own0 && own0[c].ino == x))
    ensures Released(fs0, own0, fs, own, x)
  {
    NoneHeld(fs, own, x);
    hide Mapped, Content, Used, Shape;
  }

  /** What readi returns for len bytes at off from byte tot on: it counts the parts in blocks of which
      all of the bytes had room. */
  function Told(len: nat, off: nat, room: nat, tot: nat): nat
    requires tot <= len
    decreases len - tot
  {
    if tot == len then tot
    else
      var m := InBlock(off + tot, len - tot);
      if tot + m > room then tot else Told(len, off, room, tot + m)
  }

  /** It tells no more than was stored, and all of it if there was room. */
  lemma {:induction false} ToldStored(len: nat, off: nat, room: nat, tot: nat)
    requires tot <= len && tot <= room
    ensures Told(len, off, room, tot) <= len && Told(len, off, room, tot) <= room
    ensures Told(len, off, room, tot) == len <==> len <= room
    decreases len - tot
  {
    if tot < len && tot + InBlock(off + tot, len - tot) <= room { ToldStored(len, off, room, tot + InBlock(off + tot, len - tot)); }
  }

  /** What is stored of the bytes c. */
  function Fitting(c: seq<Byte>, user: bool, room: nat): seq<Byte>
  {
    if user && room < |c| then c[..room] else c
  }

  /** What readi has stored and returns, where the bytes asked for are c. */
  predicate IsRead(c: seq<Byte>, off: nat, user: bool, room: nat, r: nat, stored: seq<Byte>)
  {
    stored == Fitting(c, user, room) && r == if user then Told(|c|, off, room, 0) else |c|
  }

  /** ... when it has come to byte r. */
  predicate ReadSoFar(c: seq<Byte>, off: nat, user: bool, room: nat, r: nat, stored: seq<Byte>)
  {
    && r <= |c| && stored == c[..r]
    && (user ==> r <= room && Told(|c|, off, room, 0) == Told(|c|, off, room, r))
  }

  lemma NothingRead(off: nat, user: bool, room: nat)
    ensures IsRead([], off, user, room, 0, [])
  {}

  lemma ReadBegun(c: seq<Byte>, off: nat, user: bool, room: nat)
    ensures ReadSoFar(c, off, user, room, 0, [])
  {}

  lemma ReadMore(c: seq<Byte>, off: nat, user: bool, room: nat, r: nat, stored: seq<Byte>, m: nat, piece: seq<Byte>)
    requires r < |c| && ReadSoFar(c, off, user, room, r, stored) && m == InBlock(off + r, |c| - r)
    requires r + m <= |c| && piece == c[r..r + m]
    ensures user && r + m > room ==> r <= room && IsRead(c, off, user, room, r, stored + piece[..room - r])
    ensures !(user && r + m > room) ==> ReadSoFar(c, off, user, room, r + m, stored + piece)
  {
    if user && r + m > room {
      var d := stored + piece[..room - r];
      forall k | 0 <= k < room ensures d[k] == c[k] { if k >= r { assert d[k] == piece[k - r]; } }
      assert d == c[..room];
    }
  }

  lemma ReadAll(c: seq<Byte>, off: nat, user: bool, room: nat, r: nat, stored: seq<Byte>)
    requires ReadSoFar(c, off, user, room, r, stored) && r == |c|
    ensures IsRead(c, off, user, room, r, stored)
  {}

  lemma SizeFits(fs: FS, ino: nat)
    requires Shape(fs) && ino < |fs.inodes|
    ensures fs.inodes[ino].size < WORDS
  {}

  lemma PieceOfRead(c: seq<Byte>, off: nat, len: nat, r: nat, m: nat)
    requires off + len <= |c| && r + m <= len
    ensures c[off..off + len][r..r + m] == c[off + r..off + r + m]
  {
    var d, e := c[off..off + len][r..r + m], c[off + r..off + r + m];
    forall k | 0 <= k < m ensures d[k] == e[k] { assert d[k] == c[off..off + len][r + k] == c[off + r + k]; }
  }

  lemma OthersSelf(fs: FS, x: nat)
    requires Shape(fs)
    ensures OthersSame(fs, fs, x)
  {}

  lemma ProgressShape(fs0: FS, fs: FS, x: nat, off: nat, src: seq<Byte>, tot: nat)
    requires Progress(fs0, fs, x, off, src, tot)
    ensures Shape(fs0) && Shape(fs) && x < |fs.inodes| == |fs0.inodes|
    ensures fs.inodes[x].size == fs0.inodes[x].size
  {}

  /** During itrunc an address whose turn has not come is still in the inode. */
  lemma TruncAddr(fs0: FS, fs: FS, own: map<nat, Slot>, t: Slot, p: nat)
    requires Trunc(fs0, fs, own, t.ino, p) && ValidSlot(fs0, t) && p <= Rank(t)
    ensures t.Addr? ==> t.i < |fs.inodes[t.ino].addrs| && fs.inodes[t.ino].addrs[t.i] == Get(fs0, t)
  {}

  /** During itrunc the index blocks keep their entries. */
  lemma IndexKept(fs0: FS, fs: FS, own: map<nat, Slot>, x: nat, p: nat, t: Slot)
    requires Trunc(fs0, fs, own, x, p) && ValidSlot(fs0, t) && Get(fs0, t) != 0
    ensures Get(fs0, t) < |fs.disk| == |fs0.disk| && fs.disk[Get(fs0, t)] == fs0.disk[Get(fs0, t)]
  {
    IndexHeld(fs0, own, t);
    HeldOf(fs0, own, Get(fs0, t));
  }

  lemma EntryIs(fs: FS, t: Slot, at: nat, a: Block)
    requires Shape(fs) && ValidSlot(fs, t) && !t.Addr? && ValidSlot(fs, Above(t))
    requires Get(fs, Above(t)) == at && 0 < at < |fs.disk| && fs.disk[at] == a
    ensures Index(t) < NINDIRECT && Get(fs, t) == Word(a, Index(t))
  {
    GetAbove(fs, t);
  }

  const T_FILE := 2

  /** The file cut or filled up to a length. */
  function Resize(c: seq<Byte>, length: nat): (r: seq<Byte>)
    ensures |r| == length
  {
    if length <= |c| then c[..length] else c + Zeros(length - |c|)
  }

  /** What has become of a file when ftruncate fails to make it longer than the largest file. */
  function Outgrown(c: seq<Byte>): seq<Byte>
    requires |c| <= MAXBYTES
  {
    c + Zeros((MAXBYTES - |c|) / 128 * 128)
  }

  lemma OutgrownIs(c: seq<Byte>, size: nat, n: nat, length: nat)
    requires |c| <= size <= MAXBYTES < size + n && (size - |c|) % 128 == 0 && n <= 128
    ensures c + Zeros(size - |c|) == Outgrown(c)
  {
    assert (MAXBYTES - |c|) / 128 == (size - |c|) / 128;
  }

  /** The failure leaves the file as it was if and only if less than 128 bytes are missing to the
      largest file. */
  lemma OutgrownSameIff(c: seq<Byte>)
    requires |c| <= MAXBYTES
    ensures Outgrown(c) == c <==> |c| > MAXBYTES - 128
  {
    assert |Outgrown(c)| == |c| + (MAXBYTES - |c|) / 128 * 128;
    NoZeros(c);
  }

  /** An empty file grows to the largest. */
  lemma OutgrownEmpty()
    ensures Outgrown([]) == Zeros(MAXBYTES) != []
  {
    assert |Zeros(MAXBYTES)| == MAXBYTES;
    assert MAXBYTES / 128 * 128 == MAXBYTES;
  }

  /** A file that shrank and grew again shows zeros where it had been cut. */
  lemma ShrinkThenGrow(c: seq<Byte>, k: nat, l: nat)
    requires k <= |c| && k <= l
    ensures Resize(Resize(c, k), l)[..k] == c[..k] && Resize(Resize(c, k), l)[k..] == Zeros(l - k)
  {
    assert Resize(c, k) == c[..k];
  }

  lemma NoZeros(c: seq<Byte>)
    ensures c + Zeros(0) == c
  {}

  lemma AppendZeros(now: seq<Byte>, c: seq<Byte>, k: nat, n: nat)
    requires now == c + Zeros(k)
    ensures Written(now, |now|, Zeros(n)) == c + Zeros(k + n)
  {}

  lemma ShrinkFiles(fs: FS, own: map<nat, Slot>, x: nat, length: nat)
    requires Mapped(fs, own) && AllBacked(fs) && SavedBut(fs, -1)
    requires x < |fs.inodes| && length <= fs.inodes[x].size
    ensures var fs' := Resized(fs, x, length);
            && Mapped(fs', own) && AllBacked(fs') && SavedBut(fs', x) && OthersSame(fs, fs', x)
            && Content(fs', x) == Content(fs, x)[..length]
  {
    ResizedMapped(fs, own, x, length);
    SavedWeaker(fs, x);
    ResizedSaved(fs, x, length);
    var fs' := Resized(fs, x, length);
    hide Mapped, Get, SavedBut;
    forall i | 0 <= i < |fs.inodes| ensures Backed(fs', i) {
      assert Backed(fs, i);
      forall bn | 0 <= bn < MAXFILE && bn * BSIZE < fs'.inodes[i].size ensures BlockOf(fs', i, bn) != 0 {
        assert BlockOf(fs, i, bn) != 0;
      }
    }
  }

  function Sibling(t: Slot, i: nat): Slot
    requires t.Ent? || t.Second?
  {
    if t.Ent? then t.(j := i) else t.(s := i)
  }

  lemma SiblingFacts(fs0: FS, fs: FS, own: map<nat, Slot>, t: Slot, i: nat, at: nat, a: Block)
    requires (t.Ent? && t.j == 0) || (t.Second? && t.s == 0 && t.f < NINDIRECT)
    requires i < NINDIRECT && Trunc(fs0, fs, own, t.ino, Rank(t) + i)
    requires 0 < at < |fs0.disk| && a == fs0.disk[at]
    requires ValidSlot(fs0, Above(t)) && Get(fs0, Above(t)) == at
    ensures var u := Sibling(t, i);
            ValidSlot(fs0, u) && u.ino == t.ino && Get(fs0, u) == Word(a, i) && Rank(u) == Rank(t) + i
  {
    EntryIs(fs0, Sibling(t, i), at, a);
  }

  lemma IndirectFacts(fs0: FS, fs: FS, own: map<nat, Slot>, x: nat)
    requires Trunc(fs0, fs, own, x, NDIRECT)
    ensures Shape(fs0) && x < |fs.inodes| && |fs.inodes[x].addrs| == NDIRECT + 2
    ensures var at := fs.inodes[x].addrs[NDIRECT];
            && ValidSlot(fs0, Addr(x, NDIRECT)) && at == Get(fs0, Addr(x, NDIRECT))
            && (at == 0 ==> Trunc(fs0, fs, own, x, DOUBLE))
            && (at != 0 ==> at < |fs.disk| == |fs0.disk| && fs.disk[at] == fs0.disk[at])
    ensures Rank(Ent(x, 0)) == NDIRECT && Rank(Addr(x, NDIRECT)) == NDIRECT + NINDIRECT == DOUBLE - 1
  {
    TruncShape(fs0, fs, own, x, NDIRECT);
    TruncAddr(fs0, fs, own, Addr(x, NDIRECT), NDIRECT);
    if fs.inodes[x].addrs[NDIRECT] == 0 { NoIndirect(fs0, fs, own, x); } else { IndexKept(fs0, fs, own, x, NDIRECT, Addr(x, NDIRECT)); }
  }

  lemma DoubleFacts(fs0: FS, fs: FS, own: map<nat, Slot>, x: nat)
    requires Trunc(fs0, fs, own, x, DOUBLE)
    ensures Shape(fs0) && x < |fs.inodes| && |fs.inodes[x].addrs| == NDIRECT + 2
    ensures var at := fs.inodes[x].addrs[NDIRECT + 1];
            && ValidSlot(fs0, Addr(x, NDIRECT + 1)) && at == Get(fs0, Addr(x, NDIRECT + 1))
            && (at == 0 ==> Trunc(fs0, fs, own, x, LAST + 1))
            && (at != 0 ==> at < |fs.disk| == |fs0.disk| && fs.disk[at] == fs0.disk[at])
    ensures Rank(Addr(x, NDIRECT + 1)) == DOUBLE + NINDIRECT * PER == LAST
  {
    TruncShape(fs0, fs, own, x, DOUBLE);
    TruncAddr(fs0, fs, own, Addr(x, NDIRECT + 1), DOUBLE);
    if fs.inodes[x].addrs[NDIRECT + 1] == 0 { NoDouble(fs0, fs, own, x); } else { IndexKept(fs0, fs, own, x, DOUBLE, Addr(x, NDIRECT + 1)); }
  }

  lemma FirstFacts(fs0: FS, fs: FS, own: map<nat, Slot>, x: nat, i: nat, at: nat, a: Block)
    requires Trunc(fs0, fs, own, x, DOUBLE + i * PER) && i < NINDIRECT && 0 < at < |fs0.disk| && a == fs0.disk[at]
    requires ValidSlot(fs0, Addr(x, NDIRECT + 1)) && Get(fs0, Addr(x, NDIRECT + 1)) == at
    ensures ValidSlot(fs0, First(x, i)) && Get(fs0, First(x, i)) == Word(a, i)
  {
    EntryIs(fs0, First(x, i), at, a);
  }

  lemma SecondFacts(fs0: FS, fs: FS, own: map<nat, Slot>, x: nat, i: nat)
    requires Trunc(fs0, fs, own, x, DOUBLE + i * PER) && ValidSlot(fs0, First(x, i))
    ensures var at := Get(fs0, First(x, i));
            && (at == 0 ==> Trunc(fs0, fs, own, x, DOUBLE + (i + 1) * PER))
            && (at != 0 ==> at < |fs.disk| == |fs0.disk| && fs.disk[at] == fs0.disk[at])
    ensures Rank(Second(x, i, 0)) == DOUBLE + i * PER
    ensures Rank(First(x, i)) == DOUBLE + i * PER + NINDIRECT == DOUBLE + (i + 1) * PER - 1
  {
    if Get(fs0, First(x, i)) == 0 { NoSecond(fs0, fs, own, x, i); } else { IndexKept(fs0, fs, own, x, DOUBLE + i * PER, First(x, i)); }
  }

  lemma NoIndirect(fs0: FS, fs: FS, own: map<nat, Slot>, x: nat)
    requires Trunc(fs0, fs, own, x, NDIRECT) && fs0.inodes[x].addrs[NDIRECT] == 0
    ensures Trunc(fs0, fs, own, x, DOUBLE)
  {
    forall t | ValidSlot(fs0, t) && t.ino == x && NDIRECT <= Rank(t) < DOUBLE ensures Get(fs0, t) == 0 {
      RankRange(fs0, t);
    }
    TruncSkip(fs0, fs, own, x, NDIRECT, DOUBLE);
  }

  lemma NoDouble(fs0: FS, fs: FS, own: map<nat, Slot>, x: nat)
    requires Trunc(fs0, fs, own, x, DOUBLE) && fs0.inodes[x].addrs[NDIRECT + 1] == 0
    ensures Trunc(fs0, fs, own, x, LAST + 1)
  {
    forall t | ValidSlot(fs0, t) && t.ino == x && DOUBLE <= Rank(t) < LAST + 1 ensures Get(fs0, t) == 0 {
      RankRange(fs0, t);
    }
    TruncSkip(fs0, fs, own, x, DOUBLE, LAST + 1);
  }

  lemma NoSecond(fs0: FS, fs: FS, own: map<nat, Slot>, x: nat, f: nat)
    requires Trunc(fs0, fs, own, x, DOUBLE + f * PER) && ValidSlot(fs0, First(x, f))
    requires Get(fs0, First(x, f)) == 0
    ensures Trunc(fs0, fs, own, x, DOUBLE + (f + 1) * PER)
  {
    forall t | ValidSlot(fs0, t) && t.ino == x && DOUBLE + f * PER <= Rank(t) < DOUBLE + (f + 1) * PER
      ensures Get(fs0, t) == 0
    {
      RankOfSecond(fs0, t, f);
    }
    TruncSkip(fs0, fs, own, x, DOUBLE + f * PER, DOUBLE + (f + 1) * PER);
  }

  lemma RankOfSecond(fs: FS, t: Slot, f: nat)
    requires ValidSlot(fs, t) && f < NINDIRECT && DOUBLE + f * PER <= Rank(t) < DOUBLE + (f + 1) * PER
    ensures (t.First? || t.Second?) && t.f == f
  {
    RankRange(fs, t);
  }

  lemma SavedWeaker(fs: FS, x: int)
    requires SavedBut(fs, -1)
    ensures SavedBut(fs, x)
  {}

  /** The inode that a write leaves ahead of the disk until iupdate: the file's, if it grows. */
  function Ahead(inodes: seq<Inode>, ino: nat, off: nat, src: seq<Byte>): int
    requires ino < |inodes|
  {
    if off + |src| > inodes[ino].size then ino else -1
  }

  lemma ProgressBacked0(fs0: FS, fs: FS, x: nat, off: nat, src: seq<Byte>, tot: nat)
    requires Progress(fs0, fs, x, off, src, tot) && off + tot < fs0.inodes[x].size
    ensures off + tot < MAXBYTES && BlockOf(fs, x, (off + tot) / BSIZE) != 0
  {
    assert NewByte(fs0, fs, x, off, src, tot, off + tot);
  }

  /** min(n, BSIZE - off % BSIZE) */
  function InBlock(off: nat, n: nat): (m: nat)
    requires n > 0
    ensures 0 < m <= n && off % BSIZE + m <= BSIZE
  {
    if n < BSIZE - off % BSIZE then n else BSIZE - off % BSIZE
  }

  lemma ReadNone(c: seq<Byte>, off: nat, n: nat)
    requires off < WORDS && n < WORDS && |c| < WORDS && (off > |c| || (off + n) % WORDS < off)
    ensures Read(c, off, n) == []
  {}

  lemma ReadSome(c: seq<Byte>, off: nat, n: nat)
    requires off < WORDS && n < WORDS && |c| < WORDS && off <= |c| && (off + n) % WORDS >= off
    ensures var len := if off + n > |c| then |c| - off else n; Read(c, off, n) == c[off..off + len]
  {}

  lemma Joined<T>(c: seq<T>, i: nat, j: nat, k: nat)
    requires i <= j <= k <= |c|
    ensures c[i..j] + c[j..k] == c[i..k]
  {}

  lemma SizesFit(fs: FS)
    requires Shape(fs) && AllBacked(fs)
    ensures forall i :: 0 <= i < |fs.inodes| ==> fs.inodes[i].size <= MAXBYTES
  {
    forall i | 0 <= i < |fs.inodes| ensures fs.inodes[i].size <= MAXBYTES { assert Backed(fs, i); }
  }

  lemma PieceOf(fs: FS, own: map<nat, Slot>, ino: nat, at: nat)
    requires Mapped(fs, own) && AllBacked(fs) && ino < |fs.inodes| && at < fs.inodes[ino].size
    ensures at / BSIZE < MAXFILE && 0 < BlockOf(fs, ino, at / BSIZE) < |fs.disk|
  {
    BackedByte(fs, ino, at);
    DataSlotValid(fs, ino, at / BSIZE);
    IndexHeld(fs, own, DataSlot(ino, at / BSIZE));
  }

  /** Consecutive bytes of a file inside one block are consecutive bytes of that block. */
  lemma PieceIs(fs: FS, ino: nat, at: nat, m: nat)
    requires Shape(fs) && ino < |fs.inodes|
    requires at + m <= fs.inodes[ino].size && at % BSIZE + m <= BSIZE && at / BSIZE < MAXFILE
    requires BlockOf(fs, ino, at / BSIZE) < |fs.disk|
    ensures Content(fs, ino)[at..at + m] ==
            fs.disk[BlockOf(fs, ino, at / BSIZE)][at % BSIZE..at % BSIZE + m]
  {
    var bp, o := fs.disk[BlockOf(fs, ino, at / BSIZE)], at % BSIZE;
    var c := Content(fs, ino);
    hide Content, BlockOf;
    var piece, part := c[at..at + m], bp[o..o + m];
    forall k | 0 <= k < m ensures piece[k] == part[k] { PieceByte(fs, ino, at, k); }
  }

  lemma PieceByte(fs: FS, ino: nat, at: nat, k: nat)
    requires Shape(fs) && ino < |fs.inodes|
    requires at + k < fs.inodes[ino].size && at % BSIZE + k < BSIZE && at / BSIZE < MAXFILE
    requires BlockOf(fs, ino, at / BSIZE) < |fs.disk|
    ensures Content(fs, ino)[at + k] == fs.disk[BlockOf(fs, ino, at / BSIZE)][at % BSIZE + k]
  {
    hide BlockOf;
    assert at + k == at / BSIZE * BSIZE + (at % BSIZE + k);
    assert (at + k) / BSIZE == at / BSIZE && (at + k) % BSIZE == at % BSIZE + k;
  }

  /** A file block that is there has its index blocks, too. */
  lemma DataSlotBelow(fs: FS, ino: nat, bn: nat)
    requires Shape(fs) && ino < |fs.inodes| && bn < MAXFILE
    ensures BlockOf(fs, ino, bn) != 0 ==>
              match DataSlot(ino, bn)
              case Addr(_, _) => true
              case Ent(_, _) => Get(fs, Addr(ino, NDIRECT)) != 0
              case Second(_, f, _) => Get(fs, Addr(ino, NDIRECT + 1)) != 0 && Get(fs, First(ino, f)) != 0
              case First(_, _) => true
  {}

  lemma TakeIsBallocd(fs: FS, own: map<nat, Slot>, b: nat)
    requires Mapped(fs, own) && b < fs.sb.size && !Used(fs, b)
    ensures fs.sb.bmapstart + b / BPB < |fs.disk|
    ensures var fs1 := FlipUsed(fs, b); Ballocd(fs, own, fs1.(disk := fs1.disk[b := ZeroBlock]), b)
  {
    BitmapBelow(fs, b);
    assert b >= fs.sb.datastart;
    var fs1 := FlipUsed(fs, b);
    var fs2 := fs1.(disk := fs1.disk[b := ZeroBlock]);
    hide Mapped, Get;
    forall c | 0 <= c < fs.sb.size ensures Used(fs2, c) == (c == b || Used(fs, c)) {
      BitmapBelow(fs, c);
      UsedOfFlip(fs, b, c);
      UsedSame(fs1, fs2, c);
    }
  }

  lemma MappedShape(fs: FS, own: map<nat, Slot>)
    requires Mapped(fs, own)
    ensures Shape(fs)
  {}

  lemma BallocdRange(fs: FS, own: map<nat, Slot>, fs': FS, b: nat)
    requires Ballocd(fs, own, fs', b)
    ensures 0 < b < WORDS && fs'.sb == fs.sb && fs'.inodes == fs.inodes && |fs'.disk| == |fs.disk|
  {}

  lemma IndexHeld(fs: FS, own: map<nat, Slot>, t: Slot)
    requires Mapped(fs, own) && ValidSlot(fs, t) && Get(fs, t) != 0
    ensures Get(fs, t) < |fs.disk| && Get(fs, t) in own && own[Get(fs, t)] == t
  {
    assert Held(fs, t, Get(fs, t));
  }

  /** balloc leaves the index block of slot t alone. */
  lemma BallocdKeeps(fs: FS, own: map<nat, Slot>, fs': FS, b: nat, t: Slot)
    requires Ballocd(fs, own, fs', b) && ValidSlot(fs, t) && !t.Addr?
    requires ValidSlot(fs, Above(t)) && Get(fs, Above(t)) != 0
    ensures ValidSlot(fs', Above(t)) && Get(fs', Above(t)) == Get(fs, Above(t))
    ensures Get(fs, Above(t)) < |fs.disk| == |fs'.disk|
    ensures fs'.disk[Get(fs, Above(t))] == fs.disk[Get(fs, Above(t))]
  {
    BallocdIndex(fs, own, fs', b);
    GetSame(fs, fs', own, Above(t));
    IndexHeld(fs, own, Above(t));
    GetAbove(fs, t);
  }

  lemma ExtendsMapped(fs: FS, own: map<nat, Slot>, fs': FS, own': map<nat, Slot>, x: nat)
    requires Extends(fs, own, fs', own', x)
    ensures Mapped(fs', own') && |fs'.inodes| == |fs.inodes|
    ensures forall t :: ValidSlot(fs, t) && Get(fs, t) != 0 ==> Get(fs', t) == Get(fs, t)
  {}

  lemma SameBitmapBlock(b: nat, bi: nat)
    requires b % BPB == 0 && bi < BPB
    ensures (b + bi) / BPB == b / BPB && (b + bi) % BPB == bi
  {}
}
