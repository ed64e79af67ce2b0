/** What bmap may do to a file system: put fresh, zeroed blocks into empty slots of one file. */
module FsExtend {
  import opened FsBlock
  import opened FsMap
  import opened FsFile

  /** Everything but bits, index blocks and blocks outside the map is as before, and no slot of
      any file that held a block has changed. */
  ghost predicate Extends(fs: FS, own: map<nat, Slot>, fs': FS, own': map<nat, Slot>, x: nat)
  {
    && Mapped(fs, own) && Mapped(fs', own') && fs'.sb == fs.sb
    && (forall i :: 0 <= i < |fs.inodes| ==>
          fs'.inodes[i] == fs.inodes[i].(addrs := fs'.inodes[i].addrs) && (i != x ==> fs'.inodes[i] == fs.inodes[i]))
    && (forall t :: ValidSlot(fs, t) && Get(fs, t) != 0 ==> Get(fs', t) == Get(fs, t))
    && (forall b :: b in own && IsData(own[b]) && b < |fs.disk| ==> fs'.disk[b] == fs.disk[b])
    && (forall b :: 0 <= b < fs.sb.bmapstart ==> fs'.disk[b] == fs.disk[b])
  }

  lemma ExtendsSelf(fs: FS, own: map<nat, Slot>, x: nat)
    requires Mapped(fs, own)
    ensures Extends(fs, own, fs, own, x)
  {}

  lemma ExtendsTwice(fs: FS, own: map<nat, Slot>, fs1: FS, own1: map<nat, Slot>,
                     fs2: FS, own2: map<nat, Slot>, x: nat)
    requires Extends(fs, own, fs1, own1, x) && Extends(fs1, own1, fs2, own2, x)
    ensures Extends(fs, own, fs2, own2, x)
  {
    forall b | b in own && IsData(own[b]) && b < |fs.disk| ensures fs2.disk[b] == fs.disk[b] {
      ExtendsOwn(fs, own, fs1, own1, x, b);
    }
  }

  lemma ExtendsOwn(fs: FS, own: map<nat, Slot>, fs': FS, own': map<nat, Slot>, x: nat, b: nat)
    requires Extends(fs, own, fs', own', x) && b in own
    ensures b in own' && own'[b] == own[b]
  {
    assert Held(fs, own[b], b);
    assert Get(fs', own[b]) == b;
  }

  /** No byte of a block that was there changes. */
  lemma ExtendsByte(fs: FS, own: map<nat, Slot>, fs': FS, own': map<nat, Slot>, x: nat,
                    ino: nat, off: nat)
    requires Extends(fs, own, fs', own', x) && ino < |fs.inodes| && off < MAXBYTES
    requires BlockOf(fs, ino, off / BSIZE) != 0
    ensures BlockOf(fs', ino, off / BSIZE) == BlockOf(fs, ino, off / BSIZE)
    ensures ByteAt(fs', ino, off) == ByteAt(fs, ino, off)
  {
    DataSlotValid(fs, ino, off / BSIZE);
    var t := DataSlot(ino, off / BSIZE);
    assert Get(fs, t) in own && own[Get(fs, t)] == t;
  }

  lemma ExtendsContent(fs: FS, own: map<nat, Slot>, fs': FS, own': map<nat, Slot>, x: nat, ino: nat)
    requires Extends(fs, own, fs', own', x) && ino < |fs.inodes| && Backed(fs, ino)
    ensures fs'.inodes[ino].size == fs.inodes[ino].size && Content(fs', ino) == Content(fs, ino)
  {
    forall off | 0 <= off < fs.inodes[ino].size ensures ByteAt(fs', ino, off) == ByteAt(fs, ino, off) {
      assert off / BSIZE * BSIZE <= off;
      assert BlockOf(fs, ino, off / BSIZE) != 0;
      ExtendsByte(fs, own, fs', own', x, ino, off);
    }
  }

  lemma ExtendsSaved(fs: FS, own: map<nat, Slot>, fs': FS, own': map<nat, Slot>, x: nat)
    requires Extends(fs, own, fs', own', x) && SavedBut(fs, x)
    ensures SavedBut(fs', x)
  {
    forall ino | 0 <= ino < |fs'.inodes| && ino != x ensures OnDisk(fs', ino) {
      assert OnDisk(fs, ino);
      InodeBlockBelow(fs, ino);
    }
  }

  lemma InodeBlockBelow(fs: FS, ino: nat)
    requires Shape(fs) && ino < |fs.inodes|
    ensures InodeBlock(fs, ino) < fs.sb.bmapstart < fs.sb.datastart <= |fs.disk|
  {
    assert ino / IPB <= (fs.sb.ninodes - 1) / IPB;
    assert (fs.sb.ninodes - 1) / IPB + 1 == (fs.sb.ninodes + IPB - 1) / IPB;
    assert fs.sb.size > 0 ==> (fs.sb.size + BPB - 1) / BPB >= 1;
  }

  /** The state after balloc returned b. */
  ghost predicate Ballocd(fs: FS, own: map<nat, Slot>, fs': FS, b: nat)
  {
    && Mapped(fs, own) && Shape(fs') && fs'.sb == fs.sb && fs'.inodes == fs.inodes
    && fs.sb.datastart <= b < fs.sb.size && !Used(fs, b) && fs'.disk[b] == ZeroBlock
    && (forall c :: 0 <= c < fs.sb.size ==> Used(fs', c) == (c == b || Used(fs, c)))
    && (forall c :: fs.sb.datastart <= c < fs.sb.size && c != b ==> fs'.disk[c] == fs.disk[c])
    && (forall c :: 0 <= c < fs.sb.bmapstart ==> fs'.disk[c] == fs.disk[c])
  }

  lemma BallocdFresh(fs: FS, own: map<nat, Slot>, fs': FS, t: Slot, b: nat)
    requires Ballocd(fs, own, fs', b) && ValidSlot(fs, t) && Get(fs, t) == 0
    requires !t.Addr? ==> ValidSlot(fs, Above(t)) && Get(fs, Above(t)) != 0
    ensures Fresh(fs', own, t, b) && Used(fs', b)
    ensures SameIndex(fs, fs', own)
  {
    hide Mapped, Get, SameIndex;
    if b in own { NotFree(fs, own, b); }
    BallocdMapped(fs, own, fs', b);
    BallocdIndex(fs, own, fs', b);
    GetSame(fs, fs', own, t);
    if !t.Addr? { GetSame(fs, fs', own, Above(t)); }
  }

  lemma BallocdIndex(fs: FS, own: map<nat, Slot>, fs': FS, b: nat)
    requires Ballocd(fs, own, fs', b)
    ensures SameIndex(fs, fs', own)
  {
    forall c | c in own && !IsData(own[c]) && c < |fs.disk| ensures fs'.disk[c] == fs.disk[c] {
      assert Held(fs, own[c], c);
    }
  }

  lemma NotFree(fs: FS, own: map<nat, Slot>, b: nat)
    requires Mapped(fs, own) && b in own
    ensures Used(fs, b)
  {
    assert Held(fs, own[b], b);
  }

  lemma BallocdMapped(fs: FS, own: map<nat, Slot>, fs': FS, b: nat)
    requires Ballocd(fs, own, fs', b)
    ensures Mapped(fs', own)
  {
    hide SameIndex;
    BallocdIndex(fs, own, fs', b);
    forall t | ValidSlot(fs', t) && Get(fs', t) != 0
      ensures Get(fs', t) in own && own[Get(fs', t)] == t
    {
      GetSame(fs, fs', own, t);
    }
    forall c | c in own ensures Held(fs', own[c], c) {
      assert Held(fs, own[c], c);
      GetSame(fs, fs', own, own[c]);
    }
  }

  /** Allocating a block and putting it into an empty slot of file x. */
  lemma FillExtends(fs: FS, own: map<nat, Slot>, fs1: FS, t: Slot, b: nat)
    requires Ballocd(fs, own, fs1, b) && ValidSlot(fs, t) && Get(fs, t) == 0
    requires !t.Addr? ==> ValidSlot(fs, Above(t)) && Get(fs, Above(t)) != 0
    ensures Shape(fs1) && ValidSlot(fs1, t) && Shape(Plug(fs1, t, b))
    ensures Extends(fs, own, Plug(fs1, t, b), own[b := t], t.ino)
    ensures Get(Plug(fs1, t, b), t) == b
  {
    BallocdFresh(fs, own, fs1, t, b);
    PlugMapped(fs1, own, t, b);
    PlugShape(fs1, t, b);
    PlugGet(fs1, own, t, b, t);
    FillDisk(fs, own, fs1, t, b);
    FillGets(fs, own, fs1, t, b);
    hide Mapped, Get, Plug, SameIndex, Used, Shape, Fresh;
  }

  lemma FillGets(fs: FS, own: map<nat, Slot>, fs1: FS, t: Slot, b: nat)
    requires Ballocd(fs, own, fs1, b) && Fresh(fs1, own, t, b) && SameIndex(fs, fs1, own)
    ensures Shape(Plug(fs1, t, b))
    ensures forall u :: ValidSlot(fs, u) && Get(fs, u) != 0 ==> ValidSlot(Plug(fs1, t, b), u) && Get(Plug(fs1, t, b), u) == Get(fs, u)
  {
    PlugShape(fs1, t, b);
    hide Mapped, Get, Plug, SameIndex, Used;
    forall u | ValidSlot(fs, u) && Get(fs, u) != 0 ensures ValidSlot(Plug(fs1, t, b), u) && Get(Plug(fs1, t, b), u) == Get(fs, u) {
      PlugGet(fs1, own, t, b, u);
      GetSame(fs, fs1, own, u);
    }
  }

  lemma FillDisk(fs: FS, own: map<nat, Slot>, fs1: FS, t: Slot, b: nat)
    requires Ballocd(fs, own, fs1, b) && Fresh(fs1, own, t, b)
    ensures Shape(Plug(fs1, t, b))
    ensures forall i :: 0 <= i < |fs.inodes| ==>
              && Plug(fs1, t, b).inodes[i] == fs.inodes[i].(addrs := Plug(fs1, t, b).inodes[i].addrs)
              && (i != t.ino ==> Plug(fs1, t, b).inodes[i] == fs.inodes[i])
    ensures forall c :: c in own && IsData(own[c]) && c < |fs.disk| ==> Plug(fs1, t, b).disk[c] == fs.disk[c]
    ensures forall c :: 0 <= c < fs.sb.bmapstart ==> Plug(fs1, t, b).disk[c] == fs.disk[c]
  {
    hide Get, Plug;
    PlugLow(fs1, own, t, b);
    PlugShape(fs1, t, b);
    var fs2 := Plug(fs1, t, b);
    PlugInodes(fs1, t, b);
    forall c | c in own && IsData(own[c]) && c < |fs.disk| ensures fs2.disk[c] == fs.disk[c] {
      HeldOf(fs, own, c);
    }
    forall c | 0 <= c < fs.sb.bmapstart ensures fs2.disk[c] == fs.disk[c] {
      if c in own { HeldOf(fs, own, c); }
    }
  }

  lemma PlugInodes(fs: FS, t: Slot, b: nat)
    requires Shape(fs) && ValidSlot(fs, t) && b < WORDS
    ensures |Plug(fs, t, b).inodes| == |fs.inodes|
    ensures forall i :: 0 <= i < |fs.inodes| ==>
              && Plug(fs, t, b).inodes[i] == fs.inodes[i].(addrs := Plug(fs, t, b).inodes[i].addrs)
              && (i != t.ino ==> Plug(fs, t, b).inodes[i] == fs.inodes[i])
  {}

  lemma HeldOf(fs: FS, own: map<nat, Slot>, b: nat)
    requires Mapped(fs, own) && b in own
    ensures Held(fs, own[b], b) && b >= fs.sb.bmapstart
  {
    assert Held(fs, own[b], b);
    assert fs.sb.size > 0;
  }
}
