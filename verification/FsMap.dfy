/** The block map of kernel/fs/fs.c: which disk block holds which block of which file, through
    direct, indirect and doubly indirect pointers. */
module FsMap {
  import opened FsBlock

  /** The layout of a disk (struct superblock), with the first block behind the bitmap. */
  datatype Super = Super(size: nat, ninodes: nat, inodestart: nat, bmapstart: nat, datastart: nat)

  /** An inode as it is kept in memory. head and tail are the words that hold type and major, and
      minor and nlink. */
  datatype Inode = Inode(head: nat, tail: nat, size: nat, addrs: seq<nat>)

  /** The disk as the buffer cache presents it, and the inodes in memory. */
  datatype FS = FS(sb: Super, disk: seq<Block>, inodes: seq<Inode>)

  /** A place for a block number: in an inode, in its indirect block, in its doubly indirect
      block, or in one of the blocks that the latter names. */
  datatype Slot =
    | Addr(ino: nat, i: nat)
    | Ent(ino: nat, j: nat)
    | First(ino: nat, f: nat)
    | Second(ino: nat, f: nat, s: nat)

  predicate ValidSlot(fs: FS, t: Slot)
  {
    t.ino < |fs.inodes| &&
    match t
    case Addr(_, i) => i < NDIRECT + 2
    case Ent(_, j) => j < NINDIRECT
    case First(_, f) => f < NINDIRECT
    case Second(_, f, s) => f < NINDIRECT && s < NINDIRECT
  }

  /** Slots of file contents; the others hold the numbers of index blocks. */
  predicate IsData(t: Slot)
  {
    match t
    case Addr(_, i) => i < NDIRECT
    case Ent(_, _) => true
    case First(_, _) => false
    case Second(_, _, _) => true
  }

  predicate Shape(fs: FS)
  {
    var sb := fs.sb;
    && |fs.disk| == sb.size < WORDS && |fs.inodes| == sb.ninodes
    && 0 < sb.inodestart && sb.inodestart + (sb.ninodes + IPB - 1) / IPB <= sb.bmapstart
    && sb.bmapstart + (sb.size + BPB - 1) / BPB <= sb.datastart <= sb.size
    && forall ino :: 0 <= ino < |fs.inodes| ==> GoodInode(fs.inodes[ino])
  }

  predicate GoodInode(ip: Inode)
  {
    && |ip.addrs| == NDIRECT + 2 && ip.size < WORDS && ip.head < WORDS && ip.tail < WORDS
    && forall i :: 0 <= i < NDIRECT + 2 ==> ip.addrs[i] < WORDS
  }

  /** Entry i of the index block b; 0 if there is no such block. */
  function Entry(fs: FS, b: nat, i: nat): (w: nat)
    requires i < NINDIRECT
    ensures w < WORDS
  {
    if b == 0 || b >= |fs.disk| then 0 else Word(fs.disk[b], i)
  }

  /** The block number in a slot, 0 if there is none. */
  function Get(fs: FS, t: Slot): (w: nat)
    requires Shape(fs) && ValidSlot(fs, t)
    ensures w < WORDS
  {
    match t
    case Addr(ino, i) => fs.inodes[ino].addrs[i]
    case Ent(ino, j) => Entry(fs, fs.inodes[ino].addrs[NDIRECT], j)
    case First(ino, f) => Entry(fs, fs.inodes[ino].addrs[NDIRECT + 1], f)
    case Second(ino, f, s) => Entry(fs, Entry(fs, fs.inodes[ino].addrs[NDIRECT + 1], f), s)
  }

  /** The slot that holds the number of the index block a slot is in. */
  function Above(t: Slot): Slot
    requires !t.Addr?
  {
    match t
    case Ent(ino, _) => Addr(ino, NDIRECT)
    case First(ino, _) => Addr(ino, NDIRECT + 1)
    case Second(ino, f, _) => First(ino, f)
  }

  function Index(t: Slot): nat
    requires !t.Addr?
  {
    match t
    case Ent(_, j) => j
    case First(_, f) => f
    case Second(_, _, s) => s
  }

  lemma GetAbove(fs: FS, t: Slot)
    requires Shape(fs) && ValidSlot(fs, t) && !t.Addr?
    ensures ValidSlot(fs, Above(t)) && !IsData(Above(t)) && Index(t) < NINDIRECT
    ensures Get(fs, t) == Entry(fs, Get(fs, Above(t)), Index(t))
  {}

  // ---------- the bitmap ----------

  /** The bitmap has the bit of block b set. */
  predicate Used(fs: FS, b: nat)
  {
    var at := fs.sb.bmapstart + b / BPB;
    at < |fs.disk| && Bit(fs.disk[at][b % BPB / 8], b % BPB % 8)
  }

  /** A bitmap block with bit bi flipped. */
  function FlipBit(bp: Block, bi: nat): Block
    requires bi < BPB
  {
    FlipInRange(bp[bi / 8], bi % 8, 8);
    ByteMask();
    bp[bi / 8 := Flip(bp[bi / 8], bi % 8)]
  }

  /** The disk after the bit of block b has been flipped. */
  function FlipUsed(fs: FS, b: nat): FS
    requires fs.sb.bmapstart + b / BPB < |fs.disk|
  {
    var at := fs.sb.bmapstart + b / BPB;
    fs.(disk := fs.disk[at := FlipBit(fs.disk[at], b % BPB)])
  }

  lemma UsedOfFlip(fs: FS, b: nat, c: nat)
    requires fs.sb.bmapstart + b / BPB < |fs.disk| && fs.sb.bmapstart + c / BPB < |fs.disk|
    ensures Used(FlipUsed(fs, b), c) == if c == b then !Used(fs, b) else Used(fs, c)
  {
    var at := fs.sb.bmapstart + b / BPB;
    if c / BPB == b / BPB && c % BPB / 8 == b % BPB / 8 {
      BitOfFlip(fs.disk[at][b % BPB / 8], b % BPB % 8, c % BPB % 8);
    }
  }

  // ---------- the invariant ----------

  /** own names, for every block that some slot holds, the one slot that holds it; all of these
      are data blocks whose bit is set, and no bit below them is clear. */
  ghost predicate Mapped(fs: FS, own: map<nat, Slot>)
  {
    && Shape(fs)
    && (forall t :: ValidSlot(fs, t) && Get(fs, t) != 0 ==> Get(fs, t) in own && own[Get(fs, t)] == t)
    && (forall b :: b in own ==> Held(fs, own[b], b))
    && (forall b :: 0 <= b < fs.sb.datastart ==> Used(fs, b))
  }

  ghost predicate Held(fs: FS, t: Slot, b: nat)
    requires Shape(fs)
  {
    && fs.sb.datastart <= b < fs.sb.size && Used(fs, b)
    && ValidSlot(fs, t) && Get(fs, t) == b
  }

  /** Distinct slots hold distinct blocks. */
  lemma HeldOnce(fs: FS, own: map<nat, Slot>, t: Slot, u: Slot)
    requires Mapped(fs, own) && ValidSlot(fs, t) && ValidSlot(fs, u)
    requires Get(fs, t) == Get(fs, u) != 0
    ensures t == u
  {}

  /** What no block map depends on: the same inode addresses, and the same index blocks. */
  ghost predicate SameIndex(fs: FS, fs': FS, own: map<nat, Slot>)
  {
    && Shape(fs) && Shape(fs') && fs'.sb == fs.sb
    && (forall ino :: 0 <= ino < |fs.inodes| ==> fs'.inodes[ino].addrs == fs.inodes[ino].addrs)
    && (forall b :: b in own && !IsData(own[b]) && b < |fs.disk| ==> fs'.disk[b] == fs.disk[b])
  }

  lemma GetSame(fs: FS, fs': FS, own: map<nat, Slot>, t: Slot)
    requires Mapped(fs, own) && SameIndex(fs, fs', own) && ValidSlot(fs, t)
    ensures Get(fs', t) == Get(fs, t)
    decreases t.Second?, t.First?
  {
    if t.Addr? {
      assert fs'.inodes[t.ino].addrs == fs.inodes[t.ino].addrs;
    } else {
      var a := Above(t);
      GetAbove(fs, t);
      GetAbove(fs', t);
      if t.Second? { GetSame(fs, fs', own, a); } else { assert fs'.inodes[t.ino].addrs == fs.inodes[t.ino].addrs; }
      hide Get, ValidSlot, IsData;
      var b := Get(fs, a);
      assert b != 0 ==> b in own && own[b] == a;
    }
  }

  /** Put block b, fresh and zeroed, into slot t. */
  function Plug(fs: FS, t: Slot, b: nat): FS
    requires Shape(fs) && ValidSlot(fs, t) && b < WORDS
  {
    if t.Addr? then
      var ip := fs.inodes[t.ino];
      fs.(inodes := fs.inodes[t.ino := ip.(addrs := ip.addrs[t.i := b])])
    else
      GetAbove(fs, t);
      var a := Get(fs, Above(t));
      if a >= |fs.disk| then fs
      else fs.(disk := fs.disk[a := SetWord(fs.disk[a], Index(t), b)])
  }

  lemma PlugShape(fs: FS, t: Slot, b: nat)
    requires Shape(fs) && ValidSlot(fs, t) && b < WORDS
    ensures Shape(Plug(fs, t, b)) && Plug(fs, t, b).sb == fs.sb
  {
    if !t.Addr? { GetAbove(fs, t); }
  }

  /** b may be put into slot t. */
  ghost predicate Fresh(fs: FS, own: map<nat, Slot>, t: Slot, b: nat)
  {
    && Mapped(fs, own) && ValidSlot(fs, t) && Get(fs, t) == 0
    && (!t.Addr? ==> Get(fs, GetUp(fs, t)) != 0)
    && fs.sb.datastart <= b < fs.sb.size && b !in own && fs.disk[b] == ZeroBlock
  }

  function GetUp(fs: FS, t: Slot): (a: Slot)
    requires Shape(fs) && ValidSlot(fs, t) && !t.Addr?
    ensures ValidSlot(fs, a) && a == Above(t)
  {
    Above(t)
  }

  /** Plugging a slot changes that slot alone. */
  lemma PlugGet(fs: FS, own: map<nat, Slot>, t: Slot, b: nat, u: Slot)
    requires Fresh(fs, own, t, b) && ValidSlot(fs, u)
    ensures Shape(Plug(fs, t, b)) && ValidSlot(Plug(fs, t, b), u)
    ensures Get(Plug(fs, t, b), u) == if u == t then b else Get(fs, u)
    decreases u.Second?, u.First?
  {
    PlugShape(fs, t, b);
    var fs' := Plug(fs, t, b);
    if !u.Addr? {
      var a := Above(u);
      GetAbove(fs, u);
      GetAbove(fs', u);
      PlugAbove(fs, own, t, b, u);
      hide Get;
      PlugEntry(fs, own, t, b, u);
    }
  }

  lemma PlugAbove(fs: FS, own: map<nat, Slot>, t: Slot, b: nat, u: Slot)
    requires Fresh(fs, own, t, b) && ValidSlot(fs, u) && !u.Addr?
    ensures Shape(Plug(fs, t, b)) && ValidSlot(Plug(fs, t, b), u) && ValidSlot(fs, Above(u))
    ensures Get(Plug(fs, t, b), Above(u)) == if Above(u) == t then b else Get(fs, Above(u))
    decreases u.Second?, u.First?, 0
  {
    PlugShape(fs, t, b);
    if u.Second? { PlugGet(fs, own, t, b, Above(u)); }
  }

  lemma PlugEntry(fs: FS, own: map<nat, Slot>, t: Slot, b: nat, u: Slot)
    requires Fresh(fs, own, t, b) && ValidSlot(fs, u) && !u.Addr? && ValidSlot(fs, Above(u))
    ensures Index(u) < NINDIRECT
    ensures var a := if Above(u) == t then b else Get(fs, Above(u));
            Entry(Plug(fs, t, b), a, Index(u)) ==
            if u == t then b else Entry(fs, Get(fs, Above(u)), Index(u))
  {
    hide Get;
    GetAbove(fs, u);
    if !t.Addr? { GetAbove(fs, t); }
    WordOfZero(Index(u));
    if !t.Addr? {
      var a := Get(fs, Above(t));
      assert a in own && own[a] == Above(t) && Held(fs, Above(t), a);
      WordOfSetWord(fs.disk[a], Index(t), b, Index(u));
      if Above(u) != t && Get(fs, Above(u)) == a {
        HeldOnce(fs, own, Above(t), Above(u));
        SlotOf(t, u);
      }
    }
  }

  lemma SlotOf(t: Slot, u: Slot)
    requires !t.Addr? && !u.Addr? && Above(t) == Above(u)
    ensures t == u <==> Index(t) == Index(u)
  {}

  lemma UsedSame(fs: FS, fs': FS, c: nat)
    requires Shape(fs) && Shape(fs') && fs'.sb == fs.sb && c < fs.sb.size
    requires forall b :: 0 <= b < fs.sb.datastart ==> fs'.disk[b] == fs.disk[b]
    ensures Used(fs', c) == Used(fs, c)
  {
    BitmapBelow(fs, c);
  }

  lemma BitmapBelow(fs: FS, c: nat)
    requires Shape(fs) && c < fs.sb.size
    ensures fs.sb.bmapstart <= fs.sb.bmapstart + c / BPB < fs.sb.datastart <= |fs.disk|
  {
    assert c / BPB <= (fs.sb.size - 1) / BPB;
    assert (fs.sb.size - 1) / BPB + 1 == (fs.sb.size + BPB - 1) / BPB;
  }

  /** Plugging a fresh block whose bit is set keeps the map. */
  lemma PlugMapped(fs: FS, own: map<nat, Slot>, t: Slot, b: nat)
    requires Fresh(fs, own, t, b) && Used(fs, b)
    ensures Mapped(Plug(fs, t, b), own[b := t])
  {
    PlugShape(fs, t, b);
    var fs', own' := Plug(fs, t, b), own[b := t];
    forall u | ValidSlot(fs', u) && Get(fs', u) != 0
      ensures Get(fs', u) in own' && own'[Get(fs', u)] == u
    {
      PlugGet(fs, own, t, b, u);
    }
    PlugLow(fs, own, t, b);
    forall c | c in own' ensures Held(fs', own'[c], c) {
      if c in own { assert Held(fs, own[c], c); }
      PlugGet(fs, own, t, b, own'[c]);
      UsedSame(fs, fs', c);
    }
    forall c | 0 <= c < fs.sb.datastart ensures Used(fs', c) { UsedSame(fs, fs', c); }
  }

  lemma PlugLow(fs: FS, own: map<nat, Slot>, t: Slot, b: nat)
    requires Fresh(fs, own, t, b)
    ensures Shape(Plug(fs, t, b))
    ensures forall c :: 0 <= c < |fs.disk| && (c in own ==> IsData(own[c])) ==>
              Plug(fs, t, b).disk[c] == fs.disk[c]
  {
    PlugShape(fs, t, b);
    if !t.Addr? {
      GetAbove(fs, t);
      var a := Get(fs, Above(t));
      assert a in own && own[a] == Above(t);
    }
  }

  /** A write that leaves all index blocks, and the bits and inode addresses, keeps the map. */
  lemma WriteMapped(fs: FS, fs': FS, own: map<nat, Slot>)
    requires Mapped(fs, own) && SameIndex(fs, fs', own)
    requires forall c :: 0 <= c < fs.sb.size ==> Used(fs', c) == Used(fs, c)
    ensures Mapped(fs', own)
  {
    forall t | ValidSlot(fs', t) && Get(fs', t) != 0
      ensures Get(fs', t) in own && own[Get(fs', t)] == t
    {
      GetSame(fs, fs', own, t);
    }
    forall b | b in own ensures Held(fs', own[b], b) {
      assert Held(fs, own[b], b);
      GetSame(fs, fs', own, own[b]);
    }
  }
}
