/** itrunc (kernel/fs/fs.c): the order in which it frees the blocks of a file, and what the file
    system is like on the way. */
module FsTrunc {
  import opened FsBlock
  import opened FsMap
  import opened FsFile
  import opened FsExtend
  import opened FsWrite

  const SINGLE := 267                    // the rank of the indirect block itself
  const DOUBLE := 268                    // the first rank below the doubly indirect block
  const PER := 257                       // ranks of one of its index blocks
  const LAST := 66060                    // the rank of the doubly indirect block itself

  /** When itrunc comes to a slot: direct blocks, the entries of the indirect block, that block,
      for each index block its entries and then the block, and the doubly indirect block. */
  function Rank(t: Slot): nat
  {
    match t
    case Addr(_, i) => if i < NDIRECT then i else if i == NDIRECT then SINGLE else LAST
    case Ent(_, j) => NDIRECT + j
    case Second(_, f, s) => DOUBLE + f * PER + s
    case First(_, f) => DOUBLE + f * PER + NINDIRECT
  }

  lemma RankOnce(fs: FS, t: Slot, u: Slot)
    requires ValidSlot(fs, t) && ValidSlot(fs, u) && t.ino == u.ino && Rank(t) == Rank(u)
    ensures t == u
  {}

  lemma RankRange(fs: FS, t: Slot)
    requires ValidSlot(fs, t)
    ensures Rank(t) <= LAST
    ensures Rank(t) < NDIRECT <==> t.Addr? && t.i < NDIRECT
    ensures NDIRECT <= Rank(t) < SINGLE <==> t.Ent?
    ensures Rank(t) == SINGLE <==> t == Addr(t.ino, NDIRECT)
    ensures DOUBLE <= Rank(t) < LAST <==> t.First? || t.Second?
  {}

  /** Block c belongs to file x and its turn has come before p. */
  predicate Gone(own: map<nat, Slot>, x: nat, p: nat, c: nat)
  {
    c in own && own[c].ino == x && Rank(own[c]) < p
  }

  /** From fs0, itrunc on file x has got to the slot of rank p. */
  ghost predicate Trunc(fs0: FS, fs: FS, own: map<nat, Slot>, x: nat, p: nat)
  {
    Nodes(fs0, fs, own, x, p) && Bits(fs0, fs, own, x, p)
  }

  /** The bits of the blocks whose turn has come are clear, the others as in fs0. */
  ghost predicate Bits(fs0: FS, fs: FS, own: map<nat, Slot>, x: nat, p: nat)
  {
    forall c :: 0 <= c < fs0.sb.size ==> Used(fs, c) == (Used(fs0, c) && !Gone(own, x, p, c))
  }

  /** Of the rest, only the inode's addresses whose turn has come are different, namely 0. */
  ghost predicate Nodes(fs0: FS, fs: FS, own: map<nat, Slot>, x: nat, p: nat)
  {
    && Mapped(fs0, own) && Shape(fs) && fs.sb == fs0.sb && x < |fs0.inodes| == |fs.inodes|
    && (forall b :: 0 <= b < |fs.disk| && (b < fs.sb.bmapstart || b >= fs.sb.datastart) ==> fs.disk[b] == fs0.disk[b])
    && (forall i :: 0 <= i < |fs.inodes| && i != x ==> fs.inodes[i] == fs0.inodes[i])
    && fs.inodes[x] == fs0.inodes[x].(addrs := fs.inodes[x].addrs)
    && (forall i :: 0 <= i < NDIRECT + 2 ==>
          fs.inodes[x].addrs[i] == if Rank(Addr(x, i)) < p then 0 else fs0.inodes[x].addrs[i])
  }

  lemma TruncStart(fs: FS, own: map<nat, Slot>, x: nat)
    requires Mapped(fs, own) && x < |fs.inodes|
    ensures Trunc(fs, fs, own, x, 0)
  {}

  /** The block whose turn it is still has its bit set: bfree does not panic. */
  lemma NotYetFree(fs0: FS, fs: FS, own: map<nat, Slot>, x: nat, t: Slot)
    requires Trunc(fs0, fs, own, x, Rank(t)) && ValidSlot(fs0, t) && t.ino == x && Get(fs0, t) != 0
    ensures Get(fs0, t) < fs.sb.size && Used(fs, Get(fs0, t))
  {
    HeldOf(fs0, own, Get(fs0, t));
  }

  /** The state after the turn of slot t, which held block b. */
  function Cleared(fs: FS, t: Slot, b: nat): FS
    requires Shape(fs) && ValidSlot(fs, t) && b < fs.sb.size
  {
    BitmapBelow(fs, b);
    var fs1 := if b == 0 then fs else FlipUsed(fs, b);
    if t.Addr? then
      fs1.(inodes := fs.inodes[t.ino := fs.inodes[t.ino].(addrs := fs.inodes[t.ino].addrs[t.i := 0])])
    else fs1
  }

  lemma TruncStep(fs0: FS, fs: FS, own: map<nat, Slot>, x: nat, t: Slot)
    requires Trunc(fs0, fs, own, x, Rank(t)) && ValidSlot(fs0, t) && t.ino == x
    ensures Get(fs0, t) < fs.sb.size
    ensures Trunc(fs0, Cleared(fs, t, Get(fs0, t)), own, x, Rank(t) + 1)
  {
    hide Nodes, Bits, Mapped, Shape, Cleared, Used;
    TruncShape(fs0, fs, own, x, Rank(t));
    if Get(fs0, t) != 0 { NotYetFree(fs0, fs, own, x, t); }
    StepNodes(fs0, fs, own, x, t);
    StepBits(fs0, fs, own, x, t);
  }

  lemma StepBits(fs0: FS, fs: FS, own: map<nat, Slot>, x: nat, t: Slot)
    requires Mapped(fs0, own) && Shape(fs) && fs.sb == fs0.sb && ValidSlot(fs, t) && ValidSlot(fs0, t)
    requires Bits(fs0, fs, own, x, Rank(t)) && t.ino == x && Get(fs0, t) < fs.sb.size
    requires Get(fs0, t) != 0 ==> Used(fs, Get(fs0, t))
    ensures Bits(fs0, Cleared(fs, t, Get(fs0, t)), own, x, Rank(t) + 1)
  {
    var b := Get(fs0, t);
    hide Mapped, Shape, Cleared, Used, Gone, Get, Rank;
    forall c | 0 <= c < fs0.sb.size
      ensures Used(Cleared(fs, t, b), c) == (Used(fs0, c) && !Gone(own, x, Rank(t) + 1, c))
    {
      UsedOfCleared(fs, t, b, c);
      GoneStep(fs0, own, x, t, c);
    }
  }

  lemma StepNodes(fs0: FS, fs: FS, own: map<nat, Slot>, x: nat, t: Slot)
    requires Nodes(fs0, fs, own, x, Rank(t)) && ValidSlot(fs0, t) && t.ino == x && Get(fs0, t) < fs.sb.size
    ensures Nodes(fs0, Cleared(fs, t, Get(fs0, t)), own, x, Rank(t) + 1)
  {
    BitmapBelow(fs, Get(fs0, t));
    forall i | 0 <= i < NDIRECT + 2
      ensures Rank(Addr(x, i)) < Rank(t) + 1 <==> Rank(Addr(x, i)) < Rank(t) || t == Addr(x, i)
    {
      if Rank(Addr(x, i)) == Rank(t) { RankOnce(fs0, Addr(x, i), t); }
    }
    hide Mapped, Get, Rank;
  }

  lemma UsedOfCleared(fs: FS, t: Slot, b: nat, c: nat)
    requires Shape(fs) && ValidSlot(fs, t) && b < fs.sb.size && c < fs.sb.size
    requires b != 0 ==> Used(fs, b)
    ensures Used(Cleared(fs, t, b), c) == (Used(fs, c) && (b == 0 || c != b))
  {
    BitmapBelow(fs, b);
    BitmapBelow(fs, c);
    UsedOfFlip(fs, b, c);
    var fs1 := if b == 0 then fs else FlipUsed(fs, b);
    assert Used(Cleared(fs, t, b), c) == Used(fs1, c);
  }

  lemma GoneStep(fs0: FS, own: map<nat, Slot>, x: nat, t: Slot, c: nat)
    requires Mapped(fs0, own) && ValidSlot(fs0, t) && t.ino == x
    ensures Gone(own, x, Rank(t) + 1, c) <==> Gone(own, x, Rank(t), c) || (Get(fs0, t) != 0 && c == Get(fs0, t))
  {
    var b := Get(fs0, t);
    assert b != 0 ==> b in own && own[b] == t;
    if c in own {
      HeldOf(fs0, own, c);
      hide Mapped, Get;
      if own[c].ino == x && Rank(own[c]) == Rank(t) { RankOnce(fs0, own[c], t); }
    }
  }

  /** Slots that hold nothing need no turn. */
  lemma TruncSkip(fs0: FS, fs: FS, own: map<nat, Slot>, x: nat, p: nat, q: nat)
    requires Trunc(fs0, fs, own, x, p) && p <= q
    requires forall t :: ValidSlot(fs0, t) && t.ino == x && p <= Rank(t) < q ==> Get(fs0, t) == 0
    ensures Trunc(fs0, fs, own, x, q)
  {
    forall i | 0 <= i < NDIRECT + 2
      ensures fs.inodes[x].addrs[i] == if Rank(Addr(x, i)) < q then 0 else fs0.inodes[x].addrs[i]
    {
      if p <= Rank(Addr(x, i)) < q { assert Get(fs0, Addr(x, i)) == 0; }
    }
    forall c | 0 <= c < fs.sb.size ensures Gone(own, x, q, c) == Gone(own, x, p, c) {
      if c in own { HeldOf(fs0, own, c); }
    }
  }

  // ---------- the end ----------

  function Others(own: map<nat, Slot>, x: nat): map<nat, Slot>
  {
    map b | b in own && own[b].ino != x :: own[b]
  }

  /** itrunc done: exactly the blocks of file x are free now and no slot of x holds anything, and
      the map of the other files is as it was. */
  lemma TruncDone(fs0: FS, fs: FS, own: map<nat, Slot>, x: nat)
    requires Trunc(fs0, fs, own, x, LAST + 1)
    ensures Mapped(fs, Others(own, x))
    ensures forall t :: ValidSlot(fs, t) ==> Get(fs, t) == if t.ino == x then 0 else Get(fs0, t)
  {
    forall t | ValidSlot(fs, t) ensures Get(fs, t) == if t.ino == x then 0 else Get(fs0, t) {
      TruncGet(fs0, fs, own, x, t);
    }
    TruncShape(fs0, fs, own, x, LAST + 1);
    var own' := Others(own, x);
    forall b | b in own' ensures Held(fs, own'[b], b) { TruncHeld(fs0, fs, own, x, b); }
    forall c | 0 <= c < fs.sb.datastart ensures Used(fs, c) { TruncLow(fs0, fs, own, x, c); }
    forall t | ValidSlot(fs, t) && Get(fs, t) != 0 ensures Get(fs, t) in own' && own'[Get(fs, t)] == t {
      TruncOwned(fs0, fs, own, x, t);
    }
  }

  lemma TruncShape(fs0: FS, fs: FS, own: map<nat, Slot>, x: nat, p: nat)
    requires Trunc(fs0, fs, own, x, p)
    ensures Mapped(fs0, own) && Shape(fs) && fs.sb == fs0.sb && x < |fs0.inodes| == |fs.inodes|
    ensures fs.sb.datastart <= fs.sb.size
  {}

  lemma TruncOwned(fs0: FS, fs: FS, own: map<nat, Slot>, x: nat, t: Slot)
    requires Trunc(fs0, fs, own, x, LAST + 1) && ValidSlot(fs, t) && Get(fs, t) != 0
    ensures Get(fs, t) in Others(own, x) && Others(own, x)[Get(fs, t)] == t
  {
    TruncGet(fs0, fs, own, x, t);
    hide Get;
    assert ValidSlot(fs0, t) && Get(fs0, t) == Get(fs, t);
  }

  lemma TruncHeld(fs0: FS, fs: FS, own: map<nat, Slot>, x: nat, b: nat)
    requires Trunc(fs0, fs, own, x, LAST + 1) && b in Others(own, x)
    ensures Held(fs, own[b], b)
  {
    HeldOf(fs0, own, b);
    TruncGet(fs0, fs, own, x, own[b]);
    hide Get, Mapped, Shape;
    assert !Gone(own, x, LAST + 1, b);
  }

  lemma TruncLow(fs0: FS, fs: FS, own: map<nat, Slot>, x: nat, c: nat)
    requires Trunc(fs0, fs, own, x, LAST + 1) && c < fs0.sb.datastart
    ensures Used(fs, c)
  {
    if c in own { HeldOf(fs0, own, c); }
  }

  lemma TruncGet(fs0: FS, fs: FS, own: map<nat, Slot>, x: nat, t: Slot)
    requires Trunc(fs0, fs, own, x, LAST + 1) && ValidSlot(fs, t)
    ensures Get(fs, t) == if t.ino == x then 0 else Get(fs0, t)
    decreases t.Second?, t.First?
  {
    if t.Addr? {
      RankRange(fs0, t);
      if t.ino != x { assert fs.inodes[t.ino] == fs0.inodes[t.ino]; }
    } else {
      GetAbove(fs, t);
      GetAbove(fs0, t);
      if t.Second? { TruncGet(fs0, fs, own, x, Above(t)); } else { RankRange(fs0, Above(t)); if t.ino != x { assert fs.inodes[t.ino] == fs0.inodes[t.ino]; } }
      hide Get;
      if t.ino != x {
        var b := Get(fs0, Above(t));
        if b != 0 {
          assert b in own;
          HeldOf(fs0, own, b);
          assert fs.disk[b] == fs0.disk[b];
        }
      }
    }
  }

  /** The files after itrunc, the size of x set to 0. */
  lemma TruncFiles(fs0: FS, fs: FS, own: map<nat, Slot>, x: nat)
    requires Trunc(fs0, fs, own, x, LAST + 1) && AllBacked(fs0) && SavedBut(fs0, x)
    ensures var fs' := Resized(fs, x, 0);
            && Mapped(fs', Others(own, x)) && AllBacked(fs') && SavedBut(fs', x)
            && OthersSame(fs0, fs', x) && Content(fs', x) == []
    ensures forall c :: 0 <= c < fs0.sb.size ==>
              Used(Resized(fs, x, 0), c) == (Used(fs0, c) && !(c in own && own[c].ino == x))
  {
    TruncDone(fs0, fs, own, x);
    TruncShape(fs0, fs, own, x, LAST + 1);
    ResizedMapped(fs, Others(own, x), x, 0);
    var fs' := Resized(fs, x, 0);
    forall c | 0 <= c < fs0.sb.size ensures Used(fs', c) == (Used(fs0, c) && !(c in own && own[c].ino == x)) {
      TruncFreed(fs0, fs, own, x, c);
    }
    hide Mapped, Trunc, Get, Used;
    forall i | 0 <= i < |fs.inodes|
      ensures Backed(fs', i) && (i != x ==> fs'.inodes[i] == fs0.inodes[i] && Content(fs', i) == Content(fs0, i) && OnDisk(fs', i))
    {
      if i != x { TruncOther(fs0, fs, own, x, i); }
    }
  }

  lemma TruncFreed(fs0: FS, fs: FS, own: map<nat, Slot>, x: nat, c: nat)
    requires Trunc(fs0, fs, own, x, LAST + 1) && c < fs0.sb.size
    ensures Used(Resized(fs, x, 0), c) == (Used(fs0, c) && !(c in own && own[c].ino == x))
  {
    if c in own {
      HeldOf(fs0, own, c);
      RankRange(fs0, own[c]);
    }
    assert Used(Resized(fs, x, 0), c) == Used(fs, c);
  }

  lemma TruncOther(fs0: FS, fs: FS, own: map<nat, Slot>, x: nat, i: nat)
    requires Trunc(fs0, fs, own, x, LAST + 1) && AllBacked(fs0) && SavedBut(fs0, x)
    requires Mapped(fs, Others(own, x)) && i < |fs.inodes| && i != x
    ensures var fs' := Resized(fs, x, 0);
            Shape(fs') && fs'.inodes[i] == fs0.inodes[i] && Backed(fs', i) && OnDisk(fs', i) &&
            Content(fs', i) == Content(fs0, i)
  {
    ResizedMapped(fs, Others(own, x), x, 0);
    var fs' := Resized(fs, x, 0);
    assert Backed(fs0, i) && OnDisk(fs0, i);
    InodeBlockBelow(fs0, i);
    forall bn | 0 <= bn < MAXFILE && bn * BSIZE < fs0.inodes[i].size ensures BlockOf(fs', i, bn) != 0 {
      DataSlotValid(fs, i, bn);
      assert BlockOf(fs0, i, bn) != 0;
      TruncGet(fs0, fs, own, x, DataSlot(i, bn));
    }
    forall q | 0 <= q < fs0.inodes[i].size ensures ByteAt(fs', i, q) == ByteAt(fs0, i, q) {
      BackedByte(fs0, i, q);
      TruncByte(fs0, fs, own, x, i, q);
    }
  }

  lemma TruncByte(fs0: FS, fs: FS, own: map<nat, Slot>, x: nat, i: nat, q: nat)
    requires Trunc(fs0, fs, own, x, LAST + 1) && i < |fs.inodes| && i != x && q < MAXBYTES
    requires BlockOf(fs0, i, q / BSIZE) != 0
    ensures ByteAt(fs, i, q) == ByteAt(fs0, i, q)
  {
    DataSlotValid(fs0, i, q / BSIZE);
    TruncGet(fs0, fs, own, x, DataSlot(i, q / BSIZE));
    var b := BlockOf(fs0, i, q / BSIZE);
    hide Get;
    assert b in own;
    HeldOf(fs0, own, b);
  }
}
