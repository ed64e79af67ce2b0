/** The image that mkfs.c makes: files laid out block by block, without a bitmap until the end. */
module Mkfs {
  import opened FsBlock
  import opened FsMap
  import opened FsFile

  /** A block that holds the words ws. */
  function FromWords(ws: seq<nat>): (b: Block)
    requires |ws| == NINDIRECT && forall i :: 0 <= i < NINDIRECT ==> ws[i] < WORDS
  {
    SetWords(ZeroBlock, 0, ws)
  }

  lemma WordOfFrom(ws: seq<nat>, i: nat)
    requires |ws| == NINDIRECT && (forall i :: 0 <= i < NINDIRECT ==> ws[i] < WORDS) && i < NINDIRECT
    ensures Word(FromWords(ws), i) == ws[i]
  {
    WordOfSetWords(ZeroBlock, 0, ws, i);
  }

  /** Block k of a file, zeroes behind its end. */
  function Chunk(content: seq<Byte>, k: nat): (b: Block)
  {
    seq(BSIZE, i requires 0 <= i < BSIZE => if k * BSIZE + i < |content| then content[k * BSIZE + i] else 0)
  }

  function Blocks(n: nat): nat
  {
    (n + BSIZE - 1) / BSIZE
  }

  /** A file half laid out (the locals of add_file_data): the image, the first free block, the
      addresses of the inode, the index blocks that are not written yet, and how many blocks have
      been laid out. */
  datatype Layout = Layout(disk: seq<Block>, free: nat, addrs: seq<nat>, ind: seq<nat>, dind: seq<nat>, sec: seq<nat>, cs: int, bi: nat)

  function NoWords(n: nat): (ws: seq<nat>)
    ensures |ws| == n && forall i :: 0 <= i < n ==> ws[i] == 0
  {
    seq(n, _ => 0)
  }

  predicate Sized(l: Layout)
  {
    && |l.addrs| == NDIRECT + 2 && |l.ind| == |l.dind| == |l.sec| == NINDIRECT && l.free <= |l.disk| < WORDS && -1 <= l.cs < NINDIRECT
    && (forall i :: 0 <= i < NDIRECT + 2 ==> l.addrs[i] < WORDS)
    && (forall i :: 0 <= i < NINDIRECT ==> l.ind[i] < WORDS && l.dind[i] < WORDS && l.sec[i] < WORDS)
  }

  predicate GoodSlot(ino: nat, t: Slot)
  {
    t.ino == ino &&
    match t
    case Addr(_, i) => i < NDIRECT + 2
    case Ent(_, j) => j < NINDIRECT
    case First(_, f) => f < NINDIRECT
    case Second(_, f, s) => f < NINDIRECT && s < NINDIRECT
  }

  /** The block number a slot is to have, wherever it is kept for now. */
  function At(l: Layout, ino: nat, t: Slot): nat
    requires Sized(l) && GoodSlot(ino, t)
  {
    match t
    case Addr(_, i) => l.addrs[i]
    case Ent(_, j) => l.ind[j]
    case First(_, f) => l.dind[f]
    case Second(_, f, s) => if f == l.cs then l.sec[s] else if f < l.cs then Entry1(l.disk, l.dind[f], s) else 0
  }

  function Entry1(disk: seq<Block>, b: nat, s: nat): nat
    requires s < NINDIRECT
  {
    if b < |disk| then Word(disk[b], s) else 0
  }

  /** Each slot has its own block, all of them from lo on and below the first free one. */
  ghost predicate Laid(l: Layout, ino: nat, own: map<nat, Slot>, lo: nat)
  {
    && Sized(l) && 0 < lo <= l.free
    && (forall t: Slot :: GoodSlot(ino, t) && At(l, ino, t) != 0 ==> At(l, ino, t) in own && own[At(l, ino, t)] == t)
    && (forall b :: b in own ==> lo <= b < l.free && GoodSlot(ino, own[b]) && At(l, ino, own[b]) == b)
  }

  /** The index blocks are there as far as the file goes. */
  predicate Indexed(l: Layout)
    requires Sized(l)
  {
    && (l.addrs[NDIRECT] != 0 <==> l.bi > NDIRECT)
    && (l.addrs[NDIRECT + 1] != 0 <==> l.cs >= 0)
    && (forall f :: 0 <= f < NINDIRECT ==> (l.dind[f] != 0 <==> f <= l.cs))
    && l.bi <= MAXFILE && l.cs == LastSecond(l.bi)
  }

  /** The blocks that a file of n data blocks takes, index blocks included. */
  function Needed(n: nat): nat
  {
    n + (if n > NDIRECT then 1 else 0) + (if LastSecond(n) >= 0 then LastSecond(n) + 2 else 0)
  }

  /** The index blocks that are new when one more data block is added behind the indirect ones. */
  function MoreIndex(n: nat): nat
  {
    (if LastSecond(n) < 0 then 1 else 0) + (if LastSecond(n + 1) != LastSecond(n) then 1 else 0)
  }

  lemma NeededMore(n: nat)
    ensures n < NDIRECT + NINDIRECT ==> Needed(n + 1) == Needed(n) + (if n == NDIRECT then 2 else 1)
    ensures n >= NDIRECT + NINDIRECT ==> Needed(n + 1) == Needed(n) + 1 + MoreIndex(n)
    ensures n >= NDIRECT + NINDIRECT ==> LastSecond(n + 1) == (n - NDIRECT - NINDIRECT) / NINDIRECT
  {}

  lemma {:induction false} NeededGrows(m: nat, n: nat)
    requires m <= n
    ensures Needed(m) <= Needed(n)
    decreases n - m
  {
    if m < n {
      NeededMore(m);
      NeededGrows(m + 1, n);
    }
  }

  /** The last second-level index block of a file of n blocks, -1 if it has none. */
  function LastSecond(n: nat): int
  {
    if n <= NDIRECT + NINDIRECT then -1 else (n - 1 - NDIRECT - NINDIRECT) / NINDIRECT
  }

  /** The blocks laid out so far hold the file, and there are no others. */
  ghost predicate Filled(l: Layout, ino: nat, content: seq<Byte>)
    requires Sized(l)
  {
    forall k :: 0 <= k < MAXFILE ==> FilledAt(l, ino, content, k)
  }

  predicate FilledAt(l: Layout, ino: nat, content: seq<Byte>, k: nat)
    requires Sized(l) && k < MAXFILE
  {
    GoodData(ino, k);
    var b := At(l, ino, DataSlot(ino, k));
    if k < l.bi then 0 < b < |l.disk| && l.disk[b] == Chunk(content, k) else b == 0
  }

  lemma GoodData(ino: nat, k: nat)
    requires k < MAXFILE
    ensures GoodSlot(ino, DataSlot(ino, k))
  {}

  // ---------- allocating and placing blocks ----------

  /** alloc_block and write_block */
  function Allocated(l: Layout, b: Block): Layout
    requires l.free < |l.disk|
  {
    l.(disk := l.disk[l.free := b], free := l.free + 1)
  }

  lemma AllocKeeps(l: Layout, ino: nat, own: map<nat, Slot>, lo: nat, b: Block)
    requires Laid(l, ino, own, lo) && l.free < |l.disk|
    ensures Laid(Allocated(l, b), ino, own, lo) && l.free !in own
    ensures forall t: Slot :: GoodSlot(ino, t) ==> At(Allocated(l, b), ino, t) == At(l, ino, t)
  {
    var l' := Allocated(l, b);
    forall t: Slot | GoodSlot(ino, t) ensures At(l', ino, t) == At(l, ino, t) {
      if t.Second? { assert At(l, ino, First(ino, t.f)) == l.dind[t.f]; }
    }
  }

  lemma AllocFilled(l: Layout, ino: nat, own: map<nat, Slot>, lo: nat, content: seq<Byte>, b: Block)
    requires Laid(l, ino, own, lo) && l.free < |l.disk| && Filled(l, ino, content)
    ensures Sized(Allocated(l, b)) && Filled(Allocated(l, b), ino, content)
  {
    AllocKeeps(l, ino, own, lo, b);
    hide At, Chunk;
    forall k | 0 <= k < MAXFILE ensures FilledAt(Allocated(l, b), ino, content, k) {
      assert FilledAt(l, ino, content, k);
      GoodData(ino, k);
    }
  }

  /** One slot got the block b, which was in no slot. */
  lemma PlaceKeeps(l: Layout, l': Layout, ino: nat, own: map<nat, Slot>, lo: nat, t: Slot, b: nat)
    requires Laid(l, ino, own, lo) && Sized(l') && l'.free == l.free && GoodSlot(ino, t) && lo <= b < l.free && b !in own
    requires At(l, ino, t) == 0
    requires forall u: Slot :: GoodSlot(ino, u) ==> At(l', ino, u) == if u == t then b else At(l, ino, u)
    ensures Laid(l', ino, own[b := t], lo)
  {
    hide At;
  }

  /** A block placed in an index slot changes no data. */
  lemma PlaceFilled(l: Layout, l': Layout, ino: nat, content: seq<Byte>, t: Slot)
    requires Sized(l) && Sized(l') && Filled(l, ino, content) && l'.disk == l.disk && l'.bi == l.bi && !IsData(t)
    requires forall u: Slot :: GoodSlot(ino, u) && u != t ==> At(l', ino, u) == At(l, ino, u)
    ensures Filled(l', ino, content)
  {
    hide At, Chunk;
    forall k | 0 <= k < MAXFILE ensures FilledAt(l', ino, content, k) {
      assert FilledAt(l, ino, content, k);
      GoodData(ino, k);
    }
  }

  /** The next data block placed in its slot. */
  lemma DataFilled(l: Layout, l': Layout, ino: nat, content: seq<Byte>, b: nat)
    requires Sized(l) && Sized(l') && Filled(l, ino, content) && l'.disk == l.disk && l.bi < MAXFILE && l'.bi == l.bi + 1
    requires 0 < b < |l.disk| && l.disk[b] == Chunk(content, l.bi)
    requires forall u: Slot :: GoodSlot(ino, u) ==> At(l', ino, u) == if u == DataSlot(ino, l.bi) then b else At(l, ino, u)
    ensures Filled(l', ino, content)
  {
    hide At, Chunk;
    forall k | 0 <= k < MAXFILE ensures FilledAt(l', ino, content, k) {
      assert FilledAt(l, ino, content, k);
      GoodData(ino, k);
      DataSlotOnce(ino, k, ino, l.bi);
    }
  }

  /** The second-level index block in memory is written out, and an empty one is begun. */
  function Flushed(l: Layout): Layout
    requires Sized(l) && (l.cs >= 0 ==> l.dind[l.cs] < |l.disk|)
  {
    l.(disk := if l.cs >= 0 then l.disk[l.dind[l.cs] := FromWords(l.sec)] else l.disk, cs := l.cs + 1, sec := NoWords(NINDIRECT))
  }

  lemma FlushKeeps(l: Layout, ino: nat, own: map<nat, Slot>, lo: nat)
    requires Laid(l, ino, own, lo) && (forall f :: 0 <= f < NINDIRECT ==> (l.dind[f] != 0 <==> f <= l.cs)) && l.cs + 1 < NINDIRECT
    ensures l.cs >= 0 ==> l.dind[l.cs] < |l.disk| && l.dind[l.cs] in own && own[l.dind[l.cs]] == First(ino, l.cs)
    ensures Laid(Flushed(l), ino, own, lo)
    ensures forall t: Slot :: GoodSlot(ino, t) ==> At(Flushed(l), ino, t) == At(l, ino, t)
  {
    if l.cs >= 0 { assert At(l, ino, First(ino, l.cs)) == l.dind[l.cs]; }
    var l' := Flushed(l);
    forall t: Slot | GoodSlot(ino, t) ensures At(l', ino, t) == At(l, ino, t) {
      if t.Second? { FlushSecond(l, ino, own, lo, t.f, t.s); }
    }
    hide At;
  }

  lemma FlushSecond(l: Layout, ino: nat, own: map<nat, Slot>, lo: nat, f: nat, s: nat)
    requires Laid(l, ino, own, lo) && (forall f :: 0 <= f < NINDIRECT ==> (l.dind[f] != 0 <==> f <= l.cs)) && l.cs + 1 < NINDIRECT
    requires l.cs >= 0 ==> l.dind[l.cs] < |l.disk|
    requires f < NINDIRECT && s < NINDIRECT
    ensures At(Flushed(l), ino, Second(ino, f, s)) == At(l, ino, Second(ino, f, s))
  {
    WordOfFrom(l.sec, s);
    if f < l.cs {
      assert At(l, ino, First(ino, f)) == l.dind[f] && At(l, ino, First(ino, l.cs)) == l.dind[l.cs];
    }
    hide FromWords;
  }

  lemma FlushFilled(l: Layout, ino: nat, own: map<nat, Slot>, lo: nat, content: seq<Byte>)
    requires Laid(l, ino, own, lo) && (forall f :: 0 <= f < NINDIRECT ==> (l.dind[f] != 0 <==> f <= l.cs)) && l.cs + 1 < NINDIRECT
    requires Filled(l, ino, content)
    ensures l.cs >= 0 ==> l.dind[l.cs] < |l.disk|
    ensures Filled(Flushed(l), ino, content)
  {
    FlushKeeps(l, ino, own, lo);
    hide At, Chunk, FromWords;
    forall k | 0 <= k < MAXFILE ensures FilledAt(Flushed(l), ino, content, k) {
      assert FilledAt(l, ino, content, k);
      GoodData(ino, k);
      assert At(l, ino, DataSlot(ino, k)) != 0 ==> own[At(l, ino, DataSlot(ino, k))] == DataSlot(ino, k);
    }
  }

  // ---------- one block of a file ----------

  /** What is known between two turns of the loop. */
  ghost predicate Turn(l: Layout, ino: nat, own: map<nat, Slot>, lo: nat, content: seq<Byte>)
  {
    Laid(l, ino, own, lo) && Indexed(l) && Filled(l, ino, content)
  }

  function WithAddr(l: Layout, i: nat, b: nat): Layout
    requires i < |l.addrs|
  {
    l.(addrs := l.addrs[i := b])
  }

  function WithInd(l: Layout, i: nat, b: nat): Layout
    requires i < |l.ind|
  {
    l.(ind := l.ind[i := b])
  }

  function WithDind(l: Layout, i: nat, b: nat): Layout
    requires i < |l.dind|
  {
    l.(dind := l.dind[i := b])
  }

  function WithSec(l: Layout, i: nat, b: nat): Layout
    requires i < |l.sec|
  {
    l.(sec := l.sec[i := b])
  }

  function Counted(l: Layout): Layout
  {
    l.(bi := l.bi + 1)
  }

  /** An index block that the inode names: alloc_block, and its number goes into the inode. */
  lemma AddrStep(l: Layout, ino: nat, own: map<nat, Slot>, lo: nat, content: seq<Byte>, i: nat)
    requires Laid(l, ino, own, lo) && Filled(l, ino, content) && l.free < |l.disk| && NDIRECT <= i < NDIRECT + 2 && l.addrs[i] == 0
    ensures var l' := WithAddr(Allocated(l, ZeroBlock), i, l.free);
            Laid(l', ino, own[l.free := Addr(ino, i)], lo) && Filled(l', ino, content)
  {
    var l1 := Allocated(l, ZeroBlock);
    var l' := WithAddr(l1, i, l.free);
    AllocKeeps(l, ino, own, lo, ZeroBlock);
    AllocFilled(l, ino, own, lo, content, ZeroBlock);
    AddrAt(l1, ino, i, l.free);
    hide At, Chunk;
    PlaceKeeps(l1, l', ino, own, lo, Addr(ino, i), l.free);
    PlaceFilled(l1, l', ino, content, Addr(ino, i));
  }

  lemma AddrAt(l: Layout, ino: nat, i: nat, b: nat)
    requires Sized(l) && i < NDIRECT + 2 && b < WORDS
    ensures forall u: Slot :: GoodSlot(ino, u) ==> At(WithAddr(l, i, b), ino, u) == if u == Addr(ino, i) then b else At(l, ino, u)
    ensures Sized(WithAddr(l, i, b)) && At(l, ino, Addr(ino, i)) == l.addrs[i]
  {}

  lemma IndAt(l: Layout, ino: nat, j: nat, b: nat)
    requires Sized(l) && j < NINDIRECT && b < WORDS
    ensures forall u: Slot :: GoodSlot(ino, u) ==> At(WithInd(l, j, b), ino, u) == if u == Ent(ino, j) then b else At(l, ino, u)
    ensures Sized(WithInd(l, j, b)) && At(l, ino, Ent(ino, j)) == l.ind[j]
  {}

  lemma SecAt(l: Layout, ino: nat, s: nat, b: nat)
    requires Sized(l) && s < NINDIRECT && b < WORDS && l.cs >= 0
    ensures forall u: Slot :: GoodSlot(ino, u) ==> At(WithSec(l, s, b), ino, u) == if u == Second(ino, l.cs, s) then b else At(l, ino, u)
    ensures Sized(WithSec(l, s, b)) && At(l, ino, Second(ino, l.cs, s)) == l.sec[s]
  {}

  /** The first-level entry of the block that is begun. */
  lemma DindAt(l: Layout, ino: nat, b: nat)
    requires Sized(l) && l.cs >= 0 && b < WORDS
    ensures forall u: Slot :: GoodSlot(ino, u) ==> At(WithDind(l, l.cs, b), ino, u) == if u == First(ino, l.cs) then b else At(l, ino, u)
    ensures Sized(WithDind(l, l.cs, b)) && At(l, ino, First(ino, l.cs)) == l.dind[l.cs]
  {}

  /** Counting a block keeps where it is. */
  lemma CountAt(l: Layout, ino: nat)
    requires Sized(l)
    ensures Sized(Counted(l)) && forall u: Slot :: GoodSlot(ino, u) ==> At(Counted(l), ino, u) == At(l, ino, u)
  {}

  /** A data block goes into the slot that bmap will look in. */
  lemma DataStep(l: Layout, l': Layout, ino: nat, own: map<nat, Slot>, lo: nat, content: seq<Byte>, b: nat)
    requires Laid(l, ino, own, lo) && Filled(l, ino, content) && l.bi < MAXFILE && lo <= b < l.free && b !in own
    requires l.disk[b] == Chunk(content, l.bi) && Sized(l') && l'.free == l.free && l'.disk == l.disk && l'.bi == l.bi
    requires forall u: Slot :: GoodSlot(ino, u) ==> At(l', ino, u) == if u == DataSlot(ino, l.bi) then b else At(l, ino, u)
    ensures Laid(Counted(l'), ino, own[b := DataSlot(ino, l.bi)], lo) && Filled(Counted(l'), ino, content)
  {
    GoodData(ino, l.bi);
    assert FilledAt(l, ino, content, l.bi);
    CountAt(l', ino);
    hide At, Chunk;
    PlaceKeeps(l, Counted(l'), ino, own, lo, DataSlot(ino, l.bi), b);
    DataFilled(l, Counted(l'), ino, content, b);
  }

  /** A second-level index block that is full is written out, and the next one gets a block. */
  lemma SecondStep(l: Layout, ino: nat, own: map<nat, Slot>, lo: nat, content: seq<Byte>, db: nat)
    requires Laid(l, ino, own, lo) && (forall f :: 0 <= f < NINDIRECT ==> (l.dind[f] != 0 <==> f <= l.cs)) && l.cs + 1 < NINDIRECT
    requires Filled(l, ino, content) && l.free < |l.disk| && lo <= db < l.free && db !in own
    ensures l.cs >= 0 ==> l.dind[l.cs] < |l.disk|
    ensures var l' := WithDind(Allocated(Flushed(l), ZeroBlock), l.cs + 1, l.free);
            && Laid(l', ino, own[l.free := First(ino, l.cs + 1)], lo) && Filled(l', ino, content)
            && l'.disk[db] == l.disk[db] && db != l.free
            && forall f :: 0 <= f < NINDIRECT ==> (l'.dind[f] != 0 <==> f <= l'.cs)
  {
    hide FromWords, At, Chunk;
    FlushKeeps(l, ino, own, lo);
    FlushFilled(l, ino, own, lo, content);
    var l1 := Flushed(l);
    var l2 := Allocated(l1, ZeroBlock);
    AllocKeeps(l1, ino, own, lo, ZeroBlock);
    AllocFilled(l1, ino, own, lo, content, ZeroBlock);
    DindAt(l2, ino, l.free);
    PlaceKeeps(l2, WithDind(l2, l.cs + 1, l.free), ino, own, lo, First(ino, l.cs + 1), l.free);
    PlaceFilled(l2, WithDind(l2, l.cs + 1, l.free), ino, content, First(ino, l.cs + 1));
  }
}
