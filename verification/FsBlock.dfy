/** Disk blocks of kernel/fs: bytes, the little-endian words of an index block, and the bits of
    the block bitmap (kernel/fs/bio.c, kernel/include/fs.h). */
module FsBlock {

  const BSIZE := 1024
  const NDIRECT := 11
  const NINDIRECT := 256
  const MAXFILE := 65803          // NDIRECT + NINDIRECT + NDINDIRECT
  const BPB := 8192               // bits of a bitmap block
  const IPB := 16                 // inodes of an inode block
  const WORDS := 0x1_0000_0000

  type Byte = b: int | 0 <= b < 256 witness 0
  type Block = b: seq<Byte> | |b| == BSIZE witness seq(BSIZE, _ => 0)

  function Zeros(n: nat): (r: seq<Byte>)
    ensures |r| == n && forall i :: 0 <= i < n ==> r[i] == 0
  {
    seq(n, _ => 0)
  }

  const ZeroBlock: Block := Zeros(BSIZE)

  // ---------- words ----------

  /** The i-th entry of a block read as an array of uint. */
  function Word(b: Block, i: nat): (w: nat)
    requires i < NINDIRECT
    ensures w < WORDS
  {
    (b[4 * i] as int) + 256 * (b[4 * i + 1] as int) + 65536 * (b[4 * i + 2] as int) +
    16777216 * (b[4 * i + 3] as int)
  }

  function SetWord(b: Block, i: nat, w: nat): (r: Block)
    requires i < NINDIRECT && w < WORDS
  {
    b[4 * i := w % 256][4 * i + 1 := w / 256 % 256][4 * i + 2 := w / 65536 % 256][4 * i + 3 := w / 16777216]
  }

  /** A word that was stored is read back, and no other word changes. */
  lemma WordOfSetWord(b: Block, i: nat, w: nat, j: nat)
    requires i < NINDIRECT && j < NINDIRECT && w < WORDS
    ensures Word(SetWord(b, i, w), j) == if i == j then w else Word(b, j)
  {
    if i == j { Digits(w); }
  }

  lemma Digits(w: nat)
    requires w < WORDS
    ensures w % 256 + 256 * (w / 256 % 256) + 65536 * (w / 65536 % 256) + 16777216 * (w / 16777216) == w
  {
    assert w / 65536 == w / 256 / 256;
    assert w / 16777216 == w / 65536 / 256;
  }

  lemma WordOfZero(i: nat)
    requires i < NINDIRECT
    ensures Word(ZeroBlock, i) == 0
  {}

  // ---------- bits ----------

  /** 1 << k */
  function Mask(k: nat): (m: nat)
    ensures m > 0
  {
    if k == 0 then 1 else 2 * Mask(k - 1)
  }

  /** x & (1 << k) */
  predicate Bit(x: nat, k: nat)
    decreases k
  {
    if k == 0 then x % 2 == 1 else Bit(x / 2, k - 1)
  }

  /** x | (1 << k) where the bit is clear, x & ~(1 << k) where it is set. */
  function Flip(x: nat, k: nat): (r: int)
  {
    if Bit(x, k) then x - Mask(k) else x + Mask(k)
  }

  lemma {:induction false} BitOfFlip(x: nat, k: nat, j: nat)
    ensures Flip(x, k) >= 0
    ensures Bit(Flip(x, k), j) == if j == k then !Bit(x, k) else Bit(x, j)
    decreases k
  {
    if k > 0 {
      BitOfFlip(x / 2, k - 1, if j > 0 then j - 1 else 0);
      assert Flip(x, k) == 2 * Flip(x / 2, k - 1) + x % 2;
      assert Flip(x, k) / 2 == Flip(x / 2, k - 1) && Flip(x, k) % 2 == x % 2;
    }
  }

  /** A byte stays a byte. */
  lemma {:induction false} FlipInRange(x: nat, k: nat, n: nat)
    requires k < n && x < Mask(n)
    ensures 0 <= Flip(x, k) < Mask(n)
    decreases k
  {
    if k > 0 {
      FlipInRange(x / 2, k - 1, n - 1);
      assert Flip(x, k) == 2 * Flip(x / 2, k - 1) + x % 2;
    }
  }

  lemma ByteMask()
    ensures Mask(8) == 256
  {
    assert Mask(4) == 16 && Mask(8) == 16 * Mask(4);
  }
}
