/** Sv39 page tables as trees of physical pages (kernel/mm/vm.c; section 4.4 of the RISC-V
    Privileged Architecture, version 20211203). */
module PageTable {

  const ENTRIES := 512
  const PGSIZE := 4096
  const MAXVPN := 0x400_0000                       // MAXVA / PGSIZE
  const VPNS := 0x800_0000                         // what three indices can tell apart
  const MAXPPN := 0x1000_0000_0000                 // 2^44
  const WORDS := 0x1_0000_0000_0000_0000
  const PTE_V := 1

  type Byte = b: int | 0 <= b < 256 witness 0
  type Idx = i: nat | i < ENTRIES
  type Vpn = v: nat | v < VPNS
  type Low = v: nat | v < MAXVPN

  function Zeros(n: nat): (r: seq<Byte>)
    ensures |r| == n && forall i :: 0 <= i < n ==> r[i] == 0
  {
    seq(n, _ => 0)
  }

  type Page = p: seq<Byte> | |p| == PGSIZE witness Zeros(PGSIZE)
  type Mem = seq<Page>

  const ZeroPage: Page := Zeros(PGSIZE)

  // ---------- words ----------

  /** Bytes as a little-endian number. */
  function Num(s: seq<Byte>): nat
  {
    if s == [] then 0 else s[0] + 256 * Num(s[1..])
  }

  function Bytes(n: nat, w: nat): (s: seq<Byte>)
    ensures |s| == n
  {
    if n == 0 then [] else [w % 256] + Bytes(n - 1, w / 256)
  }

  function Power(n: nat): nat
  {
    if n == 0 then 1 else 256 * Power(n - 1)
  }

  lemma {:induction false} NumOfBytes(n: nat, w: nat)
    requires w < Power(n)
    ensures Num(Bytes(n, w)) == w
  {
    if n > 0 {
      NumOfBytes(n - 1, w / 256);
      assert Bytes(n, w)[1..] == Bytes(n - 1, w / 256);
    }
  }

  lemma {:induction false} NumOfZeros(n: nat)
    ensures Num(Zeros(n)) == 0
  {
    if n > 0 {
      assert Zeros(n)[1..] == Zeros(n - 1);
      NumOfZeros(n - 1);
    }
  }

  /** The i-th 64-bit word of a page. */
  function Load(p: Page, i: Idx): nat
  {
    Num(p[8 * i .. 8 * i + 8])
  }

  function Save(p: Page, i: Idx, w: nat): Page
  {
    p[.. 8 * i] + Bytes(8, w) + p[8 * i + 8 ..]
  }

  /** A word that was stored is read back, and no other word changes. */
  lemma LoadOfSave(p: Page, i: Idx, w: nat, j: Idx)
    requires w < WORDS
    ensures Load(Save(p, i, w), j) == if i == j then w else Load(p, j)
  {
    var q := Save(p, i, w);
    if i == j {
      assert q[8 * i .. 8 * i + 8] == Bytes(8, w);
      assert Power(8) == WORDS;
      NumOfBytes(8, w);
    } else {
      assert q[8 * j .. 8 * j + 8] == p[8 * j .. 8 * j + 8];
    }
  }

  lemma LoadOfZero(i: Idx)
    ensures Load(ZeroPage, i) == 0
  {
    assert ZeroPage[8 * i .. 8 * i + 8] == Zeros(8);
    NumOfZeros(8);
  }

  // ---------- page table entries ----------

  predicate IsValid(w: nat) { w % 2 == 1 }
  function Ppn(w: nat): nat { w / 1024 }
  function Flags(w: nat): nat { w % 1024 }

  /** One of R, W and X is set: the entry is a leaf. */
  predicate HasRwx(w: nat) { w % 16 / 2 != 0 }
  predicate HasU(w: nat) { w % 32 / 16 == 1 }

  /** perm | PTE_V */
  function WithV(perm: nat): nat
  {
    if perm % 2 == 1 then perm else perm + 1
  }

  /** PA2PTE(pa) | perm | PTE_V */
  function MakePte(ppn: nat, perm: nat): nat
  {
    ppn * 1024 + WithV(perm)
  }

  lemma WithVBits(perm: nat)
    requires perm < 1024
    ensures WithV(perm) < 1024 && IsValid(WithV(perm)) && (HasRwx(WithV(perm)) <==> HasRwx(perm))
  {}

  lemma LowBits(ppn: nat, f: nat)
    requires f < 1024
    ensures (ppn * 1024 + f) / 1024 == ppn && (ppn * 1024 + f) % 1024 == f
    ensures (ppn * 1024 + f) % 16 == f % 16 && (ppn * 1024 + f) % 2 == f % 2
  {
    Quotient(ppn * 1024 + f, ppn, f);
    LowFour(ppn * 64, f);
    LowOne(ppn * 512, f);
  }

  lemma Quotient(w: nat, q: nat, f: nat)
    requires w == q * 1024 + f && f < 1024
    ensures w / 1024 == q && w % 1024 == f
  {}

  lemma LowFour(k: nat, f: nat)
    ensures (k * 16 + f) % 16 == f % 16
  {}

  lemma LowOne(k: nat, f: nat)
    ensures (k * 2 + f) % 2 == f % 2
  {}

  lemma PteFields(ppn: nat, perm: nat)
    requires ppn < MAXPPN && perm < 1024
    ensures var w := MakePte(ppn, perm);
            w < WORDS && IsValid(w) && Ppn(w) == ppn && Flags(w) == WithV(perm) && (HasRwx(w) <==> HasRwx(perm))
  {
    WithVBits(perm);
    LowBits(ppn, WithV(perm));
    hide WithV;
  }

  // PX(level, va)

  function Px2(v: Vpn): Idx { v / 0x4_0000 }
  function Px1(v: Vpn): Idx { v / ENTRIES % ENTRIES }
  function Px0(v: Vpn): Idx { v % ENTRIES }

  lemma PxOnce(v: Vpn, u: Vpn)
    requires Px2(v) == Px2(u) && Px1(v) == Px1(u) && Px0(v) == Px0(u)
    ensures v == u
  {
    assert v / 0x4_0000 == v / ENTRIES / ENTRIES && u / 0x4_0000 == u / ENTRIES / ENTRIES;
  }

  // ---------- the tree ----------

  /** What a page is for: the root of address space r, a table of its second or last level, or
      the page mapped at v. */
  datatype Place = P2(r: nat) | P1(r: nat, i2: Idx) | P0(r: nat, i2: Idx, i1: Idx) | Leaf(r: nat, v: Vpn)

  predicate IsTable(t: Place) { !t.Leaf? }

  /** Entry i of page p; 0 when p is no page or the entry is not valid. */
  function Entry(m: Mem, p: nat, i: Idx): nat
  {
    if 0 < p < |m| && IsValid(Load(m[p], i)) then Load(m[p], i) else 0
  }

  /** The entry that names the page of a place. */
  function Word(m: Mem, t: Place): nat
  {
    match t
    case P2(_) => 0
    case P1(r, i2) => Entry(m, r, i2)
    case P0(r, i2, i1) => Entry(m, Ppn(Entry(m, r, i2)), i1)
    case Leaf(r, v) => Entry(m, Ppn(Entry(m, Ppn(Entry(m, r, Px2(v))), Px1(v))), Px0(v))
  }

  /** The page of a place, 0 if there is none. */
  function PageOf(m: Mem, t: Place): nat
  {
    if t.P2? then t.r else Ppn(Word(m, t))
  }

  /** The translation of page v in address space r: the leaf entry, 0 if there is none. */
  function Lookup(m: Mem, r: nat, v: Vpn): nat
  {
    Word(m, Leaf(r, v))
  }

  /** The place of the table a place's entry is in, and the index there. */
  function Above(t: Place): (u: Place)
    requires !t.P2?
    ensures IsTable(u) && u.r == t.r
  {
    match t
    case P1(r, _) => P2(r)
    case P0(r, i2, _) => P1(r, i2)
    case Leaf(r, v) => P0(r, Px2(v), Px1(v))
  }

  function Index(t: Place): Idx
    requires !t.P2?
  {
    match t
    case P1(_, i2) => i2
    case P0(_, _, i1) => i1
    case Leaf(_, v) => Px0(v)
  }

  function Depth(t: Place): nat
  {
    match t
    case P2(_) => 0
    case P1(_, _) => 1
    case P0(_, _, _) => 2
    case Leaf(_, _) => 3
  }

  lemma WordAbove(m: Mem, t: Place)
    requires !t.P2?
    ensures Word(m, t) == Entry(m, PageOf(m, Above(t)), Index(t))
    ensures Depth(Above(t)) + 1 == Depth(t)
  {}

  lemma AboveOnce(t: Place, u: Place)
    requires !t.P2? && !u.P2? && Above(t) == Above(u)
    ensures t == u <==> Index(t) == Index(u)
    ensures t.Leaf? == u.Leaf?
  {
    if t.Leaf? && Index(t) == Index(u) { PxOnce(t.v, u.v); }
  }

  // ---------- the invariant ----------

  /** Memory, the roots of the address spaces, what each page of the trees is for, and the list of
      free pages. Pages below lo were never kalloc's. */
  datatype Vm = Vm(lo: nat, m: Mem, roots: set<nat>, own: map<nat, Place>, free: seq<nat>)

  /** No page is in two places, none of them is free, and an entry that names a table has no flag
      but V. A mapped page that own does not know (one the kernel lent) is neither a table nor
      free either. */
  ghost predicate Tree(s: Vm)
  {
    && 0 < s.lo && |s.m| <= MAXPPN
    && (forall r :: r in s.roots ==> r in s.own && s.own[r] == P2(r))
    && (forall p :: p in s.own ==> Placed(s, s.own[p], p))
    && (forall t: Place :: t.r in s.roots && Word(s.m, t) != 0 ==> Named(s, t))
  }

  predicate Placed(s: Vm, t: Place, p: nat)
  {
    s.lo <= p < |s.m| && t.r in s.roots && PageOf(s.m, t) == p && p !in s.free
  }

  predicate Named(s: Vm, t: Place)
  {
    var p := PageOf(s.m, t);
    && 0 < p < |s.m| && p !in s.free
    && (p in s.own ==> s.own[p] == t)
    && (IsTable(t) ==> p in s.own && Flags(Word(s.m, t)) == PTE_V)
    && (t.Leaf? ==> HasRwx(Word(s.m, t)))
  }

  lemma PlacedOf(s: Vm, p: nat)
    requires Tree(s) && p in s.own
    ensures Placed(s, s.own[p], p) && 0 < p
  {}

  lemma NamedOf(s: Vm, t: Place)
    requires Tree(s) && t.r in s.roots && Word(s.m, t) != 0
    ensures Named(s, t)
  {}

  /** A table that is there is known to own. */
  lemma TableOwned(s: Vm, t: Place)
    requires Tree(s) && t.r in s.roots && IsTable(t) && PageOf(s.m, t) != 0
    ensures PageOf(s.m, t) in s.own && s.own[PageOf(s.m, t)] == t && PageOf(s.m, t) < |s.m|
  {
    if t.P2? { PlacedOf(s, t.r); } else {
      NamedOf(s, t);
      PlacedOf(s, PageOf(s.m, t));
    }
  }

  lemma SamePlace(s: Vm, t: Place, u: Place)
    requires Tree(s) && t.r in s.roots && u.r in s.roots
    requires IsTable(t) && IsTable(u) && PageOf(s.m, t) == PageOf(s.m, u) != 0
    ensures t == u
  {
    hide Tree;
    TableOwned(s, t);
    TableOwned(s, u);
  }

  // ---------- writes that touch no table ----------

  ghost predicate SameTables(s: Vm, m': Mem)
  {
    |m'| == |s.m| && forall p :: p in s.own && IsTable(s.own[p]) && p < |m'| ==> m'[p] == s.m[p]
  }

  lemma WordSame(s: Vm, m': Mem, t: Place)
    requires Tree(s) && SameTables(s, m') && t.r in s.roots
    ensures Word(m', t) == Word(s.m, t) && PageOf(m', t) == PageOf(s.m, t)
    decreases Depth(t)
  {
    if !t.P2? {
      WordAbove(s.m, t);
      WordAbove(m', t);
      hide Word, Tree;
      WordSame(s, m', Above(t));
      if PageOf(s.m, Above(t)) != 0 { TableOwned(s, Above(t)); }
    }
  }

  /** Such a write, and any change of the free list away from the trees, keeps the tree. */
  lemma TreeSame(s: Vm, s': Vm)
    requires Tree(s) && SameTables(s, s'.m) && s' == s.(m := s'.m, free := s'.free)
    requires forall p :: p in s'.free ==> p in s.free || Unmapped(s, p)
    ensures Tree(s')
  {
    hide Word;
    forall p | p in s.own ensures Placed(s', s.own[p], p) {
      PlacedOf(s, p);
      WordSame(s, s'.m, s.own[p]);
    }
    forall t: Place | t.r in s'.roots && Word(s'.m, t) != 0 ensures Named(s', t) {
      WordSame(s, s'.m, t);
      NamedOf(s, t);
      if t.Leaf? && Unmapped(s, PageOf(s.m, t)) { UnmappedLeaf(s, PageOf(s.m, t), t); }
    }
  }

  /** No tree holds or maps page p. */
  ghost predicate Unmapped(s: Vm, p: nat)
  {
    p !in s.own && forall r, v: Vpn :: r in s.roots && Lookup(s.m, r, v) != 0 ==> Ppn(Lookup(s.m, r, v)) != p
  }

  lemma UnmappedLeaf(s: Vm, p: nat, t: Place)
    requires Unmapped(s, p) && t.Leaf? && t.r in s.roots && Word(s.m, t) != 0
    ensures PageOf(s.m, t) != p
  {
    assert Lookup(s.m, t.r, t.v) != 0;
  }

  // ---------- writing one entry ----------

  /** Memory with w stored as the entry of place t. */
  function Store(m: Mem, t: Place, w: nat): Mem
    requires !t.P2?
  {
    var p := PageOf(m, Above(t));
    if p < |m| then m[p := Save(m[p], Index(t), w)] else m
  }

  /** The entry of t may become w without pulling a used table out: a leaf, a new table that is
      empty, or no more a table that is empty. */
  ghost predicate MayStore(s: Vm, t: Place, w: nat)
  {
    && Tree(s) && t.r in s.roots && !t.P2? && PageOf(s.m, Above(t)) != 0
    && w < WORDS && (w == 0 || IsValid(w))
    && (t.Leaf? || if w == 0 then EmptyTable(s.m, PageOf(s.m, t))
                             else Word(s.m, t) == 0 && Ppn(w) < |s.m| && Ppn(w) !in s.own && EmptyTable(s.m, Ppn(w)))
  }

  ghost predicate EmptyTable(m: Mem, p: nat)
  {
    forall i: Idx :: Entry(m, p, i) == 0
  }

  /** The page that Store writes, and what it reads there. */
  lemma StoreEntry(s: Vm, t: Place, w: nat, p: nat, i: Idx)
    requires MayStore(s, t, w)
    ensures |Store(s.m, t, w)| == |s.m| && PageOf(s.m, Above(t)) in s.own && IsTable(s.own[PageOf(s.m, Above(t))])
    ensures forall q :: 0 <= q < |s.m| && q != PageOf(s.m, Above(t)) ==> Store(s.m, t, w)[q] == s.m[q]
    ensures Entry(Store(s.m, t, w), p, i) ==
            if p == PageOf(s.m, Above(t)) && i == Index(t) then w else Entry(s.m, p, i)
  {
    hide Tree, Load, Save, Word;
    TableOwned(s, Above(t));
    LoadOfSave(s.m[PageOf(s.m, Above(t))], Index(t), w, i);
  }

  /** Storing an entry changes that place alone. */
  lemma StoreWord(s: Vm, t: Place, w: nat, u: Place)
    requires MayStore(s, t, w) && u.r in s.roots
    ensures Word(Store(s.m, t, w), u) == if u == t then w else Word(s.m, u)
    ensures PageOf(Store(s.m, t, w), u) == if u == t then Ppn(w) else PageOf(s.m, u)
    decreases Depth(u)
  {
    if !u.P2? {
      var m' := Store(s.m, t, w);
      WordAbove(s.m, u);
      WordAbove(m', u);
      StoreWord(s, t, w, Above(u));
      StoreUnder(s, t, w, u);
    }
  }

  lemma StoreUnder(s: Vm, t: Place, w: nat, u: Place)
    requires MayStore(s, t, w) && u.r in s.roots && !u.P2?
    ensures Entry(Store(s.m, t, w), if Above(u) == t then Ppn(w) else PageOf(s.m, Above(u)), Index(u)) ==
            if u == t then w else Entry(s.m, PageOf(s.m, Above(u)), Index(u))
  {
    hide Word, Entry, Tree, Store, Load;
    if Above(u) == t {
      StoreEntry(s, t, w, Ppn(w), Index(u));
      UnderEmpty(s, t, w, u);
    } else {
      StoreEntry(s, t, w, PageOf(s.m, Above(u)), Index(u));
      if PageOf(s.m, Above(u)) == PageOf(s.m, Above(t)) {
        SamePlace(s, Above(t), Above(u));
        AboveOnce(t, u);
      }
    }
  }

  /** Nothing was, and nothing will be, in the table whose own entry is written. */
  lemma UnderEmpty(s: Vm, t: Place, w: nat, u: Place)
    requires MayStore(s, t, w) && !u.P2? && Above(u) == t
    ensures Entry(s.m, PageOf(s.m, t), Index(u)) == 0 && Entry(s.m, Ppn(w), Index(u)) == 0
    ensures u != t && Ppn(w) != PageOf(s.m, Above(t))
  {
    hide Word, Load;
    WordAbove(s.m, u);
    TableOwned(s, Above(t));
    hide Tree;
    if w != 0 { assert PageOf(s.m, t) == 0; }
  }

  /** What each page is for when the entry of t has become w. A new page is given to the tree, or
      lent. */
  function Reown(s: Vm, t: Place, w: nat, give: bool): map<nat, Place>
  {
    var own := s.own - {PageOf(s.m, t)};
    if w != 0 && give then own[Ppn(w) := t] else own
  }

  /** What the page of a new entry has to be: no page the trees or the free list know, and one
      of kalloc's that nobody else maps if it is given. */
  ghost predicate Admits(s: Vm, t: Place, w: nat, give: bool)
  {
    w != 0 ==>
      && Word(s.m, t) == 0 && 0 < Ppn(w) < |s.m| && Ppn(w) !in s.free && Ppn(w) !in s.own
      && (give ==> s.lo <= Ppn(w) && Unmapped(s, Ppn(w)))
      && (t.Leaf? ==> HasRwx(w))
      && (IsTable(t) ==> give && Flags(w) == PTE_V)
  }

  lemma StoreTree(s: Vm, t: Place, w: nat, give: bool)
    requires MayStore(s, t, w) && Admits(s, t, w, give)
    ensures Tree(s.(m := Store(s.m, t, w), own := Reown(s, t, w, give)))
  {
    var s' := s.(m := Store(s.m, t, w), own := Reown(s, t, w, give));
    StoreEntry(s, t, w, 0, 0);
    forall r | r in s'.roots ensures r in s'.own && s'.own[r] == P2(r) { StoreRoots(s, t, w, r); }
    forall p | p in s'.own ensures Placed(s', s'.own[p], p) { StorePlaced(s, t, w, give, p); }
    forall u: Place | u.r in s'.roots && Word(s'.m, u) != 0 ensures Named(s', u) { StoreNamed(s, t, w, give, u); }
  }

  lemma StoreRoots(s: Vm, t: Place, w: nat, r: nat)
    requires MayStore(s, t, w) && r in s.roots
    ensures r in s.own && s.own[r] == P2(r) && PageOf(s.m, t) != r
  {
    hide Word;
    if PageOf(s.m, t) == r {
      PlacedOf(s, r);
      NamedOf(s, t);
    }
  }

  lemma StorePlaced(s: Vm, t: Place, w: nat, give: bool, p: nat)
    requires MayStore(s, t, w) && Admits(s, t, w, give) && p in Reown(s, t, w, give)
    ensures Placed(s.(m := Store(s.m, t, w), own := Reown(s, t, w, give)), Reown(s, t, w, give)[p], p)
  {
    hide Tree, Word, Store;
    StoreEntry(s, t, w, 0, 0);
    StoreWord(s, t, w, t);
    if p in s.own && !(w != 0 && give && p == Ppn(w)) {
      PlacedOf(s, p);
      StoreWord(s, t, w, s.own[p]);
    }
  }

  lemma StoreNamed(s: Vm, t: Place, w: nat, give: bool, u: Place)
    requires MayStore(s, t, w) && Admits(s, t, w, give) && u.r in s.roots && Word(Store(s.m, t, w), u) != 0
    ensures Named(s.(m := Store(s.m, t, w), own := Reown(s, t, w, give)), u)
  {
    hide Tree, Word, Store, HasRwx, Flags;
    StoreEntry(s, t, w, 0, 0);
    StoreWord(s, t, w, u);
    if u != t {
      NamedOf(s, u);
      if u.Leaf? && w != 0 && give { UnmappedLeaf(s, Ppn(w), u); }
      if IsTable(u) && PageOf(s.m, u) == PageOf(s.m, t) && Word(s.m, t) != 0 { NamedOf(s, t); }
    }
  }
}
