/** Taking a page table apart (freewalk), and copying bytes through one (copyout): kernel/mm/vm.c. */
module PageWalk {
  import opened PageTable
  import opened PageMap
  import opened PageRuns

  // ---------- subtrees ----------

  function I2(x: Place): Idx
    requires !x.P2?
  {
    match x
    case P1(_, i2) => i2
    case P0(_, i2, _) => i2
    case Leaf(_, v) => Px2(v)
  }

  function I1(x: Place): Idx
    requires !x.P2? && !x.P1?
  {
    match x
    case P0(_, _, i1) => i1
    case Leaf(_, v) => Px1(v)
  }

  /** Place x is t or below it. */
  predicate Under(x: Place, t: Place)
  {
    x.r == t.r &&
    match t
    case P2(_) => true
    case P1(_, i2) => !x.P2? && I2(x) == i2
    case P0(_, i2, i1) => !x.P2? && !x.P1? && I2(x) == i2 && I1(x) == i1
    case Leaf(_, _) => x == t
  }

  /** The index in the table of t of the branch that x is in. */
  function Branch(x: Place, t: Place): Idx
    requires IsTable(t) && Under(x, t) && x != t
  {
    match t
    case P2(_) => I2(x)
    case P1(_, _) => I1(x)
    case P0(_, _, _) => Px0(x.v)
  }

  function Child(t: Place, i: Idx): (c: Place)
    requires IsTable(t)
  {
    match t
    case P2(r) => P1(r, i)
    case P1(r, i2) => P0(r, i2, i)
    case P0(r, i2, i1) => Leaf(r, i2 * 0x4_0000 + i1 * 512 + i)
  }

  lemma ChildIs(t: Place, i: Idx)
    requires IsTable(t)
    ensures var c := Child(t, i); !c.P2? && Above(c) == t && Index(c) == i && c.r == t.r && Under(c, t) && c != t && Branch(c, t) == i
  {
    if t.P0? { Digits(t.i2, t.i1, i); }
  }

  lemma Digits(i2: Idx, i1: Idx, i: Idx)
    ensures var v := i2 * 0x4_0000 + i1 * 512 + i;
            v < VPNS && Px2(v) == i2 && Px1(v) == i1 && Px0(v) == i
  {
    var v := i2 * 0x4_0000 + i1 * 512 + i;
    assert v / 512 == i2 * 512 + i1;
    assert v / 512 % 512 == i1;
    assert v % 512 == i;
  }

  /** What is below t is below exactly one child of t. */
  lemma UnderChild(x: Place, t: Place, i: Idx)
    requires IsTable(t) && Under(x, t) && x != t
    ensures Under(x, Child(t, i)) <==> Branch(x, t) == i
  {
    ChildIs(t, i);
    if t.P0? {
      Digits(t.i2, t.i1, i);
      if Px0(x.v) == i { PxOnce(x.v, Child(t, i).v); }
    }
  }

  lemma ChildUnder(x: Place, t: Place, i: Idx)
    requires IsTable(t) && Under(x, Child(t, i))
    ensures Under(x, t) && x != t && Branch(x, t) == i
  {
    ChildIs(t, i);
  }

  /** The pages of the branches of t below i. */
  function Branches(s: Vm, t: Place, i: nat): set<nat>
    requires IsTable(t)
  {
    set p | p in s.own && Under(s.own[p], t) && s.own[p] != t && Branch(s.own[p], t) < i
  }

  function Subtree(s: Vm, t: Place): set<nat>
  {
    set p | p in s.own && Under(s.own[p], t)
  }

  /** No page is mapped below t. */
  ghost predicate NoLeaf(s: Vm, t: Place)
  {
    forall v: Vpn :: Under(Leaf(t.r, v), t) ==> Lookup(s.m, t.r, v) == 0
  }

  /** No page is mapped in the branches of t below i. */
  ghost predicate NoLeafBelow(s: Vm, t: Place, i: nat)
    requires IsTable(t)
  {
    forall v: Vpn :: Under(Leaf(t.r, v), t) && Branch(Leaf(t.r, v), t) < i ==> Lookup(s.m, t.r, v) == 0
  }

  /** Nothing is below an entry that is not there. */
  lemma NothingUnder(m: Mem, c: Place, x: Place)
    requires !c.P2? && Word(m, c) == 0 && Under(x, c)
    ensures Word(m, x) == 0
  {}

  lemma BranchesMore(s: Vm, t: Place, i: Idx)
    requires IsTable(t)
    ensures Branches(s, t, i + 1) == Branches(s, t, i) + Subtree(s, Child(t, i))
  {
    hide Under, Branch;
    forall p | p in s.own && s.own[p] != t && Under(s.own[p], t) { UnderChild(s.own[p], t, i); }
    forall p | p in s.own && Under(s.own[p], Child(t, i)) ensures p in Branches(s, t, i + 1) { ChildUnder(s.own[p], t, i); }
  }

  // ---------- freewalk ----------

  /** The state in which branches below i of t have been freed. */
  ghost predicate Walking(s: Vm, s': Vm, head: nat, t: Place, i: nat)
    requires IsTable(t)
  {
    Tree(s) && Shrunk(s, s', Branches(s, t, i), true) && SameLookups(s, s') && FreeList(s', head) && NoLeafBelow(s, t, i)
  }

  /** The whole subtree of t has been freed; the entry of t itself, in page above, is still to be
      cleared. A root has no entry, and is an address space no more. */
  ghost predicate Gone(s: Vm, s': Vm, head: nat, t: Place, above: nat)
    requires !t.P2? ==> above < |s'.m|
  {
    if t.P2? then Dropped(s, s', head, t.r) else
      var s3 := s'.(m := s'.m[above := Save(s'.m[above], Index(t), 0)]);
      Shrunk(s, s3, Subtree(s, t), true) && SameLookups(s, s3) && FreeList(s3, head)
  }

  ghost predicate Dropped(s: Vm, s': Vm, head: nat, r: nat)
  {
    && Tree(s') && FreeList(s', head) && s'.lo == s.lo && s'.roots == s.roots - {r} && |s'.m| == |s.m|
    && s'.own == s.own - Subtree(s, P2(r))
    && (forall p :: p in s'.free <==> p in s.free || p in Subtree(s, P2(r)))
    && (forall q, v: Vpn :: q in s'.roots ==> Lookup(s'.m, q, v) == Lookup(s.m, q, v))
    && (forall p: nat :: IsData(s, p) && p !in Subtree(s, P2(r)) ==> Same(s.m, s'.m, p))
  }

  lemma WalkingNone(s: Vm, head: nat, t: Place)
    requires Tree(s) && FreeList(s, head) && IsTable(t)
    ensures Walking(s, s, head, t, 0)
  {
    hide Word;
    assert Branches(s, t, 0) == {};
    ShrunkSelf(s, true);
  }

  /** A table that is not freed yet stays where it is. */
  lemma TableStays(s: Vm, s': Vm, t: Place, i: nat, p: nat)
    requires Tree(s) && IsTable(t) && t.r in s.roots && PageOf(s.m, t) == p != 0
    requires Shrunk(s, s', Branches(s, t, i), true)
    ensures p < |s'.m| && PageOf(s'.m, t) == p && t.r in s'.roots && p in s'.own && s'.own[p] == t && Tree(s')
  {
    hide Word, Load, Same, Under;
    TableOwned(s, t);
    PlacedOf(s', p);
  }

  /** Where the entry of a child is, and what it says. */
  lemma ChildEntry(s: Vm, t: Place, i: Idx, p: nat)
    requires Tree(s) && IsTable(t) && t.r in s.roots && PageOf(s.m, t) == p != 0 && p < |s.m|
    ensures Word(s.m, Child(t, i)) == if IsValid(Load(s.m[p], i)) then Load(s.m[p], i) else 0
    ensures PageOf(s.m, Child(t, i)) == Ppn(Word(s.m, Child(t, i)))
    ensures IsValid(Load(s.m[p], i)) ==> (HasRwx(Load(s.m[p], i)) <==> Child(t, i).Leaf?) && PageOf(s.m, Child(t, i)) != 0
  {
    hide Word, Load, Under, Tree, Child, HasRwx;
    ChildIs(t, i);
    WordAbove(s.m, Child(t, i));
    if Word(s.m, Child(t, i)) != 0 {
      NamedOf(s, Child(t, i));
      if IsTable(Child(t, i)) { TableFlags(Word(s.m, Child(t, i))); }
    }
  }

  lemma TableFlags(w: nat)
    requires Flags(w) == PTE_V
    ensures !HasRwx(w)
  {}

  lemma ShrunkTwice(s: Vm, t: Vm, u: Vm, g: set<nat>, h: set<nat>)
    requires Shrunk(s, t, g, true) && Shrunk(t, u, h, true)
    ensures Shrunk(s, u, g + h, true)
  {
    hide Tree;
    assert u.own == s.own - (g + h);
    forall p: nat | IsData(s, p) && p !in g + h ensures Same(s.m, u.m, p) {
      assert p in t.own ==> p in s.own;
      assert IsData(t, p);
    }
  }

  /** The subtree of a branch that has not been reached is as it was. */
  lemma SubtreeStill(s: Vm, s1: Vm, t: Place, i: Idx)
    requires IsTable(t) && s1.own == s.own - Branches(s, t, i)
    ensures Subtree(s1, Child(t, i)) == Subtree(s, Child(t, i))
  {
    hide Under, Branch;
    forall p | p in s.own && Under(s.own[p], Child(t, i)) ensures p !in Branches(s, t, i) { ChildUnder(s.own[p], t, i); }
  }

  lemma LeavesMoreBelow(s: Vm, s1: Vm, t: Place, i: Idx)
    requires IsTable(t) && NoLeafBelow(s, t, i) && SameLookups(s, s1) && t.r in s.roots && NoLeaf(s1, Child(t, i))
    ensures NoLeafBelow(s, t, i + 1)
  {
    hide Under, Branch, Word;
    ChildIs(t, i);
    forall v: Vpn | Under(Leaf(t.r, v), t) && Branch(Leaf(t.r, v), t) < i + 1 ensures Lookup(s.m, t.r, v) == 0 {
      UnderChild(Leaf(t.r, v), t, i);
      assert Lookup(s1.m, t.r, v) == Lookup(s.m, t.r, v);
    }
  }

  /** After the table of a branch has been freed, and its entry cleared. */
  lemma WalkStep(s: Vm, s1: Vm, s2: Vm, head: nat, head': nat, t: Place, i: Idx, p: nat)
    requires IsTable(t) && Walking(s, s1, head, t, i) && p < |s2.m| && t.r in s.roots && NoLeaf(s1, Child(t, i))
    requires Gone(s1, s2, head', Child(t, i), p)
    ensures Walking(s, s2.(m := s2.m[p := Save(s2.m[p], i, 0)]), head', t, i + 1)
  {
    var c := Child(t, i);
    var s3 := s2.(m := s2.m[p := Save(s2.m[p], i, 0)]);
    ChildIs(t, i);
    LeavesMoreBelow(s, s1, t, i);
    hide Under, Branch, Word, Save, Tree, NoLeafBelow, NoLeaf, FreeList, Child, Subtree, Branches, Lookup;
    assert s1.own == s.own - Branches(s, t, i) && s1.roots == s.roots;
    hide Shrunk;
    SubtreeStill(s, s1, t, i);
    BranchesMore(s, t, i);
    ShrunkTwice(s, s1, s3, Branches(s, t, i), Subtree(s1, c));
    BothLookups(s, s1, s3);
  }

  lemma BothLookups(s: Vm, t: Vm, u: Vm)
    requires SameLookups(s, t) && t.roots == s.roots && SameLookups(t, u)
    ensures SameLookups(s, u)
  {
    hide Word;
  }

  /** There is nothing in a branch whose entry is not valid. */
  lemma SkipStep(s: Vm, s1: Vm, head: nat, t: Place, i: Idx)
    requires IsTable(t) && Walking(s, s1, head, t, i) && t.r in s.roots && Word(s1.m, Child(t, i)) == 0
    ensures Walking(s, s1, head, t, i + 1)
  {
    ChildIs(t, i);
    NoneBelow(s1, Child(t, i));
    LeavesMoreBelow(s, s1, t, i);
    hide Under, Branch, Word, NoLeafBelow, NoLeaf, FreeList, Child, Same, IsData, Lookup;
    SubtreeStill(s, s1, t, i);
    NoneOwned(s1, Child(t, i));
    BranchesMore(s, t, i);
    assert Branches(s, t, i + 1) == Branches(s, t, i);
  }

  lemma NoneBelow(s: Vm, c: Place)
    requires !c.P2? && Word(s.m, c) == 0
    ensures NoLeaf(s, c)
  {
    hide Under, Word;
    forall v: Vpn | Under(Leaf(c.r, v), c) ensures Lookup(s.m, c.r, v) == 0 { NothingUnder(s.m, c, Leaf(c.r, v)); }
  }

  lemma NoneOwned(s: Vm, c: Place)
    requires Tree(s) && !c.P2? && Word(s.m, c) == 0
    ensures Subtree(s, c) == {}
  {
    hide Under, Word, Tree;
    forall p | p in s.own ensures !Under(s.own[p], c) {
      PlacedOf(s, p);
      if Under(s.own[p], c) { NothingUnder(s.m, c, s.own[p]); UnderNoRoot(s.own[p], c); }
    }
  }

  lemma UnderNoRoot(x: Place, c: Place)
    requires Under(x, c) && !c.P2?
    ensures !x.P2?
  {}

  /** Once all branches have been freed nothing but the table itself is left. */
  lemma LastStep(s: Vm, s1: Vm, head: nat, t: Place, p: nat)
    requires IsTable(t) && Walking(s, s1, head, t, ENTRIES) && t.r in s.roots && p == PageOf(s.m, t) != 0
    ensures NoLeaf(s, t) && EmptyTable(s1.m, p)
    ensures Subtree(s, t) == Branches(s, t, ENTRIES) + {p} && p !in Branches(s, t, ENTRIES)
  {
    hide Under, Branch, Word, FreeList, Child, Same, IsData, Load;
    TableStays(s, s1, t, ENTRIES, p);
    TableOwned(s, t);
    OwnedOnce(s, t, p);
    forall i: Idx ensures Entry(s1.m, p, i) == 0 { LastEntry(s, s1, head, t, p, i); }
  }

  lemma OwnedOnce(s: Vm, t: Place, p: nat)
    requires Tree(s) && IsTable(t) && t.r in s.roots && p == PageOf(s.m, t) && p in s.own && s.own[p] == t
    ensures forall q :: q in s.own && s.own[q] == t ==> q == p
    ensures Under(t, t)
  {
    hide Word, Tree;
    forall q | q in s.own && s.own[q] == t ensures q == p { PlacedOf(s, q); }
  }

  lemma LastEntry(s: Vm, s1: Vm, head: nat, t: Place, p: nat, i: Idx)
    requires IsTable(t) && Walking(s, s1, head, t, ENTRIES) && t.r in s.roots && p == PageOf(s1.m, t) && Tree(s1)
    ensures Entry(s1.m, p, i) == 0
  {
    var c := Child(t, i);
    ChildIs(t, i);
    hide Word, FreeList, Child, Same, IsData, Entry, Tree;
    WordAbove(s1.m, c);
    if Word(s1.m, c) != 0 {
      NamedOf(s1, c);
      if c.Leaf? { LeafSeen(s, s1, t, c, c.v); } else { TableSeen(s, s1, t, c); }
    }
  }

  lemma LeafSeen(s: Vm, s1: Vm, t: Place, c: Place, v: Vpn)
    requires IsTable(t) && NoLeafBelow(s, t, ENTRIES) && SameLookups(s, s1) && t.r in s.roots
    requires c == Leaf(t.r, v) && Under(c, t)
    ensures Word(s1.m, c) == 0
  {
    hide Word, Under;
    assert Lookup(s1.m, t.r, v) == Lookup(s.m, t.r, v);
  }

  lemma TableSeen(s: Vm, s1: Vm, t: Place, c: Place)
    requires IsTable(t) && s1.own == s.own - Branches(s, t, ENTRIES) && Under(c, t) && c != t
    ensures PageOf(s1.m, c) !in s1.own || s1.own[PageOf(s1.m, c)] != c
  {
    hide Word, Under;
  }

  /** The entry of an empty table, cleared. */
  function Detached(s1: Vm, t: Place, p: nat): Vm
    requires !t.P2?
  {
    s1.(m := Store(s1.m, t, 0), own := s1.own - {p})
  }

  lemma DetachKeeps(s1: Vm, head: nat, t: Place, p: nat, above: nat)
    requires Tree(s1) && FreeList(s1, head) && IsTable(t) && !t.P2? && t.r in s1.roots
    requires p == PageOf(s1.m, t) != 0 && p in s1.own && s1.own[p] == t && EmptyTable(s1.m, p)
    requires above == PageOf(s1.m, Above(t)) != 0
    ensures above < |s1.m| && above != p && Store(s1.m, t, 0) == s1.m[above := Save(s1.m[above], Index(t), 0)]
    ensures Tree(Detached(s1, t, p)) && FreeList(Detached(s1, t, p), head) && InHand(Detached(s1, t, p), p)
    ensures SameLookups(s1, Detached(s1, t, p))
    ensures above in s1.own && IsTable(s1.own[above])
  {
    var s' := Detached(s1, t, p);
    hide Word, Load, Save, FreeList;
    TableOwned(s1, Above(t));
    PlacedOf(s1, p);
    AboveNot(t);
    assert Reown(s1, t, 0, false) == s1.own - {p};
    StoreTree(s1, t, 0, false);
    StoreEntry(s1, t, 0, 0, 0);
    TableLookups(s1, s', t, 0);
    hide Tree, Store;
    DetachedUnmapped(s1, s', t, p);
    TableFree(s1, s', head, p);
  }

  lemma AboveNot(t: Place)
    requires !t.P2?
    ensures Above(t) != t
  {}

  lemma DetachedUnmapped(s1: Vm, s': Vm, t: Place, p: nat)
    requires Tree(s1) && SameLookups(s1, s') && s'.roots == s1.roots && p !in s'.own && p in s1.own && s1.own[p] == t && IsTable(t)
    ensures Unmapped(s', p)
  {
    hide Word, Tree;
    forall q, v: Vpn | q in s'.roots && Lookup(s'.m, q, v) != 0 ensures Ppn(Lookup(s'.m, q, v)) != p {
      LeafNamed(s1, q, v);
    }
  }

  /** The emptied table itself is freed before its entry is cleared. */
  lemma FreeTable(s: Vm, s1: Vm, head: nat, t: Place, p: nat, above: nat)
    requires IsTable(t) && !t.P2? && Walking(s, s1, head, t, ENTRIES) && t.r in s.roots && p == PageOf(s.m, t) != 0
    requires above == PageOf(s.m, Above(t)) != 0
    ensures s1.lo <= p < |s1.m| && above < |s1.m|
    ensures Gone(s, Freed(s1, p).(own := s1.own - {p}), p, t, above)
  {
    hide Word, Load, Save, Under, Branch, IsData, NoLeafBelow, EmptyTable, Tree, FreeList, InHand, SameLookups, NoLeaf, Subtree, Branches;
    LastStep(s, s1, head, t, p);
    TableStays(s, s1, t, ENTRIES, p);
    AboveStays(s, s1, t, above);
    PlacedOf(s1, p);
    assert s1.roots == s.roots;
    hide Shrunk;
    DetachKeeps(s1, head, t, p, above);
    FreeKeeps(Detached(s1, t, p), head, p);
    hide Store, Pages;
    FreeDetached(s, s1, t, p, above);
    BothLookups(s, s1, Detached(s1, t, p));
    BothLookups(s, Detached(s1, t, p), Freed(Detached(s1, t, p), p));
  }

  lemma FreeDetached(s: Vm, s1: Vm, t: Place, p: nat, above: nat)
    requires !t.P2? && p < |s1.m| && above < |s1.m| && above != p && p in s1.own && above in s1.own && IsTable(s1.own[above])
    requires Store(s1.m, t, 0) == s1.m[above := Save(s1.m[above], Index(t), 0)]
    requires IsTable(t) && Shrunk(s, s1, Branches(s, t, ENTRIES), true) && Tree(Freed(Detached(s1, t, p), p))
    requires Subtree(s, t) == Branches(s, t, ENTRIES) + {p}
    ensures var s2, s3 := Freed(s1, p).(own := s1.own - {p}), Freed(Detached(s1, t, p), p);
            && s3 == s2.(m := s2.m[above := Save(s2.m[above], Index(t), 0)]) && s3.roots == s1.roots
            && Shrunk(s, s3, Subtree(s, t), true)
  {
    hide Word, Save, Under, Branch, IsData, Tree, Store, Branches, Subtree, Shrunk;
    var s2, s3 := Freed(s1, p).(own := s1.own - {p}), Freed(Detached(s1, t, p), p);
    assert s3.m == s2.m[above := Save(s2.m[above], Index(t), 0)];
    FreedShrunk(s, s1, s3, Branches(s, t, ENTRIES), p, above);
  }

  lemma AboveStays(s: Vm, s1: Vm, t: Place, above: nat)
    requires Tree(s) && IsTable(t) && !t.P2? && t.r in s.roots && above == PageOf(s.m, Above(t)) != 0
    requires Shrunk(s, s1, Branches(s, t, ENTRIES), true)
    ensures PageOf(s1.m, Above(t)) == above
  {
    hide Word, Same, IsData;
    TableOwned(s, Above(t));
    PlacedOf(s1, above);
  }

  lemma FreedShrunk(s: Vm, s1: Vm, s3: Vm, gone: set<nat>, p: nat, above: nat)
    requires Shrunk(s, s1, gone, true) && p in s1.own && p < |s1.m| && above in s1.own && IsTable(s1.own[above])
    requires Tree(s3) && s3 == s1.(m := s3.m, own := s1.own - {p}, free := [p] + s1.free) && |s3.m| == |s1.m|
    requires forall q: nat :: q != p && q != above ==> Same(s1.m, s3.m, q)
    ensures Shrunk(s, s3, gone + {p}, true)
  {
    hide Tree;
    assert s3.own == s.own - (gone + {p});
    forall q: nat | IsData(s, q) && q !in gone + {p} ensures Same(s.m, s3.m, q) {
      assert above in s.own && s.own[above] == s1.own[above];
      assert Same(s.m, s1.m, q) && Same(s1.m, s3.m, q);
    }
  }

  /** The root of an address space with nothing left below it. */
  lemma FreeRoot(s: Vm, s1: Vm, head: nat, t: Place, p: nat)
    requires t.P2? && Walking(s, s1, head, t, ENTRIES) && t.r in s.roots && p == t.r != 0
    ensures s1.lo <= p < |s1.m| && Dropped(s, Freed(s1, p).(own := s1.own - {p}, roots := s1.roots - {p}), p, p)
  {
    hide Word, Load, Save, Branch, Same, IsData, NoLeafBelow, EmptyTable, Under, FreeList, Subtree, SameLookups, Branches, Tree, InHand, Pages, NoLeaf;
    LastStep(s, s1, head, t, p);
    TableStays(s, s1, t, ENTRIES, p);
    RootKeeps(s, s1, head, p);
    var sR := s1.(own := s1.own - {p}, roots := s1.roots - {p});
    PlacedOf(s1, p);
    FreeKeeps(sR, head, p);
    var s3 := Freed(sR, p);
    RootLookups(s, s1, sR, s3);
    forall q: nat | IsData(s, q) && q !in Subtree(s, P2(p)) ensures Same(s.m, s3.m, q) {
      SameFreed(s, s1, p, q);
    }
  }

  lemma SameFreed(s: Vm, s1: Vm, p: nat, q: nat)
    requires Same(s.m, s1.m, q) && p < |s1.m| && p != q
    ensures Same(s.m, Freed(s1, p).m, q)
  {
    hide Save;
  }

  lemma RootLookups(s: Vm, s1: Vm, sR: Vm, s3: Vm)
    requires SameLookups(s, s1) && s1.roots == s.roots && sR.m == s1.m && SameLookups(sR, s3) && sR.roots <= s.roots && s3.roots == sR.roots
    ensures forall q, v: Vpn :: q in s3.roots ==> Lookup(s3.m, q, v) == Lookup(s.m, q, v)
  {
    hide Word;
  }

  lemma RootKeeps(s: Vm, s1: Vm, head: nat, r: nat)
    requires Walking(s, s1, head, P2(r), ENTRIES) && r in s.roots && r in s1.own && s1.own[r] == P2(r)
    ensures var sR := s1.(own := s1.own - {r}, roots := s1.roots - {r});
            Tree(sR) && FreeList(sR, head) && InHand(sR, r)
  {
    var sR := s1.(own := s1.own - {r}, roots := s1.roots - {r});
    OnlyRoot(s, s1, r);
    hide Word, Load, NoLeafBelow, SameLookups, Same, IsData, Branches;
    RootTree(s1, sR, r);
    PlacedOf(s1, r);
    RootUnmapped(s1, sR, r);
    hide Tree, Branch, Under, Walking, Shrunk;
    forall q | q in s1.free && Unmapped(s1, q) ensures Unmapped(sR, q) {}
    hide Unmapped;
    FreeListSame(s1, sR, head);
  }

  lemma OnlyRoot(s: Vm, s1: Vm, r: nat)
    requires Tree(s) && Tree(s1) && s1.own == s.own - Branches(s, P2(r), ENTRIES)
    ensures forall p :: p in s1.own && s1.own[p].r == r ==> p == r
  {
    hide Word, Tree;
    forall p | p in s1.own && s1.own[p].r == r ensures p == r { PlacedOf(s1, p); }
  }

  lemma RootTree(s1: Vm, sR: Vm, r: nat)
    requires Tree(s1) && sR == s1.(own := s1.own - {r}, roots := s1.roots - {r}) && r in s1.own && s1.own[r] == P2(r)
    requires forall p :: p in s1.own && s1.own[p].r == r ==> p == r
    ensures Tree(sR)
  {
    hide Word;
    forall p | p in sR.own ensures Placed(sR, sR.own[p], p) { PlacedOf(s1, p); }
    forall t: Place | t.r in sR.roots && Word(sR.m, t) != 0 ensures Named(sR, t) { NamedOf(s1, t); }
  }

  lemma RootUnmapped(s1: Vm, sR: Vm, r: nat)
    requires Tree(s1) && sR == s1.(own := s1.own - {r}, roots := s1.roots - {r}) && r in s1.own && s1.own[r] == P2(r)
    ensures Unmapped(sR, r)
  {
    hide Word, Tree;
    forall q, v: Vpn | q in sR.roots && Lookup(sR.m, q, v) != 0 ensures Ppn(Lookup(sR.m, q, v)) != r { LeafNamed(s1, q, v); }
  }

  // ---------- copyout ----------

  /** The user may reach address x of address space r. */
  predicate UserAt(s: Vm, r: nat, x: nat)
  {
    x / PGSIZE < MAXVPN && Lookup(s.m, r, x / PGSIZE) != 0 && HasU(Lookup(s.m, r, x / PGSIZE))
  }

  ghost predicate UserRange(s: Vm, r: nat, dst: nat, d: nat)
  {
    forall x: nat :: dst <= x < dst + d ==> UserAt(s, r, x)
  }

  function PageAt(s: Vm, r: nat, x: nat): nat
  {
    if UserAt(s, r, x) then Ppn(Lookup(s.m, r, x / PGSIZE)) else 0
  }

  /** Memory after the first d bytes of src have been stored, one by one, at the addresses from
      dst on. */
  function Pokes(s: Vm, r: nat, dst: nat, src: seq<Byte>, d: nat): (m: Mem)
    requires d <= |src|
    ensures |m| == |s.m|
  {
    if d == 0 then s.m else
      var m, x := Pokes(s, r, dst, src, d - 1), dst + d - 1;
      var p := PageAt(s, r, x);
      if p < |m| then m[p := m[p][x % PGSIZE := src[d - 1]]] else m
  }

  /** No page but those of contents is written. */
  lemma {:induction false} PokesData(s: Vm, r: nat, dst: nat, src: seq<Byte>, d: nat, p: nat)
    requires d <= |src| && Tree(s) && r in s.roots && UserRange(s, r, dst, d) && p < |s.m| && !IsData(s, p)
    ensures Pokes(s, r, dst, src, d)[p] == s.m[p]
  {
    hide Word, Tree;
    if d > 0 {
      PokesData(s, r, dst, src, d - 1, p);
      assert UserAt(s, r, dst + d - 1);
      LeafNamed(s, r, (dst + d - 1) / PGSIZE);
    }
  }

  lemma PokesKeeps(s: Vm, head: nat, r: nat, dst: nat, src: seq<Byte>, d: nat)
    requires d <= |src| && Tree(s) && FreeList(s, head) && r in s.roots && UserRange(s, r, dst, d)
    ensures var s' := s.(m := Pokes(s, r, dst, src, d));
            Tree(s') && FreeList(s', head) && SameLookups(s, s')
  {
    var s' := s.(m := Pokes(s, r, dst, src, d));
    hide Word, Pokes, Load;
    forall p | p in s.own && IsTable(s.own[p]) && p < |s.m| ensures s'.m[p] == s.m[p] { PokesData(s, r, dst, src, d, p); }
    TreeSame(s, s');
    LookupsSame(s, s');
    hide Tree;
    forall q | q in s.free ensures Same(s.m, s'.m, q) {
      if q < |s.m| { PokesData(s, r, dst, src, d, q); }
    }
    forall q | q in s.free && Unmapped(s, q) ensures Unmapped(s', q) { UnmappedSame(s, s', q); }
    FreeListSame(s, s', head);
  }

  /** No page of contents is mapped at two places of a range. */
  ghost predicate Distinct(s: Vm, r: nat, dst: nat, d: nat)
  {
    forall x: nat, y: nat :: dst <= x < dst + d && dst <= y < dst + d && PageAt(s, r, x) == PageAt(s, r, y) ==>
      x / PGSIZE == y / PGSIZE
  }

  /** Through a range of distinct pages the bytes of src are read back. */
  lemma {:induction false} PokesRead(s: Vm, r: nat, dst: nat, src: seq<Byte>, d: nat, x: nat)
    requires d <= |src| && dst <= x < dst + d && Tree(s) && r in s.roots && UserRange(s, r, dst, d) && Distinct(s, r, dst, d)
    ensures var p := PageAt(s, r, x);
            p < |s.m| && Pokes(s, r, dst, src, d)[p][x % PGSIZE] == src[x - dst]
  {
    hide Word, Tree, UserAt, PageAt;
    var y := dst + d - 1;
    PageIn(s, r, x);
    PageIn(s, r, y);
    if x < y {
      PokesRead(s, r, dst, src, d - 1, x);
      if PageAt(s, r, x) == PageAt(s, r, y) { OffsetDiffers(x, y); }
    }
  }

  lemma OffsetDiffers(x: nat, y: nat)
    requires x < y && x / PGSIZE == y / PGSIZE
    ensures x % PGSIZE != y % PGSIZE
  {}

  lemma PageIn(s: Vm, r: nat, x: nat)
    requires Tree(s) && r in s.roots && UserAt(s, r, x)
    ensures PageAt(s, r, x) < |s.m|
  {
    hide Word, Tree;
    LeafNamed(s, r, x / PGSIZE);
  }

  /** Every other byte stays. */
  lemma {:induction false} PokesElse(s: Vm, r: nat, dst: nat, src: seq<Byte>, d: nat, p: nat, o: nat)
    requires d <= |src| && p < |s.m| && o < PGSIZE
    requires forall x: nat :: dst <= x < dst + d && PageAt(s, r, x) == p ==> x % PGSIZE != o
    ensures Pokes(s, r, dst, src, d)[p][o] == s.m[p][o]
  {
    hide Word, PageAt;
    if d > 0 {
      PokesElse(s, r, dst, src, d - 1, p, o);
      var x := dst + d - 1;
      assert PageAt(s, r, x) == p ==> x % PGSIZE != o;
    }
  }

  function Splice(page: Page, off: nat, bytes: seq<Byte>): Page
    requires off + |bytes| <= PGSIZE
  {
    page[..off] + bytes + page[off + |bytes| ..]
  }

  /** Storing n bytes within one page at once. */
  lemma {:induction false} PokesPage(s: Vm, r: nat, dst: nat, src: seq<Byte>, d: nat, n: nat, p: nat)
    requires d + n <= |src| && p < |s.m| && (dst + d) % PGSIZE + n <= PGSIZE
    requires forall x: nat :: dst + d <= x < dst + d + n ==> PageAt(s, r, x) == p
    ensures var m := Pokes(s, r, dst, src, d);
            Pokes(s, r, dst, src, d + n) == m[p := Splice(m[p], (dst + d) % PGSIZE, src[d .. d + n])]
  {
    hide Word, PageAt;
    var m, off := Pokes(s, r, dst, src, d), (dst + d) % PGSIZE;
    if n == 0 {
      assert Splice(m[p], off, []) == m[p];
    } else {
      PokesPage(s, r, dst, src, d, n - 1, p);
      var x := dst + d + n - 1;
      assert PageAt(s, r, x) == p;
      OffsetIs(dst + d, n - 1);
      SpliceMore(m[p], off, src, d, n);
    }
  }

  lemma OffsetIs(x: nat, n: nat)
    requires x % PGSIZE + n < PGSIZE
    ensures (x + n) % PGSIZE == x % PGSIZE + n && (x + n) / PGSIZE == x / PGSIZE
  {}

  lemma SpliceMore(page: Page, off: nat, src: seq<Byte>, d: nat, n: nat)
    requires 0 < n && d + n <= |src| && off + n <= PGSIZE
    ensures Splice(page, off, src[d .. d + (n - 1)])[off + (n - 1) := src[d + (n - 1)]] == Splice(page, off, src[d .. d + n])
  {}

  /** The addresses of one page have one translation. */
  lemma SamePage(s: Vm, r: nat, y: nat, n: nat)
    requires y % PGSIZE + n <= PGSIZE && UserAt(s, r, y)
    ensures forall x: nat :: y <= x < y + n ==> UserAt(s, r, x) && PageAt(s, r, x) == PageAt(s, r, y)
  {
    hide Word;
    forall x: nat | y <= x < y + n ensures UserAt(s, r, x) && PageAt(s, r, x) == PageAt(s, r, y) {
      OffsetIs(y, x - y);
    }
  }
}
