/** The operations of kernel/mm/vm.c and kernel/mm/kalloc.c. Pages are given by their number; the
    registers and the translation cache of the hart are not part of the state. */
module PageOps {
  import opened PageTable
  import opened PageMap
  import opened PageRuns
  import opened PageWalk

  /** What a page table operation comes to: an entry, no entry, or a panic. */
  datatype Walked = At(page: nat, i: Idx) | Absent | WalkPanic

  datatype Outcome = Done | Failed | Panic

  function Px(level: nat, v: Vpn): Idx
    requires level < 3
  {
    if level == 2 then Px2(v) else if level == 1 then Px1(v) else Px0(v)
  }

  // ---------- facts about one step of walk ----------

  lemma NoneFree(s: Vm, head: nat)
    requires Tree(s) && FreeList(s, head)
    ensures s.free == [] <==> head == 0
  {}

  lemma SomeFree(s: Vm, head: nat)
    requires FreeList(s, head) && head != 0
    ensures s.free != [] && s.free[0] == head < |s.m|
  {}

  lemma LinkIs(s: Vm, head: nat)
    requires FreeList(s, head)
    ensures head == Link(s.free, 0)
  {}

  lemma RootIs(s: Vm, r: nat)
    requires Tree(s) && r in s.roots
    ensures 0 < r < |s.m|
  {
    PlacedOf(s, r);
  }

  /** A valid entry of a table names the table below it. */
  lemma TableThere(s: Vm, u: Place, table: nat)
    requires Tree(s) && IsTable(u) && !u.P2? && u.r in s.roots
    requires 0 < table == PageOf(s.m, Above(u)) < |s.m| && IsValid(Load(s.m[table], Index(u)))
    ensures 0 < PageOf(s.m, u) == Ppn(Load(s.m[table], Index(u))) < |s.m|
  {
    hide Tree, Load, Word;
    WordAbove(s.m, u);
    NamedOf(s, u);
  }

  /** An invalid entry means no translation. */
  lemma NoLookup(s: Vm, u: Place, v: Vpn, table: nat)
    requires u == P1(u.r, Px2(v)) || u == P0(u.r, Px2(v), Px1(v))
    requires 0 < table == PageOf(s.m, Above(u)) < |s.m| && !IsValid(Load(s.m[table], Index(u)))
    ensures Word(s.m, u) == 0 && Lookup(s.m, u.r, v) == 0
  {
    hide Load;
    WordAbove(s.m, u);
  }

  /** Page head, the first free one, zeroed and entered in the table above place u. */
  function NewTable(s: Vm, head: nat, u: Place, table: nat): Vm
    requires s.free != [] && head < |s.m| && table < |s.m| && !u.P2?
  {
    var m := s.m[head := ZeroPage];
    s.(m := m[table := Save(m[table], Index(u), head * 1024 + PTE_V)], own := s.own[head := u], free := s.free[1..])
  }

  lemma TableMade(s: Vm, s1: Vm, s': Vm, head: nat, u: Place, table: nat)
    requires Tree(s1) && FreeList(s1, head) && head != 0 && Lacks(s1, u) && table == PageOf(s1.m, Above(u)) < |s1.m|
    requires Grown(s, s1, map[]) && SameLookups(s, s1)
    requires s1.free != [] && s1.free[0] == head < |s1.m|
    requires s' == NewTable(s1, head, u, table)
    ensures Grown(s, s', map[]) && SameLookups(s, s') && FreeList(s', Load(s1.m[head], 0) / PGSIZE)
    ensures PageOf(s'.m, u) == head && Tree(s')
  {
    hide Load, Save, Word, FreeList, Tree, Grown, SameLookups;
    AboveZeroed(s1, head, u);
    assert s' == Tabled(s1, u);
    TableStep(s1, head, u);
    var none: map<nat, Place> := map[];
    assert none + none == none;
    GrownTwice(s, s1, s', none, none);
    GrownRoots(s, s1, map[]);
    GrownRoots(s, s', none);
    LookupsTwice(s, s, s1, s');
  }

  lemma GrownRoots(s: Vm, s': Vm, given: map<nat, Place>)
    requires Grown(s, s', given)
    ensures Tree(s') && s'.roots == s.roots && s'.lo == s.lo && |s'.m| == |s.m|
  {}

  lemma AboveZeroed(s: Vm, head: nat, u: Place)
    requires Tree(s) && FreeList(s, head) && s.free != [] && head < |s.m| && !u.P2? && u.r in s.roots
    ensures PageOf(s.m[head := ZeroPage], Above(u)) == PageOf(s.m, Above(u))
  {
    hide Word, Load;
    NotFree(s, head);
    WordSame(s, s.m[head := ZeroPage], Above(u));
  }

  // ---------- facts about leaf entries ----------

  /** The number of pages that [va, va + size) touches. */
  function PagesIn(va: nat, size: nat): nat
  {
    if size == 0 then 0 else (va + size - 1) / PGSIZE - va / PGSIZE + 1
  }

  ghost predicate Unused(s: Vm, r: nat, v: nat, n: nat)
  {
    v + n <= MAXVPN && forall u: Vpn :: v <= u < v + n ==> Lookup(s.m, r, u) == 0
  }

  lemma MappedLookup(s: Vm, s1: Vm, s2: Vm, r: nat, v: nat, k: nat, ppn: nat, perm: nat, give: bool, u: Low)
    requires MappedSome(s, s1, r, v, k, ppn, perm, give) && SameLookups(s1, s2) && r in s.roots && r in s1.roots && u == v + k
    ensures Lookup(s2.m, r, u) == Lookup(s.m, r, u)
  {
    hide Word, Grown, MakePte;
  }

  lemma EntryIs(s: Vm, r: nat, v: Vpn, page: nat)
    requires page == PageOf(s.m, Above(Leaf(r, v))) < |s.m| && page != 0
    ensures Lookup(s.m, r, v) == if IsValid(Load(s.m[page], Px0(v))) then Load(s.m[page], Px0(v)) else 0
  {
    hide Load;
    WordAbove(s.m, Leaf(r, v));
  }

  lemma LeafSetIs(s: Vm, r: nat, v: Vpn, w: nat, give: bool, page: nat)
    requires page == PageOf(s.m, Above(Leaf(r, v))) < |s.m|
    ensures LeafSet(s, r, v, w, give) ==
            s.(m := s.m[page := Save(s.m[page], Px0(v), w)], own := Reown(s, Leaf(r, v), w, give))
  {
    hide Word, Save;
  }

  lemma OwnedStill(s: Vm, s1: Vm, r: nat, v: nat, k: nat, n: nat, u: Low)
    requires Tree(s) && UnmappedSome(s, s1, r, v, k, true) && OwnsRange(s, r, v, n) && k < n && u == v + k && r in s.roots
    requires Lookup(s1.m, r, u) != 0
    ensures Ppn(Lookup(s1.m, r, u)) in s1.own
  {
    hide Word, Tree;
    LookupKept(s, s1, r, v, k);
    LeafNamed(s, r, u);
  }

  /** A page of contents is no table. */
  lemma TableIsNot(s: Vm, r: nat, v: Vpn, page: nat, p: nat)
    requires Tree(s) && r in s.roots && page == PageOf(s.m, Above(Leaf(r, v))) != 0
    requires p in s.own && s.own[p] == Leaf(r, v)
    ensures p != page && s.lo <= p < |s.m|
  {
    hide Word;
    TableOwned(s, Above(Leaf(r, v)));
    PlacedOf(s, p);
  }

  /** The entry of page v cleared, after its page p has been freed if doFree. */
  function EntryCleared(s: Vm, head: nat, page: nat, i: Idx, p: nat, doFree: bool): Vm
    requires page < |s.m| && p < |s.m|
  {
    var m := if doFree then s.m[p := Save(s.m[p], 0, head * PGSIZE)] else s.m;
    s.(m := m[page := Save(m[page], i, 0)], own := s.own - {p}, free := if doFree then [p] + s.free else s.free)
  }

  lemma UnmapStep(s: Vm, s1: Vm, head: nat, r: nat, v: nat, k: nat, n: nat, doFree: bool, u: Low, page: nat, w: nat)
    requires Tree(s) && Tree(s1) && FreeList(s1, head) && UnmappedSome(s, s1, r, v, k, doFree)
    requires u == v + k && k < n && HasTable(s1, r, u) && Lookup(s1.m, r, u) == w != 0 && r in s.roots
    requires page == PageOf(s1.m, Above(Leaf(r, u))) < |s1.m| && (doFree ==> OwnsRange(s, r, v, n))
    ensures Ppn(w) < |s1.m| && (doFree ==> s1.lo <= Ppn(w))
    ensures var s3 := EntryCleared(s1, head, page, Px0(u), Ppn(w), doFree);
            UnmappedSome(s, s3, r, v, k + 1, doFree) && FreeList(s3, if doFree then Ppn(w) else head) && Tree(s3)
  {
    hide Tree, FreeList, Word, Load, Save, UnmapsRun, Shrunk, LeavesIn, Lookup, PageOf, Unmapped, Cleared, OwnsRange, InHand;
    var p := Ppn(w);
    LeafNamed(s1, r, u);
    ClearStep(s, s1, head, r, v, k, doFree, u);
    LeafSetIs(s1, r, u, 0, false, page);
    LeafOwn(s1, r, u);
    var s2 := LeafSet(s1, r, u, 0, false);
    var s3 := EntryCleared(s1, head, page, Px0(u), p, doFree);
    if doFree {
      OwnedStill(s, s1, r, v, k, n, u);
      LeafGone(s1, r, u);
      FreeStep(s, s1, s2, head, r, v, k, p);
      TableIsNot(s1, r, u, page, p);
      LinkIs(s1, head);
      assert s3 == Freed(s2, p);
    } else {
      KeepStep(s, s1, s2, r, v, k, p);
      assert s3 == s2;
    }
    ShrunkTree(s, s3, LeavesIn(s, r, v, k + 1), doFree);
  }

  // ---------- sizes ----------

  /** PGROUNDUP(sz), in pages. */
  function RoundUp(sz: nat): nat
  {
    (sz + PGSIZE - 1) / PGSIZE
  }

  /** The pages that oldsz bytes have more than newsz bytes. */
  function Excess(oldsz: nat, newsz: nat): nat
  {
    if RoundUp(newsz) < RoundUp(oldsz) then RoundUp(oldsz) - RoundUp(newsz) else 0
  }

  lemma OnePage(a: nat, u: nat)
    requires a == u * PGSIZE
    ensures a / PGSIZE == u && PagesIn(a, PGSIZE) == 1 && RoundUp(a) == u
  {}

  lemma UnusedOne(s: Vm, r: nat, u: nat)
    requires Unused(s, r, u, 1)
    ensures u < MAXVPN && Lookup(s.m, r, u) == 0
  {
    hide Word;
  }

  lemma UsedBehind(s: Vm, s1: Vm, s2: Vm, r: nat, v: nat, k: nat, given: map<nat, Place>, p: nat, newsz: nat)
    requires Filled(s, s1, r, v, k, given) && Taken(s1, s2, p) && r in s1.roots
    requires !Unused(s2, r, v + k, 1) && (v + k) * PGSIZE < newsz
    ensures !Unused(s, r, v, RoundUp(newsz) - v)
  {
    hide Word, Filled, Taken;
    if v + k < MAXVPN { FilledBehind(s, s1, s2, r, v, k, given, p, v + k); }
  }

  lemma FailedUndo(s: Vm, s1: Vm, r: nat, v: nat, k: nat, given: map<nat, Place>, a: nat, start: nat)
    requires Filled(s, s1, r, v, k, given) && start == v * PGSIZE && a == (v + k) * PGSIZE
    ensures OwnsRange(s1, r, RoundUp(start), Excess(a, start)) && MapsAll(s1, r, RoundUp(start), Excess(a, start))
    ensures RoundUp(start) == v && Excess(a, start) == k
  {
    hide Word, Filled;
    FilledZero(s, s1, r, v, k, given);
    FilledOwns(s, s1, r, v, k, given);
    OnePage(start, v);
    OnePage(a, v + k);
  }

  // ---------- facts about the other loops ----------

  lemma TakenLookup(s1: Vm, s2: Vm, p: nat, r: nat, v: Vpn)
    requires Taken(s1, s2, p) && r in s1.roots
    ensures Lookup(s2.m, r, v) == Lookup(s1.m, r, v)
  {
    hide Word, Pages, Tree;
    assert Lookup(Popped(s1).m, r, v) == Lookup(s1.m, r, v);
  }

  lemma FlagsRwx(w: nat)
    requires HasRwx(w)
    ensures HasRwx(Flags(w)) && Flags(w) < 1024
  {
    assert w % 1024 % 16 == w % 16;
  }

  lemma UnusedNot(s: Vm, r: nat, u: nat)
    requires !Unused(s, r, u, 1) && u < MAXVPN
    ensures Lookup(s.m, r, u) != 0
  {
    hide Word;
  }

  /** Both address spaces map some page below k. */
  ghost predicate Clash(s: Vm, o: nat, n: nat, k: nat)
  {
    exists u: Vpn :: u < k && Lookup(s.m, o, u) != 0 && Lookup(s.m, n, u) != 0
  }

  /** The tables for all pages below k are there. */
  ghost predicate HasTables(s: Vm, r: nat, k: nat)
  {
    forall u: Vpn :: u < k ==> HasTable(s, r, u)
  }

  /** The tables of the new space are still there when page p has been taken for the copy of page k,
      and p was given to no page before. */
  lemma CopyTables(s: Vm, s1: Vm, s2: Vm, o: nat, n: nat, k: nat, given: map<nat, Place>, p: nat)
    requires Tree(s) && Copied(s, s1, o, n, k, given) && Taken(s1, s2, p) && k < MAXVPN
    ensures HasTable(s, n, k) ==> HasTable(s2, n, k)
    ensures p !in given && Tree(s2) && InHand(s2, p)
  {
    hide Word, Tree, SameLookups, HasTable;
    assert p !in s1.own;
    if HasTable(s, n, k) { HasTableKept(s, s2, n, k); }
  }

  /** kfree makes no table. */
  lemma TableStillMissing(s: Vm, s': Vm, r: nat, v: Vpn)
    requires Tree(s) && Tree(s') && s'.own == s.own && s'.roots == s.roots && !HasTable(s, r, v)
    ensures !HasTable(s', r, v)
  {
    hide Tree, Word;
    if HasTable(s', r, v) { HasTableKept(s', s, r, v); }
  }

  /** What uvmcopy leaves of its work: the new space is as before if and only if no page below k is
      mapped in the old one. */
  lemma NothingCopiedIff(s: Vm, s': Vm, o: nat, n: nat, k: nat, given: map<nat, Place>)
    requires Copied(s, s', o, n, k, given)
    ensures SameLookups(s, s') <==> forall u: Vpn :: u < k ==> Lookup(s.m, o, u) == 0
  {
    hide Lookup, Grown, MakePte, CopyIn;
    forall u: Vpn | u < k && Lookup(s.m, o, u) != 0 ensures Lookup(s'.m, n, u) != Lookup(s.m, n, u) {
      assert CopiedAt(s, s', given, o, n, u);
      PteNotZero(Ppn(Lookup(s'.m, n, u)), Flags(Lookup(s.m, o, u)));
    }
  }

  lemma PteNotZero(ppn: nat, perm: nat)
    ensures MakePte(ppn, perm) != 0
  {}

  lemma RootPage(m: Mem, t: Place)
    requires t.P2?
    ensures PageOf(m, t) == t.r
  {}

  lemma NothingLost(s: Vm, s': Vm, r: nat, v: nat, u: nat)
    requires MapsAll(s, r, v, 0) && UnmappedSome(s, s', r, v, 0, true)
    ensures UnmappedSome(s, s', r, u, 0, true)
  {
    hide Word;
    assert LeavesIn(s, r, v, 0) == LeavesIn(s, r, u, 0);
  }

  lemma MapsNothing(s: Vm, r: nat, v: nat)
    ensures MapsAll(s, r, v, 0)
  {}

  lemma PokesNone(s: Vm, r: nat, dst: nat, src: seq<Byte>)
    ensures Pokes(s, r, dst, src, 0) == s.m && SameLookups(s, s)
  {}

  lemma UserIs(s: Vm, s1: Vm, r: nat, x: nat)
    requires SameLookups(s, s1) && r in s.roots && x / PGSIZE < MAXVPN
    ensures UserAt(s, r, x) <==> Lookup(s1.m, r, x / PGSIZE) != 0 && HasU(Lookup(s1.m, r, x / PGSIZE))
    ensures UserAt(s, r, x) ==> PageAt(s, r, x) == Ppn(Lookup(s1.m, r, x / PGSIZE))
  {
    hide Word;
    var v: Vpn := x / PGSIZE;
    assert Lookup(s1.m, r, v) == Lookup(s.m, r, v);
  }

  lemma WalkingFacts(s: Vm, s1: Vm, head: nat, t: Place, i: nat, p: nat)
    requires IsTable(t) && Walking(s, s1, head, t, i) && t.r in s.roots && PageOf(s.m, t) == p != 0
    ensures Tree(s1) && FreeList(s1, head) && t.r in s1.roots && |s1.m| == |s.m|
    ensures p < |s1.m| && PageOf(s1.m, t) == p && p in s1.own
  {
    TableStays(s, s1, t, i, p);
  }

  lemma ChildDepth(t: Place, i: Idx)
    requires IsTable(t)
    ensures Depth(Child(t, i)) == Depth(t) + 1 && Depth(t) < 3
  {}

  /** A leaf below a child is one below the table. */
  lemma LeafIn(s: Vm, s1: Vm, head: nat, t: Place, i: Idx)
    requires IsTable(t) && Walking(s, s1, head, t, i) && t.r in s.roots && !NoLeaf(s1, Child(t, i))
    ensures !NoLeaf(s, t)
  {
    ChildIs(t, i);
    hide Word, Under, Child, Shrunk, Tree, FreeList;
    var v: Vpn :| Under(Leaf(t.r, v), Child(t, i)) && Lookup(s1.m, t.r, v) != 0;
    ChildUnder(Leaf(t.r, v), t, i);
    assert Lookup(s1.m, t.r, v) == Lookup(s.m, t.r, v);
  }

  lemma LeafThere(s: Vm, s1: Vm, head: nat, t: Place, i: Idx)
    requires IsTable(t) && Walking(s, s1, head, t, i) && t.r in s.roots && Child(t, i).Leaf? && Word(s1.m, Child(t, i)) != 0
    ensures !NoLeaf(s, t)
  {
    ChildIs(t, i);
    var c := Child(t, i);
    hide Word, Under, Child, Shrunk, Tree, FreeList;
    assert Lookup(s1.m, t.r, c.v) == Lookup(s.m, t.r, c.v);
  }

  lemma GoneRoot(s: Vm, s1: Vm, t: Place, p: nat, above: nat)
    requires t.P2? && p == t.r < |s1.m| && Dropped(s, Freed(s1, p).(own := s1.own - {p}, roots := s1.roots - {p}), p, p)
    ensures Gone(s, Freed(s1, p).(own := s1.own - {p}, roots := s1.roots - {p}), p, t, above)
  {}

  lemma NegativeSize(size: nat, n: int)
    requires size <= MAXVPN * PGSIZE && -0x8000_0000 <= n < 0
    ensures (size + n) % WORDS == if size + n < 0 then size + n + WORDS else size + n
    ensures size + n < 0 ==> (size + n) % WORDS > size && Excess(size, (size + n) % WORDS) == 0 && Excess(size, size) == 0
  {}

  lemma OwnsNone(s: Vm, r: nat)
    ensures forall v :: OwnsRange(s, r, v, 0)
  {}

  // ---------- new address spaces ----------

  lemma InHandFirst(s: Vm, p: nat)
    requires s.own == map[] && s.roots == {} && s.lo <= p < |s.m| && p !in s.free
    ensures InHand(s, p)
  {}

  function NewRoot(s: Vm, r: nat): Vm
    requires s.free != [] && r < |s.m|
  {
    s.(m := s.m[r := ZeroPage], own := s.own[r := P2(r)], roots := s.roots + {r}, free := s.free[1..])
  }

  /** Space r has no translations, those of all others are as before, and no page is lost. */
  ghost predicate NewSpaceMade(s: Vm, s': Vm, r: nat)
  {
    && (forall v: Vpn :: Lookup(s'.m, r, v) == 0)
    && SameLookups(s, s') && Pages(s') == Pages(s)
  }

  lemma RootMade(s: Vm, s2: Vm, r: nat, head: nat)
    requires s.free != [] && r < |s.m| && Taken(s, s2, r) && s2.m[r] == ZeroPage && FreeList(s2, head)
    ensures Tree(NewRoot(s, r)) && FreeList(NewRoot(s, r), head) && NewSpaceMade(s, NewRoot(s, r), r) && r !in s.roots
  {
    var s' := s2.(own := s2.own[r := P2(r)], roots := s2.roots + {r});
    assert s' == NewRoot(s, r);
    ZeroEmpty(s2.m, r);
    EmptyRoot(s2.m, r);
    hide Tree, Word, Load, EmptyTable, Unmapped;
    RootTreeMade(s2, s', r);
    assert s.free == [r] + s2.free;
    RootPages(s, s2, s', r);
    RootLookupsMade(s, s2, s', r);
    RootFree(s2, s', r, head);
  }

  lemma RootLookupsMade(s: Vm, s2: Vm, s': Vm, r: nat)
    requires s.free != [] && Taken(s, s2, r) && s'.m == s2.m && forall t: Place :: t.r == r && !t.P2? ==> Word(s2.m, t) == 0
    ensures SameLookups(s, s') && forall v: Vpn :: Lookup(s'.m, r, v) == 0
  {
    hide Tree, Word, Unmapped;
    forall q, v: Vpn | q in s.roots ensures Lookup(s'.m, q, v) == Lookup(s.m, q, v) {
      assert Lookup(Popped(s).m, q, v) == Lookup(s2.m, q, v);
    }
  }

  lemma RootFree(s2: Vm, s': Vm, r: nat, head: nat)
    requires FreeList(s2, head) && s' == s2.(own := s2.own[r := P2(r)], roots := s2.roots + {r}) && InHand(s2, r)
    requires forall t: Place :: t.r == r && !t.P2? ==> Word(s2.m, t) == 0
    ensures FreeList(s', head)
  {
    hide Word, Load;
    forall q | q in s2.free && Unmapped(s2, q) ensures Unmapped(s', q) {}
    hide Unmapped;
    FreeListSame(s2, s', head);
  }

  lemma RootPages(s: Vm, s2: Vm, s': Vm, r: nat)
    requires s.free == [r] + s2.free && s2.own == s.own && s'.own == s2.own[r := P2(r)] && s'.free == s2.free
    ensures Pages(s') == Pages(s)
  {}

  lemma EmptyRoot(m: Mem, r: nat)
    requires EmptyTable(m, r)
    ensures forall t: Place :: t.r == r && !t.P2? ==> Word(m, t) == 0
  {
    hide Load;
    forall t: Place | t.r == r && !t.P2? ensures Word(m, t) == 0 {
      match t
      case P1(_, i2) => assert Entry(m, r, i2) == 0;
      case P0(_, i2, _) => assert Entry(m, r, i2) == 0;
      case Leaf(_, v) => assert Entry(m, r, Px2(v)) == 0;
    }
  }

  lemma RootTreeMade(s2: Vm, s': Vm, r: nat)
    requires Tree(s2) && InHand(s2, r) && s' == s2.(own := s2.own[r := P2(r)], roots := s2.roots + {r})
    requires forall t: Place :: t.r == r && !t.P2? ==> Word(s2.m, t) == 0
    ensures Tree(s') && r !in s2.roots
  {
    hide Word;
    forall p | p in s'.own ensures Placed(s', s'.own[p], p) { if p != r { PlacedOf(s2, p); } }
    forall t: Place | t.r in s'.roots && Word(s'.m, t) != 0 ensures Named(s', t) {
      if t.P2? { RootWord(s2.m, t); } else { assert t.r != r; NamedOf(s2, t); UnmappedAny(s2, r, t); }
    }
  }

  lemma RootWord(m: Mem, t: Place)
    requires t.P2?
    ensures Word(m, t) == 0
  {}

  lemma UnmappedAny(s: Vm, p: nat, t: Place)
    requires Unmapped(s, p) && Tree(s) && t.r in s.roots && Word(s.m, t) != 0
    ensures PageOf(s.m, t) != p || t.P2?
  {
    hide Word, Tree;
    NamedOf(s, t);
    if t.Leaf? { UnmappedLeaf(s, p, t); }
  }

  class Paging {
    const lo: nat
    var mem: Mem
    var freeMemList: nat
    ghost var roots: set<nat>
    ghost var own: map<nat, Place>
    ghost var free: seq<nat>

    ghost function S(): Vm
      reads this
    {
      Vm(lo, mem, roots, own, free)
    }

    ghost predicate Valid()
      reads this
    {
      Tree(S()) && FreeList(S(), freeMemList)
    }

    /** Memory before kinit: the pages from lo on are kalloc's to be. */
    constructor (lo: nat, mem: Mem)
      requires 0 < lo <= |mem| <= MAXPPN
      ensures Valid() && S() == Vm(lo, mem, {}, map[], [])
    {
      this.lo, this.mem, freeMemList := lo, mem, 0;
      roots, own, free := {}, map[], [];
    }

    /** kinit: every page from lo on is free. */
    method Kinit()
      requires Valid() && S() == Vm(lo, mem, {}, map[], []) && lo <= |mem|
      modifies this`mem, this`freeMemList, this`free
      ensures Valid() && |mem| == |old(mem)| && |free| == |mem| - lo && forall p :: p in Pages(S()) <==> lo <= p < |mem|
    {
      hide Tree, Word, Load, Save, FreeList, InHand, SameLookups;
      var p := lo;
      while p < |mem|
        invariant lo <= p <= |mem| == |old(mem)| && Valid() && roots == {} && own == map[]
        invariant |free| == p - lo && forall q :: q in free <==> lo <= q < p
      {
        InHandFirst(S(), p);
        FreeKeeps(S(), freeMemList, p);
        LinkIs(S(), freeMemList);
        var freed := Kfree(p);
        p := p + 1;
      }
    }

    /** The start of proc_pagetable: a new address space without translations, 0 if there is no
        page for its root. */
    method NewSpace() returns (r: nat)
      requires Valid()
      modifies this`mem, this`freeMemList, this`free, this`own, this`roots
      ensures Valid()
      ensures r == 0 ==> S() == old(S()) && free == []
      ensures r != 0 ==> r !in old(roots) && old(free) != [] && r == old(free)[0] < |mem|
      ensures r != 0 ==> S() == NewRoot(old(S()), r) && NewSpaceMade(old(S()), S(), r)
    {
      hide Tree, Word, Load, FreeList, Unmapped;
      r := Kalloc();
      if r != 0 {
        ghost var s := old(S());
        TakenOf(s, r, ZeroPage, freeMemList);
        RootMade(s, Popped(s).(m := mem[r := ZeroPage]), r, freeMemList);
        mem := mem[r := ZeroPage];
        own := own[r := P2(r)];
        roots := roots + {r};
      }
    }

    /** kalloc: a free page, 0 if there is none. */
    method Kalloc() returns (p: nat)
      requires Valid()
      modifies this`freeMemList, this`free
      ensures Valid()
      ensures p != 0 ==> p < |mem| && freeMemList == Load(old(mem)[p], 0) / PGSIZE
      ensures if old(free) == [] then p == 0 && S() == old(S())
              else p == old(free)[0] == old(freeMemList) != 0 && S() == Popped(old(S())) && InHand(S(), p) && Allocated(old(S()), S(), p)
    {
      hide Tree, Load, Unmapped, Pages;
      if freeMemList == 0 {
        NoneFree(S(), freeMemList);
        return 0;
      }
      SomeFree(S(), freeMemList);
      AllocKeeps(S(), freeMemList);
      p := freeMemList;
      freeMemList := Load(mem[p], 0) / PGSIZE;
      free := free[1..];
    }

    /** kfree; false is its panic on a page that kalloc never had. */
    method Kfree(p: nat) returns (ok: bool)
      modifies this`mem, this`freeMemList, this`free
      ensures ok <==> lo <= p < |old(mem)|
      ensures ok ==> mem == old(mem)[p := Save(old(mem)[p], 0, old(freeMemList) * PGSIZE)] && freeMemList == p
      ensures ok ==> free == [p] + old(free)
    {
      if p < lo || p >= |mem| {
        return false;
      }
      mem := mem[p := Save(mem[p], 0, freeMemList * PGSIZE)];
      freeMemList := p;
      free := [p] + free;
      return true;
    }

    /** walk: where the entry of page v of address space r is. */
    method Walk(r: nat, v: nat, alloc: bool) returns (res: Walked)
      requires Valid() && r in roots
      modifies this`mem, this`freeMemList, this`free, this`own
      ensures res.WalkPanic? <==> v >= MAXVPN
      ensures !res.WalkPanic? ==> Valid() && Grown(old(S()), S(), map[]) && SameLookups(old(S()), S())
      ensures !alloc || res.WalkPanic? ==> S() == old(S()) && freeMemList == old(freeMemList)
      ensures res.At? ==> HasTable(S(), r, v) && res.page == PageOf(mem, Above(Leaf(r, v))) < |mem| && res.i == Px0(v)
      ensures res.Absent? ==> Lookup(mem, r, v) == 0 && !HasTable(S(), r, v)
      ensures res.Absent? && alloc ==> free == [] && |old(free)| < 2
      ensures |old(free)| <= |free| + 2
      ensures v < MAXVPN && HasTable(old(S()), r, v) ==> res.At? && S() == old(S()) && freeMemList == old(freeMemList)
    {
      hide Tree, FreeList, Word, Load, Grown, SameLookups;
      if v >= MAXVPN {
        return WalkPanic;
      }
      var table := r;
      var level := 2;
      ghost var t := P2(r);
      GrownSelf(S());
      RootIs(S(), r);
      while level > 0
        invariant 0 <= level <= 2
        invariant t == if level == 2 then P2(r) else if level == 1 then P1(r, Px2(v)) else P0(r, Px2(v), Px1(v))
        invariant Valid() && Grown(old(S()), S(), map[]) && SameLookups(old(S()), S())
        invariant roots == old(roots) && |mem| == |old(mem)|
        invariant !alloc || HasTable(old(S()), r, v) ==> S() == old(S()) && freeMemList == old(freeMemList)
        invariant |old(free)| <= |free| + (2 - level)
        invariant 0 < table == PageOf(mem, t) < |mem|
      {
        ghost var u := if level == 2 then P1(r, Px2(v)) else P0(r, Px2(v), Px1(v));
        WordAbove(mem, u);
        var i := Px(level, v);
        var pte := Load(mem[table], i);
        if IsValid(pte) {
          TableThere(S(), u, table);
          table := Ppn(pte);
        } else {
          NoLookup(S(), u, v, table);
          TableMissing(S(), u, v);
          if !alloc {
            return Absent;
          }
          ghost var s1, head := S(), freeMemList;
          var p := Kalloc();
          if p == 0 {
            return Absent;
          }
          mem := mem[p := ZeroPage];
          mem := mem[table := Save(mem[table], i, p * 1024 + PTE_V)];
          own := own[p := u];
          TableMade(old(S()), s1, S(), head, u, table);
          table := p;
        }
        t := u;
        level := level - 1;
      }
      res := At(table, Px0(v));
    }

    /** mappages: the pages of [va, va + size) are mapped to the pages from pa on. k of them were
        mapped before memory ran out. */
    method Mappages(r: nat, pa: nat, va: nat, size: nat, perm: nat, ghost give: bool) returns (res: Outcome, ghost k: nat)
      requires Valid() && r in roots && perm < 1024 && HasRwx(perm)
      requires forall p :: pa / PGSIZE <= p < pa / PGSIZE + PagesIn(va, size) ==> Givable(S(), p, give)
      modifies this`mem, this`freeMemList, this`free, this`own
      ensures res.Panic? ==> size == 0 || !Unused(old(S()), r, va / PGSIZE, PagesIn(va, size))
      ensures res.Done? ==> size != 0 && Unused(old(S()), r, va / PGSIZE, PagesIn(va, size)) && k == PagesIn(va, size)
      ensures res.Failed? ==> k < PagesIn(va, size) && free == [] && |old(free)| < 2 * (k + 1)
      ensures res.Failed? && PagesIn(va, size) == 1 ==> va / PGSIZE < MAXVPN && !HasTable(S(), r, va / PGSIZE)
      ensures |old(free)| <= |free| + 2 * PagesIn(va, size)
      ensures PagesIn(va, size) == 1 && va / PGSIZE < MAXVPN && HasTable(old(S()), r, va / PGSIZE) ==>
                !res.Failed? && free == old(free)
      ensures !res.Panic? ==> Valid() && MappedSome(old(S()), S(), r, va / PGSIZE, k, pa / PGSIZE, perm, give)
    {
      hide Tree, FreeList, Word, Load, Grown, SameLookups, MapsRun, Givable, Lookup, PageOf, MakePte;
      k := 0;
      if size == 0 {
        return Panic, k;
      }
      var a, last, p := va / PGSIZE, (va + size - 1) / PGSIZE, pa / PGSIZE;
      ghost var s, v := S(), a;
      MappedNone(s, r, a, p, perm, give);
      while true
        invariant a == v + k <= last && p == pa / PGSIZE + k
        invariant Valid() && r in roots && s == old(S()) && MappedSome(s, S(), r, v, k, pa / PGSIZE, perm, give)
        invariant forall u: Vpn :: v <= u < a ==> Lookup(s.m, r, u) == 0
        invariant |s.free| <= |free| + 2 * k && (k == 0 ==> S() == s)
        decreases last - a
      {
        ghost var s1 := S();
        var pte := Walk(r, a, true);
        match pte {
          case WalkPanic => return Panic, k;
          case Absent =>
            MappedOn(s, s1, S(), r, v, k, pa / PGSIZE, perm, give);
            return Failed, k;
          case At(page, i) =>
            MappedLookup(s, s1, S(), r, v, k, pa / PGSIZE, perm, give, a);
            EntryIs(S(), r, a, page);
            if IsValid(Load(mem[page], i)) {
              return Panic, k;
            }
            MapStep(s, s1, S(), freeMemList, r, v, k, pa / PGSIZE, perm, give, a, p);
            LeafSetIs(S(), r, a, MakePte(p, perm), give, page);
            ghost var own' := Reown(S(), Leaf(r, a), MakePte(p, perm), give);
            mem := mem[page := Save(mem[page], i, MakePte(p, perm))];
            own := own';
            k := k + 1;
            MappedFits(s, S(), r, v, k, pa / PGSIZE, perm, give);
        }
        if a == last {
          break;
        }
        a := a + 1;
        p := p + 1;
      }
      return Done, k;
    }

    /** uvmunmap: n pages from va on are no longer mapped, and are freed if doFree. false is its
        panic, on a page that is not mapped. */
    method Uvmunmap(r: nat, va: nat, n: nat, doFree: bool) returns (ok: bool)
      requires Valid() && r in roots
      requires doFree ==> OwnsRange(S(), r, va / PGSIZE, n)
      modifies this`mem, this`freeMemList, this`free, this`own
      ensures ok <==> va % PGSIZE == 0 && MapsAll(old(S()), r, va / PGSIZE, n)
      ensures ok ==> Valid() && UnmappedSome(old(S()), S(), r, va / PGSIZE, n, doFree)
    {
      hide Tree, FreeList, Word, Load, Grown, SameLookups, UnmapsRun, Shrunk, LeavesIn, Lookup, PageOf, Unmapped;
      if va % PGSIZE != 0 {
        return false;
      }
      ghost var s, v, k := S(), va / PGSIZE, 0;
      var a := va / PGSIZE;
      UnmappedNone(s, r, v, doFree);
      while a < va / PGSIZE + n
        invariant a == v + k <= v + n
        invariant Valid() && r in roots && s == old(S()) && UnmappedSome(s, S(), r, v, k, doFree)
        invariant MapsAll(s, r, v, k)
      {
        ghost var s1 := S();
        var pte := Walk(r, a, false);
        match pte {
          case WalkPanic => return false;
          case Absent =>
            LookupKept(s, s1, r, v, k);
            return false;
          case At(page, i) =>
            LookupKept(s, s1, r, v, k);
            EntryIs(s1, r, a, page);
            var w := Load(mem[page], i);
            if !IsValid(w) {
              return false;
            }
            LeafNamed(s1, r, a);
            if Flags(w) == PTE_V {
              return false;
            }
            UnmapStep(s, s1, freeMemList, r, v, k, n, doFree, a, page, w);
            if doFree {
              var freed := Kfree(Ppn(w));
              assert freed;
            }
            mem := mem[page := Save(mem[page], i, 0)];
            own := own - {Ppn(w)};
            k := k + 1;
        }
        a := a + 1;
      }
      return true;
    }

    /** uvmdealloc: address space r shrinks to newsz bytes. false is the panic of uvmunmap. */
    method Uvmdealloc(r: nat, oldsz: nat, newsz: nat) returns (ok: bool, sz: nat)
      requires Valid() && r in roots && oldsz <= MAXVPN * PGSIZE
      requires OwnsRange(S(), r, RoundUp(newsz), Excess(oldsz, newsz))
      modifies this`mem, this`freeMemList, this`free, this`own
      ensures sz == if newsz < oldsz then newsz else oldsz
      ensures ok <==> MapsAll(old(S()), r, RoundUp(newsz), Excess(oldsz, newsz))
      ensures ok ==> Valid() && UnmappedSome(old(S()), S(), r, RoundUp(newsz), Excess(oldsz, newsz), true)
    {
      hide Tree, FreeList, Word, UnmapsRun, Shrunk, LeavesIn, Lookup, OwnsRange;
      UnmappedNone(S(), r, RoundUp(newsz), true);
      ok, sz := true, newsz;
      if newsz >= oldsz {
        sz := oldsz;
      } else if RoundUp(newsz) < RoundUp(oldsz) {
        var npages := RoundUp(oldsz) - RoundUp(newsz);
        ok := Uvmunmap(r, RoundUp(newsz) * PGSIZE, npages, true);
      }
    }

    /** uvmalloc: address space r grows to newsz bytes; the pages of given are mapped there. When
        memory runs out every translation is as before and every page of contents is returned. */
    method Uvmalloc(r: nat, oldsz: nat, newsz: nat) returns (res: Outcome, sz: nat, ghost given: map<nat, Place>)
      requires Valid() && r in roots && oldsz <= MAXVPN * PGSIZE
      modifies this`mem, this`freeMemList, this`free, this`own
      ensures res.Done? ==> sz == (if newsz < oldsz then oldsz else newsz)
      ensures res.Done? ==> Valid() && Filled(old(S()), S(), r, RoundUp(oldsz), Excess(newsz, oldsz), given)
      ensures res.Done? ==> |old(free)| <= |free| + 3 * Excess(newsz, oldsz)
      ensures res.Failed? ==> sz == 0 && Valid() && Grown(old(S()), S(), map[]) && SameLookups(old(S()), S())
      ensures res.Failed? ==> |old(free)| < 3 * Excess(newsz, oldsz)
      ensures res.Panic? ==> !Unused(old(S()), r, RoundUp(oldsz), Excess(newsz, oldsz))
    {
      hide Tree, FreeList, Word, Load, Filled, Grown, SameLookups, UnmapsRun, Shrunk, LeavesIn, Lookup, Unmapped, Unused, MappedSome;
      given := map[];
      FilledNone(S(), r, RoundUp(oldsz));
      if newsz < oldsz {
        return Done, oldsz, given;
      }
      var start := RoundUp(oldsz) * PGSIZE;
      ghost var s, v, k := S(), RoundUp(oldsz), 0;
      var a := start;
      while a < newsz
        invariant a == (v + k) * PGSIZE && v + k <= (if k == 0 then MAXVPN else RoundUp(newsz))
        invariant k > 0 ==> v + k <= MAXVPN
        invariant Valid() && r in roots && s == old(S()) && Filled(s, S(), r, v, k, given)
        invariant |s.free| <= |free| + 3 * k
        decreases newsz - a
      {
        ghost var s1 := S();
        var p := Kalloc();
        if p == 0 {
          FailedUndo(s, s1, r, v, k, given, a, start);
          var ok, _ := Uvmdealloc(r, a, start);
          FillUndone(s, s1, S(), r, v, k, given);
          return Failed, 0, map[];
        }
        TakenOf(s1, p, ZeroPage, freeMemList);
        mem := mem[p := ZeroPage];
        ghost var s2 := S();
        OnePage(a, v + k);
        ghost var n;
        res, n := Mappages(r, p * PGSIZE, a, PGSIZE, WRU, true);
        if res.Panic? {
          UsedBehind(s, s1, s2, r, v, k, given, p, newsz);
          return Panic, 0, given;
        }
        if res.Failed? {
          FillFailed(s, s1, s2, S(), freeMemList, r, v, k, given, p, a / PGSIZE);
          LinkIs(S(), freeMemList);
          var freed := Kfree(p);
          ghost var s4 := S();
          FailedUndo(s, s4, r, v, k, given, a, start);
          var ok, _ := Uvmdealloc(r, a, start);
          FillUndone(s, s4, S(), r, v, k, given);
          return Failed, 0, map[];
        }
        UnusedOne(s2, r, v + k);
        FillOn(s, s1, s2, S(), r, v, k, given, p, v + k);
        given := given[p := Leaf(r, v + k)];
        k := k + 1;
        a := a + PGSIZE;
      }
      return Done, newsz, given;
    }

    /** uvmcopy: the mapped pages of [0, sz) of address space o are copied into address space n. Of
        the pages copied so far none is returned when memory runs out, at page k, for a copy of it
        or for a table. */
    method Uvmcopy(o: nat, n: nat, sz: nat) returns (res: Outcome, ghost k: nat, ghost given: map<nat, Place>)
      requires Valid() && o in roots && n in roots
      modifies this`mem, this`freeMemList, this`free, this`own
      ensures !res.Panic? ==> Valid() && Copied(old(S()), S(), o, n, k, given)
      ensures res.Done? ==> k == RoundUp(sz)
      ensures res.Failed? ==> k < RoundUp(sz) && k < MAXVPN && Lookup(old(mem), o, k) != 0
      ensures res.Failed? ==> free == [] || (|free| == 1 && !HasTable(S(), n, k))
      ensures !res.Panic? && HasTables(old(S()), n, RoundUp(sz)) ==> |old(free)| == |free| + |given|
      ensures res.Panic? ==> RoundUp(sz) > MAXVPN || Clash(old(S()), o, n, RoundUp(sz))
    {
      hide Tree, FreeList, Word, Load, Copied, Grown, SameLookups, Lookup, Unmapped, Unused, MappedSome, HasRwx, Flags, Ppn, InHand;
      k, given := 0, map[];
      ghost var s := S();
      CopiedNone(s, o, n);
      var i := 0;
      while i < sz
        invariant i == k * PGSIZE && k <= RoundUp(sz)
        invariant Valid() && o in roots && n in roots && s == old(S()) && Copied(s, S(), o, n, k, given)
        invariant HasTables(s, n, RoundUp(sz)) ==> |s.free| == |free| + |given|
        decreases sz - i
      {
        ghost var s1 := S();
        OnePage(i, k);
        var pte := Walk(o, i / PGSIZE, false);
        if pte.WalkPanic? {
          return Panic, k, given;
        }
        if pte.At? {
          EntryIs(s1, o, k, pte.page);
        }
        if pte.At? && IsValid(Load(mem[pte.page], pte.i)) {
          res, given := CopyPage(o, n, i, Load(mem[pte.page], pte.i), s, k, given);
          if !res.Done? {
            return res, k, given;
          }
        } else {
          CopySkip(s, s1, o, n, k, given);
        }
        k := k + 1;
        i := i + PGSIZE;
      }
      return Done, k, given;
    }

    /** The turn of uvmcopy for page k, which o maps with entry w. */
    method CopyPage(o: nat, n: nat, i: nat, w: nat, ghost s: Vm, ghost k: nat, ghost given: map<nat, Place>)
      returns (res: Outcome, ghost given': map<nat, Place>)
      requires Valid() && o in roots && n in roots && s.roots == roots && Tree(s) && Copied(s, S(), o, n, k, given)
      requires i == k * PGSIZE && k < MAXVPN && w == Lookup(mem, o, k) != 0
      modifies this`mem, this`freeMemList, this`free, this`own
      ensures Lookup(s.m, o, k) != 0
      ensures !res.Panic? ==> Valid() && Copied(s, S(), o, n, if res.Done? then k + 1 else k, given')
      ensures res.Failed? ==> free == [] || (|free| == 1 && !HasTable(S(), n, k))
      ensures res.Panic? ==> Lookup(s.m, n, k) != 0
      ensures !res.Panic? && HasTable(s, n, k) ==> |old(free)| + |given| == |free| + |given'|
    {
      hide Tree, FreeList, Word, Load, Copied, Grown, SameLookups, Lookup, Unmapped, Unused, MappedSome, HasRwx, Flags, Ppn, InHand, HasTable, Taken, Allocated, Pages;
      given' := given;
      ghost var s1 := S();
      OnePage(i, k);
      CopiedContent(s, s1, o, n, k, given, k);
      CopiedBehind(s, s1, o, n, k, given, n, k);
      var p := Kalloc();
      if p == 0 {
        return Failed, given;
      }
      TakenOf(s1, p, s1.m[Ppn(w)], freeMemList);
      mem := mem[p := mem[Ppn(w)]];
      ghost var s2 := S();
      TakenLookup(s1, s2, p, n, k);
      FlagsRwx(w);
      CopyTables(s, s1, s2, o, n, k, given, p);
      ghost var c;
      res, c := Mappages(n, p * PGSIZE, i, PGSIZE, Flags(w), true);
      if res.Panic? {
        UnusedNot(s2, n, k);
        return Panic, given;
      }
      if res.Failed? {
        ghost var s3 := S();
        CopyFailed(s, s1, s2, s3, freeMemList, o, n, k, given, p, i / PGSIZE, Flags(w));
        LinkIs(s3, freeMemList);
        var freed := Kfree(p);
        TableStillMissing(s3, S(), n, k);
        return Failed, given;
      }
      UnusedOne(s2, n, k);
      CopyOn(s, s1, s2, S(), o, n, k, given, p, k, w);
      given' := given[p := Leaf(n, k)];
    }

    /** copyout: src is stored at the addresses from dst on, up to the first, behind d bytes, that
        the user may not reach. */
    method Copyout(r: nat, dst: nat, src: seq<Byte>) returns (res: Outcome, ghost d: nat)
      requires Valid() && r in roots
      modifies this`mem, this`freeMemList, this`free, this`own
      ensures d <= |src| && UserRange(old(S()), r, dst, d)
      ensures res.Done? <==> d == |src|
      ensures res.Failed? ==> (dst + d) / PGSIZE < MAXVPN && !UserAt(old(S()), r, dst + d)
      ensures res.Panic? ==> (dst + d) / PGSIZE >= MAXVPN
      ensures S() == old(S()).(m := Pokes(old(S()), r, dst, src, d))
      ensures Valid() && SameLookups(old(S()), S())
    {
      hide Tree, FreeList, Word, Load, SameLookups, Lookup, Pokes, UserAt, HasU;
      ghost var s, head := S(), freeMemList;
      d := 0;
      PokesNone(s, r, dst, src);
      var dstva, rest := dst, src;
      while |rest| > 0
        invariant d <= |src| && dstva == dst + d && rest == src[d..]
        invariant UserRange(s, r, dst, d) && S() == s.(m := Pokes(s, r, dst, src, d)) && s == old(S())
        invariant Valid() && SameLookups(s, S()) && freeMemList == head
        decreases |rest|
      {
        ghost var s1 := S();
        var pte := Walk(r, dstva / PGSIZE, false);
        if pte.WalkPanic? {
          return Panic, d;
        }
        UserIs(s, s1, r, dstva);
        if pte.At? {
          EntryIs(s1, r, dstva / PGSIZE, pte.page);
        }
        if pte.Absent? || !IsValid(Load(mem[pte.page], pte.i)) || !HasU(Load(mem[pte.page], pte.i)) {
          return Failed, d;
        }
        var pa0, off := Ppn(Load(mem[pte.page], pte.i)), dstva % PGSIZE;
        var n := PGSIZE - off;
        if n > |rest| {
          n := |rest|;
        }
        SamePage(s, r, dstva, n);
        PageIn(s, r, dstva);
        PokesPage(s, r, dst, src, d, n, pa0);
        PokesKeeps(s, head, r, dst, src, d + n);
        assert rest[..n] == src[d .. d + n];
        mem := mem[pa0 := Splice(mem[pa0], off, rest[..n])];
        rest := rest[n..];
        dstva := dstva + n;
        d := d + n;
      }
      return Done, d;
    }

    /** freewalk on the table of place t, which is page p; above is the page its entry is in. The
        whole subtree is freed if nothing is mapped below t, and it panics otherwise. */
    method Freewalk(p: nat, ghost t: Place, ghost above: nat) returns (ok: bool)
      requires Valid() && IsTable(t) && t.r in roots && p == PageOf(mem, t) != 0
      requires !t.P2? ==> above == PageOf(mem, Above(t)) != 0
      modifies this`mem, this`freeMemList, this`free, this`own, this`roots
      ensures ok <==> NoLeaf(old(S()), t)
      ensures ok ==> |mem| == |old(mem)| && (!t.P2? ==> above < |mem|) && Gone(old(S()), S(), freeMemList, t, above)
      decreases 3 - Depth(t)
    {
      hide Tree, FreeList, Word, Load, SameLookups, Lookup, NoLeaf, Gone, Walking, HasRwx, Under, Child, PageOf;
      ghost var s := S();
      WalkingNone(s, freeMemList, t);
      WalkingFacts(s, S(), freeMemList, t, 0, p);
      var i := 0;
      while i < ENTRIES
        invariant 0 <= i <= ENTRIES
        invariant s == old(S()) && Walking(s, S(), freeMemList, t, i) && t.r in roots && |mem| == |s.m|
        invariant Valid() && p == PageOf(mem, t) && p < |mem|
        decreases ENTRIES - i
      {
        ghost var s1, head := S(), freeMemList;
        var pte := Load(mem[p], i);
        ChildEntry(s1, t, i, p);
        ChildIs(t, i);
        if IsValid(pte) && !HasRwx(pte) {
          ChildDepth(t, i);
          var ok := Freewalk(Ppn(pte), Child(t, i), p);
          if !ok {
            LeafIn(s, s1, head, t, i);
            return false;
          }
          WalkStep(s, s1, S(), head, freeMemList, t, i, p);
          mem := mem[p := Save(mem[p], i, 0)];
        } else if IsValid(pte) {
          LeafThere(s, s1, head, t, i);
          return false;
        } else {
          SkipStep(s, s1, head, t, i);
        }
        i := i + 1;
        WalkingFacts(s, S(), freeMemList, t, i, p);
      }
      LastStep(s, S(), freeMemList, t, p);
      LinkIs(S(), freeMemList);
      if t.P2? { RootPage(mem, t); }
      if t.P2? { FreeRoot(s, S(), freeMemList, t, p); GoneRoot(s, S(), t, p, above); }
      else { FreeTable(s, S(), freeMemList, t, p, above); }
      own := own - {p};
      if t.P2? { roots := roots - {p}; }
      var freed := Kfree(p);
      return true;
    }

    /** growproc: what becomes of the size of a process. A shrink by more than its size changes
        nothing, and is reported as a success. */
    method Growproc(r: nat, size: nat, n: int) returns (res: Outcome, sz: nat, ghost given: map<nat, Place>)
      requires Valid() && r in roots && size <= MAXVPN * PGSIZE && -0x8000_0000 <= n < 0x8000_0000
      requires n < 0 <= size + n ==> OwnsRange(S(), r, RoundUp(size + n), Excess(size, size + n))
      modifies this`mem, this`freeMemList, this`free, this`own
      ensures res.Done? ==> Valid() && sz == if size + n < 0 then size else size + n
      ensures res.Done? && n > 0 ==> Filled(old(S()), S(), r, RoundUp(size), Excess(sz, size), given)
      ensures res.Done? && n < 0 ==> UnmappedSome(old(S()), S(), r, RoundUp(sz), Excess(size, sz), true)
      ensures res.Done? && n == 0 ==> S() == old(S())
      ensures res.Failed? ==> n > 0 && sz == size && Valid() && Grown(old(S()), S(), map[]) && SameLookups(old(S()), S())
      ensures res.Failed? ==> |old(free)| < 3 * Excess(size + n, size)
      ensures res.Panic? ==> if n > 0 then !Unused(old(S()), r, RoundUp(size), Excess(size + n, size))
                             else 0 <= size + n && !MapsAll(old(S()), r, RoundUp(size + n), Excess(size, size + n))
    {
      hide Tree, FreeList, Word, Filled, Grown, SameLookups, Lookup, UnmapsRun, Shrunk, OwnsRange, MapsAll, Unused, LeavesIn;
      res, sz, given := Done, size, map[];
      if n > 0 {
        ghost var g;
        res, sz, g := Uvmalloc(r, size, size + n);
        given := g;
        if res == Failed {
          sz := size;
        }
      } else if n < 0 {
        var newsz := (size + n) % WORDS;
        NegativeSize(size, n);
        OwnsNone(S(), r);
        ghost var s := S();
        MapsNothing(s, r, RoundUp(newsz));
        var ok, z := Uvmdealloc(r, size, newsz);
        if size + n < 0 { NothingLost(s, S(), r, RoundUp(newsz), RoundUp(size)); }
        sz := z;
        res := if ok then Done else Panic;
      }
    }
  }
}
