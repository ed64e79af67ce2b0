/** The loops of kernel/mm/vm.c: what a number of steps over a range of pages comes to. */
module PageRuns {
  import opened PageTable
  import opened PageMap

  // ---------- mappages ----------

  /** A page that may be mapped: one taken from kalloc, or one that no tree and not kalloc has. */
  ghost predicate Givable(s: Vm, p: nat, give: bool)
  {
    if give then InHand(s, p) else 0 < p < |s.m| && p !in s.own && p !in s.free
  }

  /** The state after k pages of a range have been mapped. */
  ghost predicate MappedSome(s: Vm, s': Vm, r: nat, v: nat, k: nat, ppn: nat, perm: nat, give: bool)
  {
    MapsRun(s, s', r, v, k, ppn, perm) && Grown(s, s', Gift(r, v, k, ppn, give))
  }

  lemma MappedNone(s: Vm, r: nat, v: nat, ppn: nat, perm: nat, give: bool)
    requires Tree(s)
    ensures MappedSome(s, s, r, v, 0, ppn, perm, give)
  {
    hide Word;
    GrownSelf(s);
  }

  /** New pages of the trees were free or given. */
  lemma GrownOwn(s: Vm, s': Vm, g: map<nat, Place>)
    requires Grown(s, s', g)
    ensures forall p :: p in s'.own ==> p in s.own || p in s.free || p in g
  {
    hide Tree, Same, IsData, Pages;
    forall p | p in s'.own ensures p in s.own || p in s.free || p in g { assert Newly(s, s', g, p); }
  }

  /** The pages of the range that are still to be mapped are still givable. */
  lemma GivableKept(s: Vm, s': Vm, r: nat, v: nat, k: nat, ppn: nat, perm: nat, give: bool, p: nat)
    requires MappedSome(s, s', r, v, k, ppn, perm, give) && Givable(s, p, give)
    requires perm < 1024 && ppn + k <= p < |s.m| <= MAXPPN
    ensures Givable(s', p, give)
  {
    hide Tree, Word, Pages, Same, IsData, MakePte;
    GrownOwn(s, s', Gift(r, v, k, ppn, give));
    if give {
      forall q, u: Vpn | q in s'.roots && Lookup(s'.m, q, u) != 0 ensures Ppn(Lookup(s'.m, q, u)) != p {
        if q == r && v <= u < v + k { PteFields(ppn + (u - v), perm); }
      }
    }
  }

  /** walk keeps a page in hand. */
  lemma InHandKept(s: Vm, s': Vm, p: nat)
    requires Grown(s, s', map[]) && SameLookups(s, s') && InHand(s, p)
    ensures InHand(s', p)
  {
    hide Tree, Word, Pages, Same, IsData;
    GrownOwn(s, s', map[]);
  }

  lemma MapStep(s: Vm, s1: Vm, s2: Vm, head: nat, r: nat, v: nat, k: nat, ppn: nat, perm: nat, give: bool, u: Low, p: nat)
    requires MappedSome(s, s1, r, v, k, ppn, perm, give) && Grown(s1, s2, map[]) && SameLookups(s1, s2)
    requires perm < 1024 && HasRwx(perm) && Givable(s, p, give) && FreeList(s2, head)
    requires u == v + k && p == ppn + k && HasTable(s2, r, u) && Lookup(s2.m, r, u) == 0
    ensures MappedSome(s, LeafSet(s2, r, u, MakePte(p, perm), give), r, v, k + 1, ppn, perm, give)
    ensures FreeList(LeafSet(s2, r, u, MakePte(p, perm), give), head)
  {
    var w := MakePte(p, perm);
    hide Tree, Word, FreeList, MakePte, Grown, MapsRun, Unmapped, LeafSet, SameLookups, Lookup, PageOf, HasRwx, Gift, MappedSome;
    RootsOf(s1, s2, map[]);
    MappedOn(s, s1, s2, r, v, k, ppn, perm, give);
    MappedFits(s, s2, r, v, k, ppn, perm, give);
    GivableFits(s, p, give);
    GivableKept(s, s2, r, v, k, ppn, perm, give, p);
    PteFields(p, perm);
    MapAdmits(s2, r, u, w, give);
    LeafStep(s2, head, r, u, w, give);
    LeafGrown(s2, head, r, u, w, give);
    MappedMore(s, s2, LeafSet(s2, r, u, w, give), r, v, k, ppn, perm, give);
  }

  lemma MappedFits(s: Vm, s': Vm, r: nat, v: nat, k: nat, ppn: nat, perm: nat, give: bool)
    requires MappedSome(s, s', r, v, k, ppn, perm, give)
    ensures s'.roots == s.roots && |s'.m| == |s.m| <= MAXPPN && (k > 0 ==> v + k <= MAXVPN) && Tree(s')
  {
    hide Word, MakePte;
  }

  lemma GivableFits(s: Vm, p: nat, give: bool)
    requires Givable(s, p, give)
    ensures p < |s.m|
  {}

  lemma MappedMore(s: Vm, s2: Vm, s3: Vm, r: nat, v: nat, k: nat, ppn: nat, perm: nat, give: bool)
    requires MappedSome(s, s2, r, v, k, ppn, perm, give) && s2.roots == s.roots && v + k < MAXVPN
    requires Remapped(s2, s3, r, v + k, MakePte(ppn + k, perm))
    requires Grown(s2, s3, if give then map[ppn + k := Leaf(r, v + k)] else map[])
    ensures MappedSome(s, s3, r, v, k + 1, ppn, perm, give)
  {
    hide Word, MakePte, Grown;
    MapsOne(s, s2, s3, r, v, k, ppn, perm);
    hide MapsRun, Remapped;
    var g: map<nat, Place> := if give then map[ppn + k := Leaf(r, v + k)] else map[];
    GrownTwice(s, s2, s3, Gift(r, v, k, ppn, give), g);
    assert Gift(r, v, k, ppn, give) + g == Gift(r, v, k + 1, ppn, give);
  }

  lemma RootsOf(s: Vm, s': Vm, g: map<nat, Place>)
    requires Grown(s, s', g)
    ensures s'.roots == s.roots && s'.lo == s.lo && |s'.m| == |s.m| && Tree(s')
  {}

  lemma MapAdmits(s: Vm, r: nat, v: Vpn, w: nat, give: bool)
    requires Givable(s, Ppn(w), give) && Lookup(s.m, r, v) == 0 && HasRwx(w) && Tree(s)
    ensures Admits(s, Leaf(r, v), w, give)
  {
    hide Word;
  }

  lemma MapsOne(s: Vm, s2: Vm, s3: Vm, r: nat, v: nat, k: nat, ppn: nat, perm: nat)
    requires s2.roots == s.roots && v + k < MAXVPN
    requires MapsRun(s, s2, r, v, k, ppn, perm) && Remapped(s2, s3, r, v + k, MakePte(ppn + k, perm))
    ensures MapsRun(s, s3, r, v, k + 1, ppn, perm)
  {
    hide Word, MakePte;
  }

  /** walk after some mappings. */
  lemma MappedOn(s: Vm, s1: Vm, s2: Vm, r: nat, v: nat, k: nat, ppn: nat, perm: nat, give: bool)
    requires MappedSome(s, s1, r, v, k, ppn, perm, give) && Grown(s1, s2, map[]) && SameLookups(s1, s2)
    ensures MappedSome(s, s2, r, v, k, ppn, perm, give)
  {
    hide Word, MakePte, Grown, Tree;
    RootsOf(s, s1, Gift(r, v, k, ppn, give));
    GrownTwice(s, s1, s2, Gift(r, v, k, ppn, give), map[]);
    assert Gift(r, v, k, ppn, give) + map[] == Gift(r, v, k, ppn, give);
  }

  // ---------- uvmunmap ----------

  /** The state after k pages of a range have been unmapped. */
  ghost predicate UnmappedSome(s: Vm, s': Vm, r: nat, v: nat, k: nat, freed: bool)
  {
    UnmapsRun(s, s', r, v, k) && Shrunk(s, s', LeavesIn(s, r, v, k), freed)
  }

  lemma UnmappedNone(s: Vm, r: nat, v: nat, freed: bool)
    requires Tree(s)
    ensures UnmappedSome(s, s, r, v, 0, freed)
  {
    hide Word;
    assert LeavesIn(s, r, v, 0) == {};
    ShrunkSelf(s, freed);
  }

  /** The state after the leaf entry of page v + k has been cleared, and before a page is freed. */
  ghost predicate Cleared(s: Vm, s1: Vm, s2: Vm, r: nat, v: nat, k: nat, p: nat)
  {
    && Tree(s2) && UnmapsRun(s, s2, r, v, k + 1) && |s2.m| == |s1.m| && s2.own == s1.own - {p}
    && LeavesIn(s, r, v, k + 1) == LeavesIn(s, r, v, k) + ({p} * s1.own.Keys)
    && forall q: nat :: IsData(s1, q) ==> Same(s1.m, s2.m, q)
  }

  lemma ClearStep(s: Vm, s1: Vm, head: nat, r: nat, v: nat, k: nat, freed: bool, u: Low)
    requires UnmappedSome(s, s1, r, v, k, freed) && Tree(s) && FreeList(s1, head)
    requires u == v + k && HasTable(s1, r, u) && Lookup(s1.m, r, u) != 0
    ensures Cleared(s, s1, LeafSet(s1, r, u, 0, false), r, v, k, Ppn(Lookup(s1.m, r, u)))
    ensures FreeList(LeafSet(s1, r, u, 0, false), head)
  {
    hide Tree, Word, FreeList, Same, IsData, Lookup, LeafSet, UnmapsRun, Shrunk, LeavesIn, Unmapped;
    var s2 := LeafSet(s1, r, u, 0, false);
    ShrunkTree(s, s1, LeavesIn(s, r, v, k), freed);
    LeafStep(s1, head, r, u, 0, false);
    UnmapsOne(s, s1, s2, r, v, k);
    LeavesMore(s, s1, r, v, k, u);
    LeafOwn(s1, r, u);
  }

  lemma LeafOwn(s: Vm, r: nat, v: Vpn)
    requires Lookup(s.m, r, v) != 0
    ensures LeafSet(s, r, v, 0, false).own == s.own - {Ppn(Lookup(s.m, r, v))}
  {
    hide Word, Store;
  }

  lemma ShrunkTree(s: Vm, s1: Vm, gone: set<nat>, freed: bool)
    requires Shrunk(s, s1, gone, freed)
    ensures Tree(s1) && s1.roots == s.roots && s1.own == s.own - gone && |s1.m| == |s.m|
  {}

  lemma UnmapsOne(s: Vm, s1: Vm, s2: Vm, r: nat, v: nat, k: nat)
    requires UnmapsRun(s, s1, r, v, k) && s1.roots == s.roots && v + k < MAXVPN && Remapped(s1, s2, r, v + k, 0)
    ensures UnmapsRun(s, s2, r, v, k + 1)
  {
    hide Word;
  }

  /** The page mapped at v + k is the one that r owns there, if it owns one. */
  lemma LeavesMore(s: Vm, s1: Vm, r: nat, v: nat, k: nat, u: Low)
    requires Tree(s) && Tree(s1) && r in s.roots && s1.roots == s.roots && UnmapsRun(s, s1, r, v, k)
    requires s1.own == s.own - LeavesIn(s, r, v, k) && u == v + k && Lookup(s1.m, r, u) != 0
    ensures LeavesIn(s, r, v, k + 1) == LeavesIn(s, r, v, k) + ({Ppn(Lookup(s1.m, r, u))} * s1.own.Keys)
  {
    hide Word, Tree, Lookup, UnmapsRun, Ppn;
    LookupKept(s, s1, r, v, k);
    LeafNamed(s1, r, u);
    var p := Ppn(Lookup(s1.m, r, u));
    forall q | q in s.own && s.own[q] == Leaf(r, u) ensures q == p { LeafAt(s, q); }
    hide *;
    LeavesSets(s, s1, r, v, k, u, p);
  }

  lemma LeavesSets(s: Vm, s1: Vm, r: nat, v: nat, k: nat, u: Low, p: nat)
    requires u == v + k && s1.own == s.own - LeavesIn(s, r, v, k)
    requires p in s1.own ==> s1.own[p] == Leaf(r, u)
    requires forall q :: q in s.own && s.own[q] == Leaf(r, u) ==> q == p
    ensures LeavesIn(s, r, v, k + 1) == LeavesIn(s, r, v, k) + ({p} * s1.own.Keys)
  {
    forall q | q in s.own ensures q in LeavesIn(s, r, v, k + 1) <==> q in LeavesIn(s, r, v, k) || (q == p && q in s1.own) {}
  }

  lemma LookupKept(s: Vm, s1: Vm, r: nat, v: nat, k: nat)
    requires UnmapsRun(s, s1, r, v, k) && r in s.roots && v + k < MAXVPN
    ensures Lookup(s1.m, r, v + k) == Lookup(s.m, r, v + k)
  {
    hide Word;
  }

  lemma LeafAt(s: Vm, p: nat)
    requires Tree(s) && p in s.own && s.own[p].Leaf?
    ensures s.own[p].r in s.roots && Ppn(Lookup(s.m, s.own[p].r, s.own[p].v)) == p != 0
  {
    hide Word;
    PlacedOf(s, p);
  }

  lemma LeafNamed(s: Vm, r: nat, v: Vpn)
    requires Tree(s) && r in s.roots && Lookup(s.m, r, v) != 0
    ensures var p := Ppn(Lookup(s.m, r, v));
            0 < p < |s.m| && p !in s.free && (p in s.own ==> s.own[p] == Leaf(r, v)) && HasRwx(Lookup(s.m, r, v))
  {
    hide Word;
    NamedOf(s, Leaf(r, v));
  }

  /** The page is then free, ... */
  lemma FreeStep(s: Vm, s1: Vm, s2: Vm, head: nat, r: nat, v: nat, k: nat, p: nat)
    requires UnmappedSome(s, s1, r, v, k, true) && Cleared(s, s1, s2, r, v, k, p) && FreeList(s2, head) && InHand(s2, p)
    requires s2 == s1.(m := s2.m, own := s2.own) && p in s1.own
    ensures UnmappedSome(s, Freed(s2, p), r, v, k + 1, true) && FreeList(Freed(s2, p), p)
  {
    hide Word, FreeList, UnmapsRun, Unmapped, Save, SameLookups, Load, LeavesIn, Tree;
    FreeKeeps(s2, head, p);
    UnmapsFreed(s, s2, p, r, v, k + 1);
    var gone := LeavesIn(s, r, v, k + 1);
    assert gone == LeavesIn(s, r, v, k) + {p};
    forall q: nat | IsData(s, q) && q !in gone ensures Same(s.m, Freed(s2, p).m, q) {
      assert q in s1.own ==> q in s.own;
      assert IsData(s1, q);
    }
  }

  lemma UnmapsFreed(s: Vm, s2: Vm, p: nat, r: nat, v: nat, k: nat)
    requires UnmapsRun(s, s2, r, v, k) && p < |s2.m| && SameLookups(s2, Freed(s2, p)) && s2.roots == s.roots
    ensures UnmapsRun(s, Freed(s2, p), r, v, k)
  {
    hide Word, Save;
  }

  /** ... or the caller's. */
  lemma KeepStep(s: Vm, s1: Vm, s2: Vm, r: nat, v: nat, k: nat, p: nat)
    requires UnmappedSome(s, s1, r, v, k, false) && Cleared(s, s1, s2, r, v, k, p)
    requires s2 == s1.(m := s2.m, own := s2.own)
    ensures UnmappedSome(s, s2, r, v, k + 1, false)
  {
    hide Word, UnmapsRun, LeavesIn, Tree;
    var gone := LeavesIn(s, r, v, k + 1);
    forall q: nat | IsData(s, q) && q !in gone ensures Same(s.m, s2.m, q) {
      assert q in s1.own ==> q in s.own;
      assert IsData(s1, q);
    }
  }

  /** Every page mapped in a range is r's own. */
  ghost predicate OwnsRange(s: Vm, r: nat, v: nat, n: nat)
  {
    forall u: Vpn :: v <= u < v + n && Lookup(s.m, r, u) != 0 ==> Ppn(Lookup(s.m, r, u)) in s.own
  }

  /** Every page of a range is mapped. */
  ghost predicate MapsAll(s: Vm, r: nat, v: nat, n: nat)
  {
    (n > 0 ==> v + n <= MAXVPN) && forall u: Vpn :: v <= u < v + n ==> Lookup(s.m, r, u) != 0
  }

  // ---------- a new page of contents ----------

  /** A free page taken, filled and mapped at u. */
  lemma GiveStep(s: Vm, s1: Vm, s2: Vm, s3: Vm, given: map<nat, Place>, p: nat, r: nat, u: Low, perm: nat)
    requires Grown(s, s1, given) && s1.free != [] && p == s1.free[0] < |s1.m|
    requires |s2.m| == |s1.m| && s2 == Popped(s1).(m := s1.m[p := s2.m[p]]) && SameLookups(Popped(s1), s2)
    requires InHand(s2, p) && 0 < p
    requires MappedSome(s2, s3, r, u, 1, p, perm, true) && p in Pages(s1) && Pages(Popped(s1)) == Pages(s1) - {p}
    ensures Grown(s, s3, given[p := Leaf(r, u)]) && p in s.free && p < |s3.m| && s3.m[p] == s2.m[p]
    ensures forall q, x: Vpn :: q in s.roots ==>
              Lookup(s3.m, q, x) == if q == r && x == u then MakePte(p, perm) else Lookup(s1.m, q, x)
  {
    hide Word, MakePte, Grown;
    OneRun(s1, s2, s3, r, u, p, perm);
    hide SameLookups, MapsRun;
    RootsOf(s, s1, given);
    var g := map[p := Leaf(r, u)];
    assert Gift(r, u, 1, p, true) == g;
    GivenKept(s2, s3, g, p);
    PopGrown(s1, s2, s3, g, p);
    GrownTwice(s, s1, s3, given, g);
    assert given + g == given[p := Leaf(r, u)];
    FreeWas(s, s1, given, p);
  }

  lemma FreeWas(s: Vm, s1: Vm, given: map<nat, Place>, p: nat)
    requires Grown(s, s1, given) && p in s1.free
    ensures p in s.free
  {}

  /** The page was mapped with its contents. */
  lemma GivenKept(s2: Vm, s3: Vm, g: map<nat, Place>, p: nat)
    requires Grown(s2, s3, g) && IsData(s2, p)
    ensures p < |s3.m| && s3.m[p] == s2.m[p]
  {
    assert Same(s2.m, s3.m, p);
  }

  lemma OneRun(s1: Vm, s2: Vm, s3: Vm, r: nat, u: Low, p: nat, perm: nat)
    requires s1.free != [] && SameLookups(Popped(s1), s2) && s2.roots == s1.roots
    requires MapsRun(s2, s3, r, u, 1, p, perm)
    ensures Remapped(s1, s3, r, u, MakePte(p, perm))
  {
    hide Word, MakePte;
  }

  lemma PopGrown(s1: Vm, s2: Vm, s3: Vm, g: map<nat, Place>, p: nat)
    requires s1.free != [] && p == s1.free[0] < |s1.m| && |s2.m| == |s1.m|
    requires s2 == Popped(s1).(m := s1.m[p := s2.m[p]])
    requires Grown(s2, s3, g) && p in g && p in Pages(s1) && Pages(Popped(s1)) == Pages(s1) - {p}
    ensures Grown(s1, s3, g)
  {
    hide Tree, IsTable;
    assert Pages(s2) == Pages(s1) - {p};
    forall q | q in s3.own ensures Newly(s1, s3, g, q) { assert Newly(s2, s3, g, q); }
    forall q: nat | IsData(s1, q) ensures Same(s1.m, s3.m, q) { assert IsData(s2, q) && Same(s2.m, s3.m, q); }
    hide Newly, IsData;
    assert Pages(s3) == Pages(s1) + g.Keys;
  }

  /** A free page taken and, when it could not be mapped, given back. */
  lemma BackStep(s1: Vm, s2: Vm, s3: Vm, head: nat, p: nat)
    requires s1.free != [] && p == s1.free[0] < |s1.m| && |s2.m| == |s1.m|
    requires s2 == Popped(s1).(m := s1.m[p := s2.m[p]]) && SameLookups(Popped(s1), s2)
    requires Grown(s2, s3, map[]) && SameLookups(s2, s3) && InHand(s3, p) && FreeList(s3, head)
    requires p in Pages(s1) && Pages(Popped(s1)) == Pages(s1) - {p}
    ensures Grown(s1, Freed(s3, p), map[]) && SameLookups(s1, Freed(s3, p)) && FreeList(Freed(s3, p), p)
  {
    hide Word, FreeList, Unmapped, Save, Load;
    RootsOf(s2, s3, map[]);
    FreeKeeps(s3, head, p);
    BackLookups(s1, s2, s3, p);
    hide SameLookups;
    BackGrown(s1, s2, s3, p);
  }

  lemma BackLookups(s1: Vm, s2: Vm, s3: Vm, p: nat)
    requires s1.free != [] && s1.roots == s2.roots == s3.roots && p < |s3.m|
    requires SameLookups(Popped(s1), s2) && SameLookups(s2, s3) && SameLookups(s3, Freed(s3, p))
    ensures SameLookups(s1, Freed(s3, p))
  {
    hide Word, Save;
  }

  lemma BackGrown(s1: Vm, s2: Vm, s3: Vm, p: nat)
    requires s1.free != [] && p == s1.free[0] < |s1.m| && |s2.m| == |s1.m|
    requires s2 == Popped(s1).(m := s1.m[p := s2.m[p]])
    requires Grown(s2, s3, map[]) && Tree(Freed(s3, p)) && Pages(Freed(s3, p)) == Pages(s3) + {p}
    requires p in Pages(s1) && Pages(Popped(s1)) == Pages(s1) - {p}
    ensures Grown(s1, Freed(s3, p), map[])
  {
    hide Tree, IsTable, Save;
    var s4 := Freed(s3, p);
    assert Pages(s2) == Pages(Popped(s1));
    forall q | q in s4.own ensures Newly(s1, s4, map[], q) { assert Newly(s2, s3, map[], q); }
    forall q: nat | IsData(s1, q) ensures Same(s1.m, s4.m, q) { assert IsData(s2, q) && Same(s2.m, s3.m, q); }
    hide Newly, IsData;
    assert Pages(s4) == Pages(s1) + {};
  }

  // ---------- uvmalloc ----------

  const WRU := 22   // PTE_W | PTE_R | PTE_U

  /** k pages from v on, none of which was mapped, are mapped to zeroed pages from the free list,
      the pages of given, and no other translation changed. */
  ghost predicate Filled(s: Vm, s': Vm, r: nat, v: nat, k: nat, given: map<nat, Place>)
  {
    && Grown(s, s', given) && r in s.roots && (k > 0 ==> v + k <= MAXVPN)
    && (forall p :: p in given ==> p in s.free && FillsIn(s', r, v, k, given[p], p))
    && (forall q, u: Vpn :: q in s.roots ==>
          if q == r && v <= u < v + k then Lookup(s.m, q, u) == 0 && FilledAt(s', given, q, u)
          else Lookup(s'.m, q, u) == Lookup(s.m, q, u))
  }

  predicate FillsIn(s': Vm, r: nat, v: nat, k: nat, t: Place, p: nat)
  {
    t.Leaf? && t.r == r && v <= t.v < v + k && p < |s'.m| && s'.m[p] == ZeroPage
  }

  predicate FilledAt(s': Vm, given: map<nat, Place>, r: nat, u: Vpn)
  {
    var p := Ppn(Lookup(s'.m, r, u));
    Lookup(s'.m, r, u) == MakePte(p, WRU) && p in given && given[p] == Leaf(r, u)
  }

  lemma FilledNone(s: Vm, r: nat, v: nat)
    requires Tree(s) && r in s.roots
    ensures Filled(s, s, r, v, 0, map[])
  {
    hide Word;
    GrownSelf(s);
  }

  /** One more page. */
  lemma FillStep(s: Vm, s1: Vm, s3: Vm, r: nat, v: nat, k: nat, given: map<nat, Place>, p: nat, u: Low)
    requires Filled(s, s1, r, v, k, given) && u == v + k && p < MAXPPN && p in s1.free && p < |s3.m|
    requires Grown(s, s3, given[p := Leaf(r, u)]) && p in s.free && s3.m[p] == ZeroPage && Grown(s1, s3, map[p := Leaf(r, u)])
    requires Remapped(s1, s3, r, u, MakePte(p, WRU)) && Lookup(s1.m, r, u) == 0
    ensures Filled(s, s3, r, v, k + 1, given[p := Leaf(r, u)])
  {
    hide Word, MakePte, Tree, Grown, Lookup, FillsIn, FilledAt, Remapped;
    FreshKey(s, s1, given, p);
    FillLookups(s, s1, s3, r, v, k, given, p, u);
    FillKeys(s, s1, s3, r, v, k, given, p, u);
  }

  lemma FillKeys(s: Vm, s1: Vm, s3: Vm, r: nat, v: nat, k: nat, given: map<nat, Place>, p: nat, u: Low)
    requires Filled(s, s1, r, v, k, given) && u == v + k && p < |s3.m| && s3.m[p] == ZeroPage && p in s.free
    requires Grown(s1, s3, map[p := Leaf(r, u)])
    ensures var g := given[p := Leaf(r, u)]; forall q :: q in g ==> q in s.free && FillsIn(s3, r, v, k + 1, g[q], q)
  {
    hide Word, MakePte, Tree, Grown, Lookup, FilledAt;
    var g := given[p := Leaf(r, u)];
    forall q | q in g ensures q in s.free && FillsIn(s3, r, v, k + 1, g[q], q) {
      if q != p { FilledKept(s, s1, s3, r, v, k, given, p, u, q); }
    }
  }

  lemma FillLookups(s: Vm, s1: Vm, s3: Vm, r: nat, v: nat, k: nat, given: map<nat, Place>, p: nat, u: Low)
    requires Filled(s, s1, r, v, k, given) && u == v + k && p < MAXPPN && p !in given
    requires Remapped(s1, s3, r, u, MakePte(p, WRU)) && Lookup(s1.m, r, u) == 0 && s1.roots == s.roots
    ensures forall q, x: Vpn :: q in s.roots ==>
              if q == r && v <= x < v + (k + 1) then Lookup(s.m, q, x) == 0 && FilledAt(s3, given[p := Leaf(r, u)], q, x)
              else Lookup(s3.m, q, x) == Lookup(s.m, q, x)
  {
    hide Word, MakePte, Grown, FillsIn;
    PteFields(p, WRU);
  }

  lemma FreshKey(s: Vm, s1: Vm, given: map<nat, Place>, p: nat)
    requires Grown(s, s1, given) && p in s1.free
    ensures p !in given && s1.roots == s.roots
  {
    hide Word;
    NotFree(s1, p);
  }

  lemma FilledKept(s: Vm, s1: Vm, s3: Vm, r: nat, v: nat, k: nat, given: map<nat, Place>, p: nat, u: Low, q: nat)
    requires Filled(s, s1, r, v, k, given) && Grown(s1, s3, map[p := Leaf(r, u)]) && q in given
    ensures FillsIn(s3, r, v, k + 1, given[q], q)
  {
    hide Word;
    assert q in s1.own && s1.own[q] == given[q];
    PlacedOf(s1, q);
    assert IsData(s1, q) && Same(s1.m, s3.m, q);
  }

  /** Unmapping them again leaves every translation as it was, and returns every page of contents. */
  lemma FillUndone(s: Vm, s1: Vm, s2: Vm, r: nat, v: nat, k: nat, given: map<nat, Place>)
    requires Tree(s) && Filled(s, s1, r, v, k, given) && UnmappedSome(s1, s2, r, v, k, true)
    ensures Grown(s, s2, map[]) && SameLookups(s, s2)
  {
    hide Word, MakePte, Tree;
    UndoneLookups(s, s1, s2, r, v, k, given);
    UndoneLeaves(s, s1, r, v, k, given);
    hide Filled, FilledAt;
    UndoneGrown(s, s1, s2, given);
  }

  lemma UndoneLookups(s: Vm, s1: Vm, s2: Vm, r: nat, v: nat, k: nat, given: map<nat, Place>)
    requires Filled(s, s1, r, v, k, given) && UnmapsRun(s1, s2, r, v, k)
    ensures SameLookups(s, s2)
  {
    hide Word, MakePte, Tree, FilledAt;
  }

  lemma UndoneLeaves(s: Vm, s1: Vm, r: nat, v: nat, k: nat, given: map<nat, Place>)
    requires Tree(s) && Filled(s, s1, r, v, k, given)
    ensures LeavesIn(s1, r, v, k) == given.Keys && Grown(s, s1, given) && forall p :: p in given ==> p in s.free
  {
    hide Word, MakePte, Tree, Same, IsData, Pages;
    forall p | p in LeavesIn(s1, r, v, k) ensures p in given {
      assert Newly(s, s1, given, p);
      if p in s.own { LeafAt(s, p); }
    }
  }

  lemma UndoneGrown(s: Vm, s1: Vm, s2: Vm, given: map<nat, Place>)
    requires Grown(s, s1, given) && (forall p :: p in given ==> p in s.free) && Shrunk(s1, s2, given.Keys, true)
    ensures Grown(s, s2, map[])
  {
    hide Tree, IsTable, Pages;
    ShrunkPages(s1, s2, given.Keys, true);
    GivenPages(s, given);
    forall p | p in s2.own ensures Newly(s, s2, map[], p) { assert Newly(s, s1, given, p); }
    forall p: nat | IsData(s, p) ensures Same(s.m, s2.m, p) { GrownData(s, s1, given, p); }
  }

  lemma GivenPages(s: Vm, given: map<nat, Place>)
    requires forall p :: p in given ==> p in s.free
    ensures Pages(s) + given.Keys == Pages(s) == Pages(s) + {}
  {}

  /** A page taken from the free list and zeroed. */
  ghost predicate Taken(s1: Vm, s2: Vm, p: nat)
  {
    && s1.free != [] && p == s1.free[0] != 0 && p < |s1.m| <= MAXPPN && |s2.m| == |s1.m|
    && s2 == Popped(s1).(m := s1.m[p := s2.m[p]]) && SameLookups(Popped(s1), s2)
    && InHand(s2, p) && Tree(s2) && Tree(s1) && p in Pages(s1) && Pages(Popped(s1)) == Pages(s1) - {p}
  }

  /** A page in hand may be written. */
  lemma TakenOf(s1: Vm, p: nat, c: Page, head: nat)
    requires Tree(s1) && s1.free != [] && p == s1.free[0] && Allocated(s1, Popped(s1), p) && FreeList(Popped(s1), head)
    ensures p < |s1.m| && var s2 := Popped(s1).(m := s1.m[p := c]); Taken(s1, s2, p) && FreeList(s2, head)
  {
    hide Word, Load, Pages;
    var s0 := Popped(s1);
    var s2 := s0.(m := s1.m[p := c]);
    TreeSame(s0, s2);
    LookupsSame(s0, s2);
    assert |s1.m| <= MAXPPN;
    hide Tree, SameLookups, Unmapped;
    UnmappedSame(s0, s2, p);
    forall q | q in s0.free && Unmapped(s0, q) ensures Unmapped(s2, q) { UnmappedSame(s0, s2, q); }
    FreeListSame(s0, s2, head);
  }

  lemma FillOn(s: Vm, s1: Vm, s2: Vm, s3: Vm, r: nat, v: nat, k: nat, given: map<nat, Place>, p: nat, u: Low)
    requires Filled(s, s1, r, v, k, given) && Taken(s1, s2, p) && s2.m[p] == ZeroPage && u == v + k
    requires MappedSome(s2, s3, r, u, 1, p, WRU, true) && Lookup(s2.m, r, u) == 0 && r in s1.roots
    ensures Filled(s, s3, r, v, k + 1, given[p := Leaf(r, u)])
  {
    hide Word, MakePte, Tree, Grown, MapsRun, InHand, FilledAt, MappedSome;
    assert Lookup(Popped(s1).m, r, u) == 0;
    GrownSelf(s1);
    GiveStep(s1, s1, s2, s3, map[], p, r, u, WRU);
    GiveStep(s, s1, s2, s3, given, p, r, u, WRU);
    hide SameLookups, Pages;
    assert map[][p := Leaf(r, u)] == map[p := Leaf(r, u)];
    FillStep(s, s1, s3, r, v, k, given, p, u);
  }

  /** A growth of the tables alone keeps what was mapped. */
  lemma FilledOn(s: Vm, s1: Vm, s4: Vm, r: nat, v: nat, k: nat, given: map<nat, Place>)
    requires Filled(s, s1, r, v, k, given) && Grown(s1, s4, map[]) && SameLookups(s1, s4)
    ensures Filled(s, s4, r, v, k, given)
  {
    hide Word, MakePte, Tree;
    GrownTwice(s, s1, s4, given, map[]);
    assert given + map[] == given;
    forall q | q in given ensures FillsIn(s4, r, v, k, given[q], q) {
      assert q in s1.own && s1.own[q] == given[q];
      PlacedOf(s1, q);
      assert IsData(s1, q) && Same(s1.m, s4.m, q);
    }
    hide Grown;
  }

  /** The page that could not be mapped has been given back. */
  lemma FillFailed(s: Vm, s1: Vm, s2: Vm, s3: Vm, head: nat, r: nat, v: nat, k: nat, given: map<nat, Place>, p: nat, u: nat)
    requires Filled(s, s1, r, v, k, given) && Taken(s1, s2, p) && MappedSome(s2, s3, r, u, 0, p, WRU, true) && FreeList(s3, head)
    ensures p < |s3.m| && s3.lo <= p && Filled(s, Freed(s3, p), r, v, k, given) && FreeList(Freed(s3, p), p) && Tree(Freed(s3, p))
  {
    hide Word, MakePte, Tree, Grown, Filled, FreeList, Unmapped;
    NothingMapped(s2, s3, r, u, p, WRU);
    RootsOf(s2, s3, map[]);
    InHandKept(s2, s3, p);
    BackStep(s1, s2, s3, head, p);
    RootsOf(s1, Freed(s3, p), map[]);
    hide SameLookups;
    FilledOn(s, s1, Freed(s3, p), r, v, k, given);
  }

  lemma NothingMapped(s2: Vm, s3: Vm, r: nat, u: nat, p: nat, perm: nat)
    requires MappedSome(s2, s3, r, u, 0, p, perm, true)
    ensures Grown(s2, s3, map[]) && SameLookups(s2, s3)
  {
    hide Word, MakePte, Grown;
    assert Gift(r, u, 0, p, true) == map[];
  }

  lemma FilledOwns(s: Vm, s1: Vm, r: nat, v: nat, k: nat, given: map<nat, Place>)
    requires Filled(s, s1, r, v, k, given) && 0 !in given
    ensures OwnsRange(s1, r, v, k) && MapsAll(s1, r, v, k) && r in s1.roots
  {
    hide Word, Tree, Same;
    forall u: Vpn | v <= u < v + k ensures Lookup(s1.m, r, u) != 0 && Ppn(Lookup(s1.m, r, u)) in s1.own {
      assert FilledAt(s1, given, r, u);
    }
  }

  lemma FilledZero(s: Vm, s1: Vm, r: nat, v: nat, k: nat, given: map<nat, Place>)
    requires Filled(s, s1, r, v, k, given)
    ensures 0 !in given && Tree(s1) && Grown(s, s1, given) && s1.roots == s.roots && |s1.m| == |s.m|
  {
    hide Word;
    PlacedZero(s1);
  }

  /** A page behind those mapped so far is as it was. */
  lemma FilledBehind(s: Vm, s1: Vm, s2: Vm, r: nat, v: nat, k: nat, given: map<nat, Place>, p: nat, u: Low)
    requires Filled(s, s1, r, v, k, given) && Taken(s1, s2, p) && v + k <= u && r in s1.roots
    ensures Lookup(s2.m, r, u) == Lookup(s.m, r, u)
  {
    hide Word, Tree, Pages, Grown, InHand;
    FilledZero(s, s1, r, v, k, given);
    assert Lookup(Popped(s1).m, r, u) == Lookup(s1.m, r, u);
  }

  // ---------- uvmcopy ----------

  /** The mapped pages among the first k of address space o have been copied into address space n,
      to the pages of given, with their flags; and no other translation changed. */
  ghost predicate Copied(s: Vm, s': Vm, o: nat, n: nat, k: nat, given: map<nat, Place>)
  {
    && Grown(s, s', given) && o in s.roots && n in s.roots
    && (forall p :: p in given ==> p in s.free && CopyIn(s, s', o, n, k, given[p], p))
    && (forall q, u: Vpn :: q in s.roots ==>
          if q == n && u < k && Lookup(s.m, o, u) != 0 then CopiedAt(s, s', given, o, n, u)
          else Lookup(s'.m, q, u) == Lookup(s.m, q, u))
  }

  predicate CopyIn(s: Vm, s': Vm, o: nat, n: nat, k: nat, t: Place, p: nat)
  {
    && t.Leaf? && t.r == n && t.v < k && Lookup(s.m, o, t.v) != 0 && p < |s'.m|
    && Ppn(Lookup(s.m, o, t.v)) < |s.m| && s'.m[p] == s.m[Ppn(Lookup(s.m, o, t.v))]
  }

  predicate CopiedAt(s: Vm, s': Vm, given: map<nat, Place>, o: nat, n: nat, u: Vpn)
  {
    var w, p := Lookup(s.m, o, u), Ppn(Lookup(s'.m, n, u));
    Lookup(s.m, n, u) == 0 && Lookup(s'.m, n, u) == MakePte(p, Flags(w)) && p in given && given[p] == Leaf(n, u)
  }

  lemma CopiedNone(s: Vm, o: nat, n: nat)
    requires Tree(s) && o in s.roots && n in s.roots
    ensures Copied(s, s, o, n, 0, map[])
  {
    hide Word;
    GrownSelf(s);
  }

  /** A page that is not mapped is passed over. */
  lemma CopySkip(s: Vm, s1: Vm, o: nat, n: nat, k: nat, given: map<nat, Place>)
    requires Copied(s, s1, o, n, k, given) && k < MAXVPN && Lookup(s1.m, o, k) == 0
    ensures Copied(s, s1, o, n, k + 1, given)
  {
    hide Word, MakePte, Grown;
    CopiedBehind(s, s1, o, n, k, given, o, k);
  }

  /** A page that is yet to be copied is as it was. */
  lemma CopiedBehind(s: Vm, s1: Vm, o: nat, n: nat, k: nat, given: map<nat, Place>, q: nat, u: Low)
    requires Copied(s, s1, o, n, k, given) && k <= u && q in s.roots
    ensures Lookup(s1.m, q, u) == Lookup(s.m, q, u)
  {
    hide Word, MakePte, Grown;
  }

  lemma CopiedKept(s: Vm, s1: Vm, s3: Vm, o: nat, n: nat, k: nat, k': nat, given: map<nat, Place>, g: map<nat, Place>, q: nat)
    requires Copied(s, s1, o, n, k, given) && Grown(s1, s3, g) && q in given && k <= k'
    ensures CopyIn(s, s3, o, n, k', given[q], q)
  {
    hide Word;
    assert q in s1.own && s1.own[q] == given[q];
    PlacedOf(s1, q);
    assert IsData(s1, q) && Same(s1.m, s3.m, q);
  }

  /** The contents of a mapped page have not changed so far. */
  lemma CopiedContent(s: Vm, s1: Vm, o: nat, n: nat, k: nat, given: map<nat, Place>, u: Low)
    requires Tree(s) && Copied(s, s1, o, n, k, given) && u == k && Lookup(s1.m, o, u) != 0
    ensures var p := Ppn(Lookup(s1.m, o, u)); p < |s1.m| == |s.m| && s1.m[p] == s.m[p]
    ensures Lookup(s1.m, o, u) == Lookup(s.m, o, u) && HasRwx(Lookup(s1.m, o, u))
  {
    hide Word, Tree;
    CopiedBehind(s, s1, o, n, k, given, o, u);
    LeafNamed(s, o, u);
    var p := Ppn(Lookup(s1.m, o, u));
    assert IsData(s, p) && Same(s.m, s1.m, p);
  }

  lemma CopyOn(s: Vm, s1: Vm, s2: Vm, s3: Vm, o: nat, n: nat, k: nat, given: map<nat, Place>, p: nat, u: Low, w: nat)
    requires Tree(s) && Copied(s, s1, o, n, k, given) && Taken(s1, s2, p) && u == k && w == Lookup(s1.m, o, u) != 0
    requires Ppn(w) < |s1.m| && s2.m[p] == s1.m[Ppn(w)]
    requires MappedSome(s2, s3, n, u, 1, p, Flags(w), true) && Lookup(s2.m, n, u) == 0 && n in s1.roots
    ensures Copied(s, s3, o, n, k + 1, given[p := Leaf(n, u)])
  {
    hide Word, MakePte, Tree, Grown, MapsRun, InHand, CopiedAt, MappedSome;
    assert Lookup(Popped(s1).m, n, u) == 0;
    GrownSelf(s1);
    GiveStep(s1, s1, s2, s3, map[], p, n, u, Flags(w));
    GiveStep(s, s1, s2, s3, given, p, n, u, Flags(w));
    CopiedContent(s, s1, o, n, k, given, u);
    hide SameLookups, Pages;
    assert map[][p := Leaf(n, u)] == map[p := Leaf(n, u)];
    CopyStep(s, s1, s3, o, n, k, given, p, u);
  }

  lemma CopyStep(s: Vm, s1: Vm, s3: Vm, o: nat, n: nat, k: nat, given: map<nat, Place>, p: nat, u: Low)
    requires Copied(s, s1, o, n, k, given) && u == k && p < MAXPPN && p in s1.free && p < |s3.m|
    requires Grown(s, s3, given[p := Leaf(n, u)]) && p in s.free && Grown(s1, s3, map[p := Leaf(n, u)])
    requires Lookup(s.m, o, u) != 0 && Ppn(Lookup(s.m, o, u)) < |s.m| && s3.m[p] == s.m[Ppn(Lookup(s.m, o, u))]
    requires Remapped(s1, s3, n, u, MakePte(p, Flags(Lookup(s.m, o, u)))) && Lookup(s1.m, n, u) == 0
    ensures Copied(s, s3, o, n, k + 1, given[p := Leaf(n, u)])
  {
    hide Word, MakePte, Tree, Grown, Lookup, CopyIn, CopiedAt, Remapped, Ppn;
    FreshKey(s, s1, given, p);
    CopyLookups(s, s1, s3, o, n, k, given, p, u);
    CopyKeys(s, s1, s3, o, n, k, given, p, u);
  }

  lemma CopyKeys(s: Vm, s1: Vm, s3: Vm, o: nat, n: nat, k: nat, given: map<nat, Place>, p: nat, u: Low)
    requires Copied(s, s1, o, n, k, given) && u == k && p < |s3.m| && p in s.free
    requires Lookup(s.m, o, u) != 0 && Ppn(Lookup(s.m, o, u)) < |s.m| && s3.m[p] == s.m[Ppn(Lookup(s.m, o, u))]
    requires Grown(s1, s3, map[p := Leaf(n, u)])
    ensures var g := given[p := Leaf(n, u)]; forall q :: q in g ==> q in s.free && CopyIn(s, s3, o, n, k + 1, g[q], q)
  {
    hide Word, MakePte, Tree, Grown, CopiedAt;
    var g := given[p := Leaf(n, u)];
    forall q | q in g ensures q in s.free && CopyIn(s, s3, o, n, k + 1, g[q], q) {
      if q != p { CopiedKept(s, s1, s3, o, n, k, k + 1, given, map[p := Leaf(n, u)], q); }
    }
  }

  lemma CopyLookups(s: Vm, s1: Vm, s3: Vm, o: nat, n: nat, k: nat, given: map<nat, Place>, p: nat, u: Low)
    requires Copied(s, s1, o, n, k, given) && u == k && p < MAXPPN && p !in given && Lookup(s.m, o, u) != 0
    requires Remapped(s1, s3, n, u, MakePte(p, Flags(Lookup(s.m, o, u)))) && Lookup(s1.m, n, u) == 0 && s1.roots == s.roots
    ensures forall q, x: Vpn :: q in s.roots ==>
              if q == n && x < k + 1 && Lookup(s.m, o, x) != 0 then CopiedAt(s, s3, given[p := Leaf(n, u)], o, n, x)
              else Lookup(s3.m, q, x) == Lookup(s.m, q, x)
  {
    hide Word, MakePte, Grown, CopyIn;
    PteFields(p, Flags(Lookup(s.m, o, u)));
  }

  lemma CopyFailed(s: Vm, s1: Vm, s2: Vm, s3: Vm, head: nat, o: nat, n: nat, k: nat, given: map<nat, Place>, p: nat, u: nat, perm: nat)
    requires Copied(s, s1, o, n, k, given) && Taken(s1, s2, p) && MappedSome(s2, s3, n, u, 0, p, perm, true) && FreeList(s3, head)
    ensures p < |s3.m| && s3.lo <= p && Copied(s, Freed(s3, p), o, n, k, given) && FreeList(Freed(s3, p), p) && Tree(Freed(s3, p))
  {
    hide Word, MakePte, Tree, Grown, Copied, FreeList, Unmapped;
    NothingMapped(s2, s3, n, u, p, perm);
    RootsOf(s2, s3, map[]);
    InHandKept(s2, s3, p);
    BackStep(s1, s2, s3, head, p);
    RootsOf(s1, Freed(s3, p), map[]);
    hide SameLookups;
    CopiedOn(s, s1, Freed(s3, p), o, n, k, given);
  }

  lemma CopiedOn(s: Vm, s1: Vm, s4: Vm, o: nat, n: nat, k: nat, given: map<nat, Place>)
    requires Copied(s, s1, o, n, k, given) && Grown(s1, s4, map[]) && SameLookups(s1, s4)
    ensures Copied(s, s4, o, n, k, given)
  {
    hide Word, MakePte, Tree;
    GrownTwice(s, s1, s4, given, map[]);
    assert given + map[] == given;
    forall q | q in given ensures CopyIn(s, s4, o, n, k, given[q], q) { CopiedKept(s, s1, s4, o, n, k, k, given, map[], q); }
    hide Grown;
  }
}
