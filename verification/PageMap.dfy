/** What the operations of kernel/mm/vm.c do to the translations, to the pages the trees hold and
    to the free pages, and that each step of them keeps the trees. */
module PageMap {
  import opened PageTable

  /** The pages kalloc's list and the trees hold between them. */
  function Pages(s: Vm): set<nat>
  {
    s.own.Keys + set p | p in s.free
  }

  /** The free pages as they are linked in memory: the first word of each is the address of the
      next. */
  ghost predicate FreeList(s: Vm, head: nat)
  {
    && head == Link(s.free, 0)
    && (forall i :: 0 <= i < |s.free| ==> s.lo <= s.free[i] < |s.m| && Linked(s, i))
    && (forall i, j :: 0 <= i < j < |s.free| ==> s.free[i] != s.free[j])
    && (forall i :: 0 <= i < |s.free| ==> Unmapped(s, s.free[i]))
  }

  predicate Linked(s: Vm, i: nat)
    requires i < |s.free| && s.free[i] < |s.m|
  {
    Load(s.m[s.free[i]], 0) == Link(s.free, i + 1) * PGSIZE
  }

  function Link(free: seq<nat>, i: nat): nat
  {
    if i < |free| then free[i] else 0
  }

  /** A page taken from kalloc that no tree knows yet. */
  ghost predicate InHand(s: Vm, p: nat)
  {
    s.lo <= p < |s.m| && p !in s.free && Unmapped(s, p)
  }

  /** A page of contents: neither free nor a table. */
  predicate IsData(s: Vm, p: nat)
  {
    0 < p < |s.m| && p !in s.free && (p in s.own ==> !IsTable(s.own[p]))
  }

  /** Page p has the same contents. */
  predicate Same(m: Mem, m': Mem, p: nat)
  {
    p < |m| && p < |m'| ==> m'[p] == m[p]
  }

  ghost predicate SameLookups(s: Vm, s': Vm)
  {
    forall r, v: Vpn :: r in s.roots ==> Lookup(s'.m, r, v) == Lookup(s.m, r, v)
  }

  // ---------- kalloc and kfree ----------

  function Popped(s: Vm): Vm
    requires s.free != []
  {
    s.(free := s.free[1..])
  }

  ghost predicate Allocated(s: Vm, s': Vm, head: nat)
  {
    && Tree(s') && InHand(s', head) && 0 < head && head in Pages(s) && Pages(s') == Pages(s) - {head}
    && head < |s.m| && FreeList(s', Load(s.m[head], 0) / PGSIZE)
  }

  lemma AllocKeeps(s: Vm, head: nat)
    requires Tree(s) && FreeList(s, head) && s.free != []
    ensures Allocated(s, Popped(s), head)
  {
    hide Word;
    var s' := Popped(s);
    assert s.free == [head] + s'.free;
    assert 0 < s.lo;
    FreedTree(s, s');
    NotFree(s, head);
    hide Tree, Load, Unmapped;
    assert Linked(s, 0) && Unmapped(s, s.free[0]);
    AllocLinks(s, s');
    UnmappedSame(s, s', head);
  }

  lemma AllocLinks(s: Vm, s': Vm)
    requires s.free != [] && s' == Popped(s) && FreeList(s, s.free[0])
    ensures FreeList(s', Load(s.m[s.free[0]], 0) / PGSIZE)
  {
    hide Load, Unmapped;
    assert Linked(s, 0);
    forall i | 0 <= i < |s'.free| ensures s'.lo <= s'.free[i] < |s'.m| && Linked(s', i) && Unmapped(s', s'.free[i]) {
      assert s'.free[i] == s.free[i + 1] && Linked(s, i + 1) && Unmapped(s, s.free[i + 1]);
      UnmappedSame(s, s', s.free[i + 1]);
    }
  }

  lemma FreedTree(s: Vm, s': Vm)
    requires Tree(s) && s' == s.(free := s'.free) && forall p :: p in s'.free ==> p in s.free
    ensures Tree(s')
  {
    TreeSame(s, s');
  }

  lemma NotFree(s: Vm, p: nat)
    requires Tree(s) && p in s.free
    ensures p !in s.own
  {
    if p in s.own { PlacedOf(s, p); }
  }

  lemma UnmappedSame(s: Vm, s': Vm, p: nat)
    requires Unmapped(s, p) && s'.own == s.own && s'.roots == s.roots && SameLookups(s, s')
    ensures Unmapped(s', p)
  {}

  /** The memory, and the free list, after kfree. */
  function Freed(s: Vm, p: nat): Vm
    requires p < |s.m|
  {
    s.(m := s.m[p := Save(s.m[p], 0, Link(s.free, 0) * PGSIZE)], free := [p] + s.free)
  }

  lemma FreeKeeps(s: Vm, head: nat, p: nat)
    requires Tree(s) && FreeList(s, head) && InHand(s, p)
    ensures Tree(Freed(s, p)) && FreeList(Freed(s, p), p) && SameLookups(s, Freed(s, p))
    ensures Pages(Freed(s, p)) == Pages(s) + {p}
  {
    var s' := Freed(s, p);
    hide Word, Load, Save;
    assert |s.m| <= MAXPPN;
    TreeSame(s, s');
    LookupsSame(s, s');
    hide Tree;
    FreeLinks(s, head, p);
  }

  lemma LookupsSame(s: Vm, s': Vm)
    requires Tree(s) && SameTables(s, s'.m)
    ensures SameLookups(s, s')
  {
    forall r, v: Vpn | r in s.roots ensures Lookup(s'.m, r, v) == Lookup(s.m, r, v) { WordSame(s, s'.m, Leaf(r, v)); }
  }

  lemma FreeLinks(s: Vm, head: nat, p: nat)
    requires FreeList(s, head) && InHand(s, p) && SameLookups(s, Freed(s, p)) && |s.m| <= MAXPPN
    ensures FreeList(Freed(s, p), p)
  {
    hide Load, Save, Unmapped, SameLookups;
    var s' := Freed(s, p);
    LoadOfSave(s.m[p], 0, head * PGSIZE, 0);
    forall i | 0 <= i < |s'.free| ensures s'.lo <= s'.free[i] < |s'.m| && Linked(s', i) && Unmapped(s', s'.free[i]) {
      if i > 0 { assert s'.free[i] == s.free[i - 1] && Linked(s, i - 1) && Unmapped(s, s.free[i - 1]); }
      UnmappedSame(s, s', s'.free[i]);
    }
  }

  /** The list is still good when no free page was written or mapped. */
  lemma FreeListSame(s: Vm, s': Vm, head: nat)
    requires FreeList(s, head) && s'.free == s.free && s'.lo == s.lo && |s'.m| == |s.m|
    requires forall p :: p in s.free ==> Same(s.m, s'.m, p) && (Unmapped(s, p) ==> Unmapped(s', p))
    ensures FreeList(s', head)
  {
    hide Unmapped, Load;
    forall i | 0 <= i < |s'.free| ensures s'.lo <= s'.free[i] < |s'.m| && Linked(s', i) && Unmapped(s', s'.free[i]) {
      assert Linked(s, i) && Unmapped(s, s.free[i]) && s.free[i] in s.free;
    }
  }

  // ---------- growing trees ----------

  /** The trees got more tables, from the free list, and the leaves in given. Nothing else
      changed hands, no page was lost, and no content changed. */
  ghost predicate Grown(s: Vm, s': Vm, given: map<nat, Place>)
  {
    && Tree(s') && s'.lo == s.lo && s'.roots == s.roots && |s'.m| == |s.m|
    && Pages(s') == Pages(s) + given.Keys
    && (forall p :: p in s.own ==> p in s'.own && s'.own[p] == s.own[p])
    && (forall p :: p in s'.own ==> Newly(s, s', given, p))
    && (forall p :: p in given ==> given[p].Leaf? && p in s'.own && s'.own[p] == given[p] && p !in s.own)
    && (forall p :: p in s'.free ==> p in s.free)
    && (forall p: nat :: IsData(s, p) ==> Same(s.m, s'.m, p))
  }

  predicate Newly(s: Vm, s': Vm, given: map<nat, Place>, p: nat)
    requires p in s'.own
  {
    p in s.own || (p in s.free && IsTable(s'.own[p])) || (p in given && s'.own[p] == given[p])
  }

  lemma GrownSelf(s: Vm)
    requires Tree(s)
    ensures Grown(s, s, map[]) && SameLookups(s, s)
  {}

  lemma GrownTwice(s: Vm, t: Vm, u: Vm, g: map<nat, Place>, h: map<nat, Place>)
    requires Grown(s, t, g) && Grown(t, u, h)
    ensures Grown(s, u, g + h)
  {
    hide Tree, IsTable, Newly, IsData;
    forall p | p in u.own ensures Newly(s, u, g + h, p) { GrownNewly(s, t, u, g, h, p); }
    forall p: nat | IsData(s, p) ensures Same(s.m, u.m, p) { GrownData(s, t, g, p); }
    assert Pages(u) == Pages(s) + (g + h).Keys;
  }

  lemma GrownNewly(s: Vm, t: Vm, u: Vm, g: map<nat, Place>, h: map<nat, Place>, p: nat)
    requires Grown(s, t, g) && Grown(t, u, h) && p in u.own
    ensures Newly(s, u, g + h, p)
  {
    hide Tree, IsTable, Pages, IsData, Same;
    assert Newly(t, u, h, p);
    if p in t.own { assert Newly(s, t, g, p); }
  }

  lemma GrownData(s: Vm, t: Vm, g: map<nat, Place>, p: nat)
    requires Grown(s, t, g) && IsData(s, p)
    ensures IsData(t, p)
  {
    hide Tree, Pages, Same;
    if p in t.own { assert Newly(s, t, g, p); }
  }

  // ---------- walk ----------

  /** What walk does when it makes the table of place t. */
  function Tabled(s: Vm, t: Place): Vm
    requires s.free != [] && s.free[0] < |s.m| && !t.P2?
  {
    var p := s.free[0];
    s.(m := Store(s.m[p := ZeroPage], t, MakePte(p, 0)), own := s.own[p := t], free := s.free[1..])
  }

  /** The tree may get a table at t. */
  ghost predicate Lacks(s: Vm, t: Place)
  {
    IsTable(t) && !t.P2? && t.r in s.roots && PageOf(s.m, Above(t)) != 0 && Word(s.m, t) == 0
  }

  lemma TableStep(s: Vm, head: nat, t: Place)
    requires Tree(s) && FreeList(s, head) && s.free != [] && s.free[0] < |s.m| && Lacks(s, t)
    ensures Grown(s, Tabled(s, t), map[]) && SameLookups(s, Tabled(s, t))
    ensures FreeList(Tabled(s, t), Load(s.m[head], 0) / PGSIZE)
    ensures PageOf(Tabled(s, t).m, t) == head != 0
  {
    hide Word, Tree, Load, FreeList, InHand, SameLookups, Unmapped;
    HeadIs(s, head);
    AllocKeeps(s, head);
    var head' := Load(s.m[head], 0) / PGSIZE;
    var s0 := Popped(s);
    var s1 := s0.(m := s.m[head := ZeroPage]);
    ZeroKeeps(s0, head, head');
    LacksSame(s0, s1, t);
    TableStore(s1, head', t, head);
    LookupsTwice(s, s0, s1, Tabled(s, t));
    TableGrown(s, s1, Tabled(s, t), t);
  }

  lemma LacksSame(s: Vm, s': Vm, t: Place)
    requires Lacks(s, t) && s'.roots == s.roots && forall u: Place :: u.r in s.roots ==> Word(s'.m, u) == Word(s.m, u)
    ensures Lacks(s', t)
  {
    hide Word;
  }

  lemma LookupsTwice(s: Vm, s0: Vm, t: Vm, u: Vm)
    requires s0.m == s.m && s0.roots == s.roots == t.roots && SameLookups(s0, t) && SameLookups(t, u)
    ensures SameLookups(s, u)
  {}

  lemma TableGrown(s: Vm, s1: Vm, s': Vm, t: Place)
    requires s.free != [] && s.free[0] < |s.m| && IsTable(t) && s.free[0] !in s.own && Tree(s')
    requires s1 == s.(free := s.free[1..], m := s.m[s.free[0] := ZeroPage])
    requires s' == s1.(m := s'.m, own := s.own[s.free[0] := t]) && |s'.m| == |s.m|
    requires forall q: nat :: IsData(s1, q) ==> Same(s1.m, s'.m, q)
    ensures Grown(s, s', map[])
  {
    hide Tree;
    assert s.free == [s.free[0]] + s1.free;
    forall q: nat | IsData(s, q) ensures Same(s.m, s'.m, q) { assert IsData(s1, q); }
  }

  lemma HeadIs(s: Vm, head: nat)
    requires FreeList(s, head) && s.free != []
    ensures head == s.free[0] < |s.m|
  {}

  /** Zeroing a page in hand. */
  lemma ZeroKeeps(s: Vm, p: nat, head: nat)
    requires Tree(s) && FreeList(s, head) && InHand(s, p)
    ensures var s' := s.(m := s.m[p := ZeroPage]);
            Zeroed(s, s', p, head)
  {
    var s' := s.(m := s.m[p := ZeroPage]);
    hide Word, Load;
    TreeSame(s, s');
    LookupsSame(s, s');
    forall t: Place | t.r in s.roots ensures Word(s'.m, t) == Word(s.m, t) { WordSame(s, s'.m, t); }
    ZeroEmpty(s'.m, p);
    hide Tree;
    UnmappedSame(s, s', p);
    forall q | q in s.free && Unmapped(s, q) ensures Unmapped(s', q) { UnmappedSame(s, s', q); }
    FreeListSame(s, s', head);
  }

  ghost predicate Zeroed(s: Vm, s': Vm, p: nat, head: nat)
  {
    && Tree(s') && FreeList(s', head) && InHand(s', p) && SameLookups(s, s') && EmptyTable(s'.m, p)
    && forall t: Place :: t.r in s.roots ==> Word(s'.m, t) == Word(s.m, t)
  }

  lemma ZeroEmpty(m: Mem, p: nat)
    requires p < |m| && m[p] == ZeroPage
    ensures EmptyTable(m, p)
  {
    hide Load;
    forall i: Idx ensures Entry(m, p, i) == 0 { LoadOfZero(i); }
  }

  ghost predicate StoredAt(s: Vm, s': Vm, head: nat, t: Place, p: nat)
  {
    && Tree(s') && FreeList(s', head) && SameLookups(s, s') && PageOf(s'.m, t) == p && |s'.m| == |s.m|
    && forall q: nat :: IsData(s, q) ==> Same(s.m, s'.m, q)
  }

  lemma TableStore(s: Vm, head: nat, t: Place, p: nat)
    requires Tree(s) && FreeList(s, head) && InHand(s, p) && EmptyTable(s.m, p) && Lacks(s, t)
    ensures StoredAt(s, s.(m := Store(s.m, t, MakePte(p, 0)), own := s.own[p := t]), head, t, p)
  {
    hide Word, MakePte, Load, FreeList;
    var w := MakePte(p, 0);
    var s' := s.(m := Store(s.m, t, w), own := s.own[p := t]);
    assert p < MAXPPN && 0 < p;
    PteFields(p, 0);
    assert PageOf(s.m, t) == 0;
    PlacedZero(s);
    hide Tree;
    assert Reown(s, t, w, true) == s.own[p := t];
    StoreTree(s, t, w, true);
    StoreEntry(s, t, w, 0, 0);
    StoreWord(s, t, w, t);
    hide Store;
    TableLookups(s, s', t, w);
    TableFree(s, s', head, p);
  }

  lemma TableLookups(s: Vm, s': Vm, t: Place, w: nat)
    requires MayStore(s, t, w) && IsTable(t) && s'.m == Store(s.m, t, w)
    ensures SameLookups(s, s')
  {
    hide Word, Store, Tree;
    forall r, v: Vpn | r in s.roots ensures Lookup(s'.m, r, v) == Lookup(s.m, r, v) { StoreWord(s, t, w, Leaf(r, v)); }
  }

  lemma TableFree(s: Vm, s': Vm, head: nat, p: nat)
    requires Tree(s) && FreeList(s, head) && p !in s.free && SameLookups(s, s')
    requires s'.lo == s.lo && s'.roots == s.roots && |s'.m| == |s.m| && s'.free == s.free
    requires s'.own.Keys <= s.own.Keys + {p}
    requires forall q: nat :: q !in s.own ==> Same(s.m, s'.m, q)
    ensures FreeList(s', head)
  {
    hide Word, Tree;
    forall q | q in s.free ensures Same(s.m, s'.m, q) && (Unmapped(s, q) ==> Unmapped(s', q)) { NotFree(s, q); }
    FreeListSame(s, s', head);
  }

  lemma PlacedZero(s: Vm)
    requires Tree(s)
    ensures 0 !in s.own
  {
    if 0 in s.own { PlacedOf(s, 0); }
  }

  // ---------- leaves ----------

  /** The translation of page v of address space r, and no other, has become w. */
  ghost predicate Remapped(s: Vm, s': Vm, r: nat, v: Vpn, w: nat)
  {
    forall q, u: Vpn :: q in s.roots ==> Lookup(s'.m, q, u) == if q == r && u == v then w else Lookup(s.m, q, u)
  }

  /** Writing the leaf entry of page v. */
  function LeafSet(s: Vm, r: nat, v: Vpn, w: nat, give: bool): Vm
  {
    s.(m := Store(s.m, Leaf(r, v), w), own := Reown(s, Leaf(r, v), w, give))
  }

  /** There is a table for the entry of page v. */
  ghost predicate HasTable(s: Vm, r: nat, v: Vpn)
  {
    r in s.roots && PageOf(s.m, Above(Leaf(r, v))) != 0
  }

  ghost predicate TablesKept(s: Vm, s': Vm)
  {
    forall p :: p in s.own && IsTable(s.own[p]) ==> p in s'.own && s'.own[p] == s.own[p]
  }

  lemma HasTableKept(s: Vm, s': Vm, r: nat, v: Vpn)
    requires Tree(s) && Tree(s') && TablesKept(s, s') && s'.roots == s.roots && HasTable(s, r, v)
    ensures HasTable(s', r, v)
  {
    hide Tree, Word;
    TableOwned(s, Above(Leaf(r, v)));
    PlacedOf(s', PageOf(s.m, Above(Leaf(r, v))));
  }

  /** Without a table above it there is none for the page. */
  lemma TableMissing(s: Vm, u: Place, v: Vpn)
    requires (u == P1(u.r, Px2(v)) || u == P0(u.r, Px2(v), Px1(v))) && Word(s.m, u) == 0
    ensures !HasTable(s, u.r, v)
  {}

  ghost predicate LeafStored(s: Vm, s': Vm, head: nat, r: nat, v: Vpn, w: nat)
  {
    && Tree(s') && Remapped(s, s', r, v, w) && |s'.m| == |s.m| && FreeList(s', head)
    && forall q: nat :: IsData(s, q) || q in s.free ==> Same(s.m, s'.m, q)
  }

  lemma LeafStep(s: Vm, head: nat, r: nat, v: Vpn, w: nat, give: bool)
    requires Tree(s) && FreeList(s, head) && HasTable(s, r, v)
    requires w < WORDS && (w == 0 || IsValid(w)) && Admits(s, Leaf(r, v), w, give)
    ensures LeafStored(s, LeafSet(s, r, v, w, give), head, r, v, w)
  {
    var s' := LeafSet(s, r, v, w, give);
    hide Word, Load, Tree, FreeList;
    StoreTree(s, Leaf(r, v), w, give);
    StoreEntry(s, Leaf(r, v), w, 0, 0);
    LeafRemapped(s, s', r, v, w);
    hide Store, MayStore;
    forall q | q in s.free ensures Same(s.m, s'.m, q) { NotFree(s, q); }
    LeafFree(s, s', head, r, v, w);
  }

  lemma LeafRemapped(s: Vm, s': Vm, r: nat, v: Vpn, w: nat)
    requires MayStore(s, Leaf(r, v), w) && s'.m == Store(s.m, Leaf(r, v), w)
    ensures Remapped(s, s', r, v, w)
  {
    hide Word, Store, Tree, MayStore;
    forall q, u: Vpn | q in s.roots ensures Lookup(s'.m, q, u) == if q == r && u == v then w else Lookup(s.m, q, u) {
      StoreWord(s, Leaf(r, v), w, Leaf(q, u));
    }
  }

  lemma LeafFree(s: Vm, s': Vm, head: nat, r: nat, v: Vpn, w: nat)
    requires FreeList(s, head) && s'.free == s.free && s'.lo == s.lo && s'.roots == s.roots && |s'.m| == |s.m|
    requires Remapped(s, s', r, v, w) && (w != 0 ==> Ppn(w) !in s.free)
    requires forall p :: p in s'.own ==> p in s.own || (w != 0 && p == Ppn(w))
    requires forall q: nat :: q in s.free ==> Same(s.m, s'.m, q)
    ensures FreeList(s', head)
  {
    hide Word, Load;
    forall q | q in s.free && Unmapped(s, q) ensures Unmapped(s', q) {}
    hide Remapped;
    FreeListSame(s, s', head);
  }

  /** A page that its leaf entry no longer names is in no other place. */
  lemma LeafGone(s: Vm, r: nat, v: Vpn)
    requires Tree(s) && HasTable(s, r, v) && Lookup(s.m, r, v) != 0 && Ppn(Lookup(s.m, r, v)) in s.own
    ensures var p := Ppn(Lookup(s.m, r, v));
            s.own[p] == Leaf(r, v) && InHand(LeafSet(s, r, v, 0, false), p)
  {
    var p := Ppn(Lookup(s.m, r, v));
    var s' := LeafSet(s, r, v, 0, false);
    hide Word, Store, Load;
    NamedOf(s, Leaf(r, v));
    PlacedOf(s, p);
    StoreEntry(s, Leaf(r, v), 0, 0, 0);
    LeafRemapped(s, s', r, v, 0);
    hide MayStore;
    forall q, u: Vpn | q in s.roots && Lookup(s'.m, q, u) != 0 ensures Ppn(Lookup(s'.m, q, u)) != p {
      NamedOf(s, Leaf(q, u));
    }
  }

  /** Mapping a page grows the trees by it if it is given. */
  lemma LeafGrown(s: Vm, head: nat, r: nat, v: Vpn, w: nat, give: bool)
    requires Tree(s) && FreeList(s, head) && HasTable(s, r, v)
    requires 0 != w < WORDS && IsValid(w) && Admits(s, Leaf(r, v), w, give)
    ensures Grown(s, LeafSet(s, r, v, w, give), if give then map[Ppn(w) := Leaf(r, v)] else map[])
  {
    hide Tree, Word, FreeList, Store, Unmapped;
    LeafStep(s, head, r, v, w, give);
    PlacedZero(s);
    assert PageOf(s.m, Leaf(r, v)) == 0;
  }

  // ---------- mapping a range ----------

  /** n pages from v on are mapped to the pages from ppn on, and no other translation changed. */
  ghost predicate MapsRun(s: Vm, s': Vm, r: nat, v: nat, n: nat, ppn: nat, perm: nat)
  {
    && (n > 0 ==> v + n <= MAXVPN)
    && (forall q, u: Vpn :: q in s.roots ==>
          Lookup(s'.m, q, u) == if q == r && v <= u < v + n then MakePte(ppn + (u - v), perm) else Lookup(s.m, q, u))
  }

  /** The pages a caller gives with such a range. */
  function Gift(r: nat, v: nat, n: nat, ppn: nat, give: bool): (g: map<nat, Place>)
    requires n > 0 ==> v + n <= MAXVPN
    ensures forall p :: p in g <==> give && ppn <= p < ppn + n
    ensures forall p :: p in g ==> g[p] == Leaf(r, v + (p - ppn))
  {
    if !give || n == 0 then map[] else Gift(r, v, n - 1, ppn, give)[ppn + n - 1 := Leaf(r, v + n - 1)]
  }

  // ---------- unmapping ----------

  /** The pages that address space r owns in a range. */
  function LeavesIn(s: Vm, r: nat, v: nat, n: nat): set<nat>
  {
    set p | p in s.own && s.own[p].Leaf? && s.own[p].r == r && v <= s.own[p].v < v + n
  }

  /** n pages from v on are no longer mapped, and no other translation changed. */
  ghost predicate UnmapsRun(s: Vm, s': Vm, r: nat, v: nat, n: nat)
  {
    forall q, u: Vpn :: q in s.roots ==> Lookup(s'.m, q, u) == if q == r && v <= u < v + n then 0 else Lookup(s.m, q, u)
  }

  /** The trees lost the pages in gone, to the free list or to the caller, and nothing else. */
  ghost predicate Shrunk(s: Vm, s': Vm, gone: set<nat>, freed: bool)
  {
    && Tree(s') && s'.lo == s.lo && s'.roots == s.roots && |s'.m| == |s.m|
    && s'.own == s.own - gone && gone <= s.own.Keys
    && (forall p :: p in s'.free <==> p in s.free || (freed && p in gone))
    && (forall p: nat :: IsData(s, p) && p !in gone ==> Same(s.m, s'.m, p))
  }

  lemma ShrunkSelf(s: Vm, freed: bool)
    requires Tree(s)
    ensures Shrunk(s, s, {}, freed)
  {}

  /** Freed pages are conserved. */
  lemma ShrunkPages(s: Vm, s': Vm, gone: set<nat>, freed: bool)
    requires Shrunk(s, s', gone, freed)
    ensures Pages(s') == if freed then Pages(s) else Pages(s) - (gone - set p | p in s.free)
  {}
}
