/** A run of the page table operations (kernel/mm/vm.c) that shows what uvmcopy leaves behind. */
module PageCases {
  import opened PageTable
  import opened PageMap
  import opened PageRuns
  import opened PageOps

  /** Two pages to copy from o to n, and all tables for the copies. */
  ghost predicate Ready(s: Vm, o: nat, n: nat)
  {
    && Tree(s) && o in s.roots && n in s.roots && o != n
    && MapsAll(s, o, 0, 2) && Unused(s, n, 0, 2) && HasTables(s, n, 2)
  }

  lemma BothEmpty(s: Vm, s1: Vm, s2: Vm, o: nat, n: nat)
    requires NewSpaceMade(s, s1, o) && NewSpaceMade(s1, s2, n) && o in s1.roots
    ensures Unused(s2, o, 0, 2) && Unused(s2, n, 0, 2)
  {
    hide Word;
  }

  lemma FirstFilled(s: Vm, s1: Vm, o: nat, n: nat, given: map<nat, Place>)
    requires Filled(s, s1, o, 0, 2, given) && Unused(s, n, 0, 2) && n in s.roots && o != n
    ensures MapsAll(s1, o, 0, 2) && Unused(s1, n, 0, 2) && s1.roots == s.roots
  {
    hide Word, Tree;
    FilledZero(s, s1, o, 0, 2, given);
    FilledOwns(s, s1, o, 0, 2, given);
  }

  lemma SecondFilled(s: Vm, s1: Vm, o: nat, n: nat, given: map<nat, Place>)
    requires Filled(s, s1, n, 0, 2, given) && MapsAll(s, o, 0, 2) && o in s.roots && o != n
    ensures MapsAll(s1, o, 0, 2) && MapsAll(s1, n, 0, 2) && OwnsRange(s1, n, 0, 2)
    ensures HasTables(s1, n, 2) && s1.roots == s.roots
  {
    FilledZero(s, s1, n, 0, 2, given);
    FilledOwns(s, s1, n, 0, 2, given);
    forall u: Vpn | u < 2 ensures HasTable(s1, n, u) { assert Lookup(s1.m, n, u) != 0; }
    hide Word, Tree;
  }

  /** Unmapping leaves the tables. */
  lemma UnmappedReady(s: Vm, s1: Vm, o: nat, n: nat)
    requires Tree(s) && UnmappedSome(s, s1, n, 0, 2, true) && o in s.roots && n in s.roots && o != n
    requires MapsAll(s, o, 0, 2) && HasTables(s, n, 2)
    ensures Ready(s1, o, n) && (s.free != [] ==> s1.free != [])
  {
    ShrunkTree(s, s1, LeavesIn(s, n, 0, 2), true);
    hide Word, Tree, HasTable;
    assert TablesKept(s, s1);
    forall u: Vpn | u < 2 ensures HasTable(s1, n, u) { HasTableKept(s, s1, n, u); }
    if s.free != [] { assert s.free[0] in s1.free; }
  }

  lemma StillReady(s: Vm, s1: Vm, o: nat, n: nat)
    requires Ready(s, o, n) && Tree(s1) && s1.own == s.own && s1.roots == s.roots && SameLookups(s, s1)
    ensures Ready(s1, o, n)
  {
    hide Word, Tree, HasTable;
    forall u: Vpn | u < 2 ensures HasTable(s1, n, u) { HasTableKept(s, s1, n, u); }
  }

  lemma OtherPage(s: Vm, s1: Vm, p: nat, q: nat)
    requires InHand(s, p) && s.free != [] && q == s.free[0] && s1 == Popped(s)
    ensures InHand(s1, p) && SameLookups(s, s1)
  {
    hide Word;
  }

  /** With one free page uvmcopy fails at the second page. */
  lemma OneCopied(s: Vm, s1: Vm, o: nat, n: nat, k: nat, given: map<nat, Place>, failed: bool)
    requires Ready(s, o, n) && Copied(s, s1, o, n, k, given) && |s.free| == 1 && |s.free| == |s1.free| + |given|
    requires if failed then k < 2 && (s1.free == [] || !HasTable(s1, n, k)) else k == 2
    ensures failed && Lookup(s1.m, n, 0) != 0 == Lookup(s.m, n, 0)
  {
    hide Word, Tree, MakePte, HasTable, Copied;
    GivenPages(s, s1, o, n, k, given);
    assert Lookup(s.m, o, 0) != 0 && Lookup(s.m, o, 1) != 0;
    if failed {
      FailedTables(s, s1, o, n, k, given);
    }
  }

  /** The pages given are as many as the pages copied. */
  lemma GivenPages(s: Vm, s1: Vm, o: nat, n: nat, k: nat, given: map<nat, Place>)
    requires Copied(s, s1, o, n, k, given) && MapsAll(s, o, 0, 2)
    ensures k == 0 ==> given == map[]
    ensures k > 0 ==> Lookup(s1.m, n, 0) != 0
    ensures k > 1 ==> |given| > 1
  {
    hide Word, Tree, MakePte;
    forall p | p in given ensures given[p].Leaf? && given[p].v < k { assert CopyIn(s, s1, o, n, k, given[p], p); }
    assert Lookup(s.m, o, 0) != 0 && Lookup(s.m, o, 1) != 0;
    if k > 0 {
      assert CopiedAt(s, s1, given, o, n, 0);
      PteNotZero(Ppn(Lookup(s1.m, n, 0)), Flags(Lookup(s.m, o, 0)));
    }
    if k > 1 {
      assert CopiedAt(s, s1, given, o, n, 1);
      var p, q := Ppn(Lookup(s1.m, n, 0)), Ppn(Lookup(s1.m, n, 1));
      assert given[p] != given[q];
      assert |given.Keys - {p}| == |given| - 1 && q in given.Keys - {p};
    }
  }

  lemma FailedTables(s: Vm, s1: Vm, o: nat, n: nat, k: nat, given: map<nat, Place>)
    requires Ready(s, o, n) && Copied(s, s1, o, n, k, given) && k < 2
    ensures HasTable(s1, n, k)
  {
    hide Word, Tree, MakePte, HasTable;
    GrownRoots(s, s1, given);
    assert TablesKept(s, s1);
    HasTableKept(s, s1, n, k);
  }

  /** Two pages are mapped in one address space, and the other has tables for them, but there is only
      one free page: uvmcopy fails and leaves the other with the first page. */
  method LeftBehind() returns (vm: Paging, n: nat, res: Outcome, ghost before: Vm)
    ensures fresh(vm) && n in vm.roots && before.roots == vm.roots
    ensures res.Failed? && Lookup(vm.mem, n, 0) != 0 == Lookup(before.m, n, 0)
  {
    hide Word, Tree, FreeList, Load, Save, Filled, Copied, UnmappedSome, HasTables, MapsAll, Unused, OwnsRange, SameLookups, Grown, InHand, Pages, NewSpaceMade, Allocated, Ready, Lookup;
    vm := new Paging(1, seq(16, _ => ZeroPage));
    vm.Kinit();
    ghost var s0 := vm.S();
    var o := vm.NewSpace();
    ghost var s1 := vm.S();
    n := vm.NewSpace();
    BothEmpty(s0, s1, vm.S(), o, n);
    ghost var s2, given, sz := vm.S(), map[], 0;
    res, sz, given := vm.Uvmalloc(o, 0, 8192);
    FirstFilled(s2, vm.S(), o, n, given);
    ghost var s3 := vm.S();
    res, sz, given := vm.Uvmalloc(n, 0, 8192);
    SecondFilled(s3, vm.S(), o, n, given);
    ghost var s4 := vm.S();
    var ok := vm.Uvmunmap(n, 0, 2, true);
    UnmappedReady(s4, vm.S(), o, n);
    OneLeft(vm, o, n);
    before := vm.S();
    ghost var k;
    res, k, given := vm.Uvmcopy(o, n, 8192);
    NoClash(before, o, n);
    OneCopied(before, vm.S(), o, n, k, given, res.Failed?);
  }

  lemma NoClash(s: Vm, o: nat, n: nat)
    requires Ready(s, o, n)
    ensures !Clash(s, o, n, 2) && HasTables(s, n, 2)
  {
    hide Word, Tree;
  }

  /** All free pages but one are taken. */
  method OneLeft(vm: Paging, o: nat, n: nat)
    requires vm.Valid() && Ready(vm.S(), o, n) && vm.free != []
    modifies vm`mem, vm`freeMemList, vm`free
    ensures vm.Valid() && Ready(vm.S(), o, n) && |vm.free| == 1
  {
    hide Word, Tree, FreeList, Load, Save, SameLookups, InHand, Pages, Ready, Lookup;
    ghost var s := vm.S();
    var p := vm.Kalloc();
    PoppedReady(s, vm.S(), o, n);
    HandAt(vm.S(), p);
    while vm.freeMemList != 0
      invariant vm.Valid() && Ready(vm.S(), o, n) && InHand(vm.S(), p) && vm.lo <= p < |vm.mem|
      decreases |vm.free|
    {
      ghost var s1 := vm.S();
      SomeFree(s1, vm.freeMemList);
      var q := vm.Kalloc();
      PoppedReady(s1, vm.S(), o, n);
      OtherPage(s1, vm.S(), p, q);
    }
    ghost var s2 := vm.S();
    NoneFree(s2, vm.freeMemList);
    LinkIs(s2, vm.freeMemList);
    FreeKeeps(s2, vm.freeMemList, p);
    var freed := vm.Kfree(p);
    assert vm.S() == Freed(s2, p);
    StillReady(s2, vm.S(), o, n);
  }

  lemma HandAt(s: Vm, p: nat)
    requires InHand(s, p)
    ensures s.lo <= p < |s.m|
  {}

  lemma PoppedReady(s: Vm, s1: Vm, o: nat, n: nat)
    requires Ready(s, o, n) && s.free != [] && s1 == Popped(s) && Tree(s1)
    ensures Ready(s1, o, n)
  {
    hide Word, Tree, Ready;
    StillReady(s, s1, o, n);
  }
}
