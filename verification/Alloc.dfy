/** The storage allocator of ports/myos/libc.c: a ring of free blocks in address order, kept in
    the blocks themselves. */
module Alloc {

  datatype Option<+T> = None | Some(value: T)

  /** A unit of memory (union header): the two words that are a block's header when the unit is
      the first of a block, and the caller's data otherwise. Addresses count units. */
  datatype Cell = Cell(ptr: nat, size: nat)

  type Mem = seq<Cell>

  // ---------- the free list ----------

  function Succ(r: seq<nat>, i: nat): nat
    requires i < |r|
  {
    if i + 1 < |r| then r[i + 1] else r[0]
  }

  /** The headers hold the ring r: base at address 0 with size 0, then blocks in address order,
      each linked to the next and the last to base, no two overlapping. */
  ghost predicate Linked(m: Mem, r: seq<nat>)
  {
    && |r| >= 1 && r[0] == 0 && |m| > 0 && m[0].size == 0
    && forall i :: 0 <= i < |r| ==> LinkAt(m, r, i)
  }

  predicate LinkAt(m: Mem, r: seq<nat>, i: nat)
    requires i < |r|
  {
    && r[i] < |m| && m[r[i]].ptr == Succ(r, i)
    && (i > 0 ==> m[r[i]].size > 0)
    && (i + 1 < |r| ==> r[i] < r[i + 1] && r[i] + m[r[i]].size <= r[i + 1])
  }

  /** Block i does not touch the next one. */
  predicate Gap(m: Mem, r: seq<nat>, i: nat)
    requires i + 1 < |r|
  {
    r[i] < |m| && r[i] + m[r[i]].size < r[i + 1]
  }

  /** The free list as free and malloc leave it: no two free blocks touch. */
  ghost predicate Ring(m: Mem, r: seq<nat>)
  {
    Linked(m, r) && forall i :: 0 <= i < |r| - 1 ==> Gap(m, r, i)
  }

  lemma {:induction false} Ascending(m: Mem, r: seq<nat>, i: nat, j: nat)
    requires Linked(m, r) && i < j < |r|
    ensures LinkAt(m, r, i) && r[i] < r[j] && r[i] + m[r[i]].size <= r[j]
    decreases j - i
  {
    assert LinkAt(m, r, i) && LinkAt(m, r, j - 1);
    if i + 1 < j { Ascending(m, r, i, j - 1); }
  }

  /** A block of the partition: a live one, or a free one other than base. */
  predicate IsBlock(r: seq<nat>, live: set<nat>, b: nat)
  {
    b != 0 && (b in live || b in r)
  }

  ghost predicate Owns(m: Mem, own: map<nat, nat>, b: nat)
  {
    b < |m| && m[b].size > 0 && forall u :: b <= u < b + m[b].size ==> u in own && own[u] == b
  }

  predicate Inside(m: Mem, b: nat, u: nat)
  {
    b < |m| && b <= u < b + m[b].size && u < |m|
  }

  /** own gives every unit obtained from sbrk its block, a free or a live one, and every block
      all of its units: the blocks partition the units. */
  ghost predicate Owned(m: Mem, r: seq<nat>, live: set<nat>, own: map<nat, nat>)
  {
    && 0 !in live
    && (forall b :: b in live ==> b !in r)
    && (forall b :: IsBlock(r, live, b) ==> Owns(m, own, b))
    && (forall u :: u in own ==> IsBlock(r, live, own[u]) && Inside(m, own[u], u))
  }

  // ---------- free ----------

  /** What free writes, once its search has found the block p before bp. */
  function FreeMem(m: Mem, p: nat, bp: nat): Mem
    requires p < |m| && bp < |m| && m[p].ptr < |m|
  {
    var nx := m[p].ptr;
    var m1 := if bp + m[bp].size == nx
              then m[bp := Cell(m[nx].ptr, m[bp].size + m[nx].size)]
              else m[bp := Cell(nx, m[bp].size)];
    if p + m1[p].size == bp
    then m1[p := Cell(m1[bp].ptr, m1[p].size + m1[bp].size)]
    else m1[p := Cell(bp, m1[p].size)]
  }

  /** Put bp into the ring behind block k. */
  function InsertMem(m: Mem, r: seq<nat>, k: nat, bp: nat): Mem
    requires k < |r| && r[k] < |m| && bp < |m|
  {
    m[bp := Cell(m[r[k]].ptr, m[bp].size)][r[k] := Cell(bp, m[r[k]].size)]
  }

  function InsertRing(r: seq<nat>, k: nat, bp: nat): seq<nat>
    requires k < |r|
  {
    r[..k + 1] + [bp] + r[k + 1..]
  }

  /** Make blocks i and i + 1 one. */
  function JoinMem(m: Mem, r: seq<nat>, i: nat): Mem
    requires i + 1 < |r| && r[i] < |m| && r[i + 1] < |m|
  {
    m[r[i] := Cell(m[r[i + 1]].ptr, m[r[i]].size + m[r[i + 1]].size)]
  }

  function Without(r: seq<nat>, i: nat): seq<nat>
    requires i < |r|
  {
    r[..i] + r[i + 1..]
  }

  /** bp lies in the gap behind r[k]. */
  ghost predicate Fits(m: Mem, r: seq<nat>, k: nat, bp: nat)
  {
    && k < |r| && 0 < bp < |m| && m[bp].size > 0 && r[k] < |m|
    && r[k] + m[r[k]].size <= bp
    && (k + 1 < |r| ==> bp + m[bp].size <= r[k + 1])
  }

  lemma InsertApart(m: Mem, r: seq<nat>, k: nat, bp: nat, i: nat)
    requires Linked(m, r) && Fits(m, r, k, bp) && i < |r|
    ensures i <= k ==> r[i] <= r[k] < bp
    ensures i < k ==> r[i] < r[k]
    ensures i > k ==> r[i] > bp > r[k]
  {
    assert LinkAt(m, r, k);
    if i < k { Ascending(m, r, i, k); } else if k + 1 < i { Ascending(m, r, k + 1, i); }
  }

  lemma InsertLink(m: Mem, r: seq<nat>, k: nat, bp: nat, i: nat)
    requires Linked(m, r) && Fits(m, r, k, bp) && i <= |r|
    ensures LinkAt(InsertMem(m, r, k, bp), InsertRing(r, k, bp), i)
  {
    hide Linked;
    var m', r' := InsertMem(m, r, k, bp), InsertRing(r, k, bp);
    var o := if i <= k then i else i - 1;
    LinkOf(m, r, o);
    LinkOf(m, r, k);
    InsertApart(m, r, k, bp, o);
    if i < k {
      assert r'[i] == r[i] && r'[i + 1] == r[i + 1];
    } else if i == k {
      assert r'[i] == r[k] && r'[i + 1] == bp;
    } else if i == k + 1 {
      assert r'[i] == bp && (i < |r| ==> r'[i + 1] == r[i]);
    } else {
      assert r'[i] == r[o] && (i < |r| ==> r'[i + 1] == r[i]);
    }
  }

  lemma LinkOf(m: Mem, r: seq<nat>, i: nat)
    requires Linked(m, r) && i < |r|
    ensures LinkAt(m, r, i)
  {}

  lemma BaseOf(m: Mem, r: seq<nat>)
    requires Linked(m, r)
    ensures |r| >= 1 && r[0] == 0 && |m| > 0 && m[0].size == 0
  {}

  lemma InsertKeeps(m: Mem, r: seq<nat>, k: nat, bp: nat)
    requires Linked(m, r) && Fits(m, r, k, bp)
    ensures Linked(InsertMem(m, r, k, bp), InsertRing(r, k, bp))
    ensures forall i :: 0 <= i < k && Gap(m, r, i) ==> Gap(InsertMem(m, r, k, bp), InsertRing(r, k, bp), i)
    ensures forall i :: k < i < |r| - 1 && Gap(m, r, i) ==>
              Gap(InsertMem(m, r, k, bp), InsertRing(r, k, bp), i + 1)
  {
    var m', r' := InsertMem(m, r, k, bp), InsertRing(r, k, bp);
    forall i | 0 <= i < |r'| ensures LinkAt(m', r', i) { InsertLink(m, r, k, bp, i); }
    LinkOf(m, r, 0);
    InsertApart(m, r, k, bp, 0);
    forall i | 0 <= i < k && Gap(m, r, i) ensures Gap(m', r', i) {
      InsertApart(m, r, k, bp, i);
      assert r'[i] == r[i] && r'[i + 1] == r[i + 1];
    }
    forall i | k < i < |r| - 1 && Gap(m, r, i) ensures Gap(m', r', i + 1) {
      InsertApart(m, r, k, bp, i);
      assert r'[i + 1] == r[i] && r'[i + 2] == r[i + 1];
    }
  }

  lemma JoinLink(m: Mem, r: seq<nat>, i: nat, j: nat)
    requires Linked(m, r) && 0 < i && i + 1 < |r| && !Gap(m, r, i) && j < |r| - 1
    ensures r[i] < |m| && r[i + 1] < |m|
    ensures LinkAt(JoinMem(m, r, i), Without(r, i + 1), j)
    ensures j < i && Gap(m, r, j) ==> Gap(JoinMem(m, r, i), Without(r, i + 1), j)
    ensures j + 2 < |r| && i <= j && Gap(m, r, j + 1) ==> Gap(JoinMem(m, r, i), Without(r, i + 1), j)
  {
    hide Linked;
    LinkOf(m, r, i);
    LinkOf(m, r, i + 1);
    var m', r' := JoinMem(m, r, i), Without(r, i + 1);
    var o := if j <= i then j else j + 1;
    LinkOf(m, r, o);
    if j < i {
      Ascending(m, r, j, i);
      assert r'[j] == r[j] && r'[j + 1] == r[j + 1];
    } else if j == i {
      assert r'[j] == r[i] && (i + 2 < |r| ==> r'[j + 1] == r[i + 2]);
    } else {
      Ascending(m, r, i, o);
      assert r'[j] == r[o] && (o + 1 < |r| ==> r'[j + 1] == r[o + 1]);
    }
  }

  lemma JoinKeeps(m: Mem, r: seq<nat>, i: nat)
    requires Linked(m, r) && 0 < i && i + 1 < |r| && !Gap(m, r, i)
    ensures r[i] < |m| && r[i + 1] < |m| && Linked(JoinMem(m, r, i), Without(r, i + 1))
    ensures forall j :: 0 <= j < i && Gap(m, r, j) ==> Gap(JoinMem(m, r, i), Without(r, i + 1), j)
    ensures forall j :: i < j < |r| - 1 && Gap(m, r, j) ==>
              Gap(JoinMem(m, r, i), Without(r, i + 1), j - 1)
  {
    LinkOf(m, r, i);
    LinkOf(m, r, i + 1);
    LinkOf(m, r, 0);
    Ascending(m, r, 0, i);
    var m', r' := JoinMem(m, r, i), Without(r, i + 1);
    forall j | 0 <= j < |r'| ensures LinkAt(m', r', j) { JoinLink(m, r, i, j); }
    forall j | 0 <= j < i && Gap(m, r, j) ensures Gap(m', r', j) { JoinLink(m, r, i, j); }
    forall j | i < j < |r| - 1 && Gap(m, r, j) ensures Gap(m', r', j - 1) { JoinLink(m, r, i, j - 1); }
  }

  /** The block that the units of bp belong to after it was freed behind r[k]. */
  function FreeStart(m: Mem, r: seq<nat>, k: nat, bp: nat): nat
    requires k < |r| && r[k] < |m|
  {
    if r[k] + m[r[k]].size == bp then r[k] else bp
  }

  // The three steps of free, one after the other.

  function Joins(m: Mem, r: seq<nat>, i: nat): bool
  {
    i + 1 < |r| && r[i] < |m| && r[i + 1] < |m| && r[i] + m[r[i]].size == r[i + 1]
  }

  function TryJoin(m: Mem, r: seq<nat>, i: nat): (Mem, seq<nat>)
  {
    if Joins(m, r, i) then (JoinMem(m, r, i), Without(r, i + 1)) else (m, r)
  }

  /** The memory and the ring after bp has been freed into the gap behind r[k]. */
  function Freed(m: Mem, r: seq<nat>, k: nat, bp: nat): (Mem, seq<nat>)
    requires k < |r| && r[k] < |m| && bp < |m|
  {
    var (m2, r2) := TryJoin(InsertMem(m, r, k, bp), InsertRing(r, k, bp), k + 1);
    TryJoin(m2, r2, k)
  }

  lemma FreedKeepsRing(m: Mem, r: seq<nat>, k: nat, bp: nat)
    requires Ring(m, r) && Fits(m, r, k, bp)
    ensures Ring(Freed(m, r, k, bp).0, Freed(m, r, k, bp).1)
  {
    hide Linked, Gap, InsertMem, JoinMem;
    var m1, r1 := InsertMem(m, r, k, bp), InsertRing(r, k, bp);
    InsertKeeps(m, r, k, bp);
    var (m2, r2) := TryJoin(m1, r1, k + 1);
    GapOrJoins(m1, r1, k + 1);
    if Joins(m1, r1, k + 1) { JoinKeeps(m1, r1, k + 1); }
    assert Linked(m2, r2);
    forall i | 0 <= i < |r2| - 1 && i != k ensures Gap(m2, r2, i) {
      assert i < k ==> Gap(m, r, i) && Gap(m1, r1, i);
      if i > k + 1 || (i == k + 1 && !Joins(m1, r1, i)) {
        assert i > k + 1 ==> Gap(m, r, i - 1) && Gap(m1, r1, i);
      }
      if i > k && Joins(m1, r1, k + 1) {
        assert Gap(m, r, i) && Gap(m1, r1, i + 1) && Gap(m2, r2, i + 1 - 1);
      }
    }
    GapOrJoins(m2, r2, k);
    if Joins(m2, r2, k) {
      NotBase(m2, r2, k);
      JoinKeeps(m2, r2, k);
      var (m3, r3) := TryJoin(m2, r2, k);
      forall i | 0 <= i < |r3| - 1 ensures Gap(m3, r3, i) {
        if i >= k { assert Gap(m2, r2, i + 1) && Gap(m3, r3, i + 1 - 1); } else { assert Gap(m2, r2, i); }
      }
    }
  }

  lemma GapOrJoins(m: Mem, r: seq<nat>, i: nat)
    requires Linked(m, r)
    ensures i + 1 < |r| ==> Gap(m, r, i) == !Joins(m, r, i)
  {
    if i + 1 < |r| {
      LinkOf(m, r, i);
      LinkOf(m, r, i + 1);
    }
  }

  lemma NotBase(m: Mem, r: seq<nat>, i: nat)
    requires Linked(m, r) && Joins(m, r, i)
    ensures i > 0
  {
    LinkOf(m, r, i);
  }

  lemma FreeMemCells(m: Mem, p: nat, bp: nat, joined: Cell, last: Cell)
    requires p < |m| && bp < |m| && p != bp && m[p].ptr < |m|
    requires joined == if bp + m[bp].size == m[p].ptr
                       then Cell(m[m[p].ptr].ptr, m[bp].size + m[m[p].ptr].size)
                       else Cell(m[p].ptr, m[bp].size)
    requires last == if p + m[p].size == bp then Cell(joined.ptr, m[p].size + joined.size)
                     else Cell(bp, m[p].size)
    ensures FreeMem(m, p, bp) == m[bp := joined][p := last]
  {}

  /** free's two case distinctions write exactly what inserting and then joining writes. */
  lemma FreeMemIsFreed(m: Mem, r: seq<nat>, k: nat, bp: nat)
    requires Ring(m, r) && Fits(m, r, k, bp)
    ensures m[r[k]].ptr < |m| && FreeMem(m, r[k], bp) == Freed(m, r, k, bp).0
  {
    hide Linked;
    LinkOf(m, r, k);
    BaseOf(m, r);
    var m1, r1 := InsertMem(m, r, k, bp), InsertRing(r, k, bp);
    assert r1[k] == r[k] && r1[k + 1] == bp && (k + 1 < |r| ==> r1[k + 2] == r[k + 1]);
    if k + 1 < |r| {
      LinkOf(m, r, k + 1);
      InsertApart(m, r, k, bp, k + 1);
    }
    var p, nx := r[k], m[r[k]].ptr;
    var (m2, r2) := TryJoin(m1, r1, k + 1);
    assert r2[k] == p && r2[k + 1] == bp;
    var joined := if Joins(m1, r1, k + 1) then Cell(m[nx].ptr, m[bp].size + m[nx].size)
                  else Cell(nx, m[bp].size);
    assert m2 == m[bp := joined][p := Cell(bp, m[p].size)];
    var m3 := TryJoin(m2, r2, k).0;
    var last := if Joins(m2, r2, k) then Cell(joined.ptr, m[p].size + joined.size)
                else Cell(bp, m[p].size);
    assert m3 == m[bp := joined][p := last];
    assert Joins(m1, r1, k + 1) == (bp + m[bp].size == nx);
    assert Joins(m2, r2, k) == (p + m[p].size == bp);
    FreeMemCells(m, p, bp, joined, last);
  }

  // ---------- who owns a unit ----------

  function JoinOwn(own: map<nat, nat>, a: nat, b: nat): map<nat, nat>
  {
    map u | u in own :: if own[u] == a then b else own[u]
  }

  lemma InsertOwned(m: Mem, r: seq<nat>, k: nat, bp: nat, live: set<nat>, own: map<nat, nat>)
    requires Linked(m, r) && Fits(m, r, k, bp) && Owned(m, r, live, own) && bp in live
    ensures Owned(InsertMem(m, r, k, bp), InsertRing(r, k, bp), live - {bp}, own)
  {
    hide Linked;
    var m', r' := InsertMem(m, r, k, bp), InsertRing(r, k, bp);
    InRing(r, k, bp);
    forall b | IsBlock(r', live - {bp}, b) ensures Owns(m', own, b) { assert Owns(m, own, b); }
    forall u | u in own ensures IsBlock(r', live - {bp}, own[u]) && Inside(m', own[u], u) {
      assert Inside(m, own[u], u);
    }
  }

  lemma InRing(r: seq<nat>, k: nat, bp: nat)
    requires k < |r|
    ensures forall b :: b in InsertRing(r, k, bp) <==> b in r || b == bp
  {
    var r' := InsertRing(r, k, bp);
    assert r == r[..k + 1] + r[k + 1..];
  }

  lemma NotInRing(m: Mem, r: seq<nat>, i: nat)
    requires Linked(m, r) && i < |r|
    ensures forall b :: b in Without(r, i) <==> b in r && b != r[i]
  {
    var r' := Without(r, i);
    forall b ensures b in r' <==> b in r && b != r[i] {
      if b in r' {
        var j :| 0 <= j < |r'| && r'[j] == b;
        var o := if j < i then j else j + 1;
        assert r[o] == b;
        if o < i { Ascending(m, r, o, i); } else { Ascending(m, r, i, o); }
      }
      if b in r && b != r[i] {
        var o :| 0 <= o < |r| && r[o] == b;
        assert r'[if o < i then o else o - 1] == b;
      }
    }
  }

  lemma JoinOwns(m: Mem, own: map<nat, nat>, a: nat, b: nat, c: nat)
    requires Owns(m, own, a) && Owns(m, own, b) && Owns(m, own, c) && b + m[b].size == a && c != a
    ensures Owns(m[b := Cell(m[a].ptr, m[b].size + m[a].size)], JoinOwn(own, a, b), c)
  {
    var own' := JoinOwn(own, a, b);
    var size := if c == b then m[b].size + m[a].size else m[c].size;
    forall u | c <= u < c + size ensures u in own' && own'[u] == c {
      if c == b && a <= u { assert own[u] == a; } else { assert own[u] == c; }
    }
  }

  lemma JoinOwned(m: Mem, r: seq<nat>, i: nat, live: set<nat>, own: map<nat, nat>)
    requires Linked(m, r) && Joins(m, r, i) && Owned(m, r, live, own)
    ensures Owned(JoinMem(m, r, i), Without(r, i + 1), live, JoinOwn(own, r[i + 1], r[i]))
  {
    hide Linked, Without, Owns;
    NotBase(m, r, i);
    Ascending(m, r, 0, i);
    LinkOf(m, r, 0);
    var m', r', own' := JoinMem(m, r, i), Without(r, i + 1), JoinOwn(own, r[i + 1], r[i]);
    var a, b := r[i + 1], r[i];
    NotInRing(m, r, i + 1);
    LinkOf(m, r, i);
    LinkOf(m, r, i + 1);
    assert Owns(m, own, a) && Owns(m, own, b);
    assert IsBlock(r, live, a) && IsBlock(r, live, b);
    forall c | IsBlock(r', live, c) ensures Owns(m', own', c) {
      assert IsBlock(r, live, c);
      JoinOwns(m, own, a, b, c);
    }
    forall u | u in own' ensures IsBlock(r', live, own'[u]) && Inside(m', own'[u], u) {
      assert IsBlock(r, live, own[u]) && Inside(m, own[u], u);
    }
  }

  /** The block of every unit after free. */
  function FreedOwn(m: Mem, r: seq<nat>, k: nat, bp: nat, own: map<nat, nat>): map<nat, nat>
    requires k < |r| && r[k] < |m| && bp < |m|
  {
    var m1, r1 := InsertMem(m, r, k, bp), InsertRing(r, k, bp);
    var own2 := if Joins(m1, r1, k + 1) then JoinOwn(own, r1[k + 2], r1[k + 1]) else own;
    var (m2, r2) := TryJoin(m1, r1, k + 1);
    if Joins(m2, r2, k) then JoinOwn(own2, r2[k + 1], r2[k]) else own2
  }

  lemma FreedKeepsOwned(m: Mem, r: seq<nat>, k: nat, bp: nat, live: set<nat>, own: map<nat, nat>)
    requires Ring(m, r) && Fits(m, r, k, bp) && Owned(m, r, live, own) && bp in live
    ensures var (m', r') := Freed(m, r, k, bp);
            var own' := FreedOwn(m, r, k, bp, own);
            && Owned(m', r', live - {bp}, own') && own'.Keys == own.Keys
            && r'[k] == r[k] && k < |r'|
  {
    hide Linked, Owned, InsertMem, JoinMem;
    var m1, r1 := InsertMem(m, r, k, bp), InsertRing(r, k, bp);
    InsertKeeps(m, r, k, bp);
    InsertOwned(m, r, k, bp, live, own);
    var (m2, r2) := TryJoin(m1, r1, k + 1);
    if Joins(m1, r1, k + 1) {
      JoinOwned(m1, r1, k + 1, live - {bp}, own);
      JoinKeeps(m1, r1, k + 1);
    }
    if Joins(m2, r2, k) {
      var own2 := if Joins(m1, r1, k + 1) then JoinOwn(own, r1[k + 2], r1[k + 1]) else own;
      JoinOwned(m2, r2, k, live - {bp}, own2);
    }
  }

  // ---------- taking a block out ----------

  /** malloc takes free block j as it is. */
  function TakeMem(m: Mem, r: seq<nat>, j: nat): Mem
    requires 0 < j < |r| && r[j - 1] < |m| && r[j] < |m|
  {
    m[r[j - 1] := Cell(m[r[j]].ptr, m[r[j - 1]].size)]
  }

  lemma TakeLink(m: Mem, r: seq<nat>, j: nat, i: nat)
    requires Ring(m, r) && 0 < j < |r| && i < |r| - 1
    ensures r[j - 1] < |m| && r[j] < |m| && LinkAt(TakeMem(m, r, j), Without(r, j), i)
    ensures i + 1 < |r| - 1 ==> Gap(TakeMem(m, r, j), Without(r, j), i)
  {
    var o := if i < j then i else i + 1;
    GapOf(m, r, j - 1);
    LinkOf(m, r, j - 1);
    LinkOf(m, r, j);
    LinkOf(m, r, o);
    if o + 1 < |r| { GapOf(m, r, o); LinkOf(m, r, o + 1); }
    if j + 1 < |r| { GapOf(m, r, j); }
    if o < j - 1 { Ascending(m, r, o, j - 1); } else if o > j { Ascending(m, r, j - 1, o); }
    hide Linked, Ring;
    var m', r' := TakeMem(m, r, j), Without(r, j);
    if i < j - 1 {
      assert r'[i] == r[i] && r'[i + 1] == r[i + 1];
    } else if i == j - 1 {
      assert r'[i] == r[j - 1] && (j + 1 < |r| ==> r'[i + 1] == r[j + 1]);
      assert |r'| > 0 && r'[0] == r[0];
    } else {
      assert r'[i] == r[o] && (o + 1 < |r| ==> r'[i + 1] == r[o + 1]);
      assert |r'| > 0 && r'[0] == r[0];
    }
  }

  lemma GapOf(m: Mem, r: seq<nat>, i: nat)
    requires Ring(m, r) && i + 1 < |r|
    ensures Gap(m, r, i)
  {}

  lemma TakeKeeps(m: Mem, r: seq<nat>, j: nat, live: set<nat>, own: map<nat, nat>)
    requires Ring(m, r) && Owned(m, r, live, own) && 0 < j < |r|
    ensures r[j - 1] < |m| && r[j] < |m|
    ensures Ring(TakeMem(m, r, j), Without(r, j))
    ensures Owned(TakeMem(m, r, j), Without(r, j), live + {r[j]}, own)
    ensures r[j] !in live
  {
    BaseOf(m, r);
    LinkOf(m, r, j - 1);
    LinkOf(m, r, j);
    Ascending(m, r, 0, j);
    var m', r', live' := TakeMem(m, r, j), Without(r, j), live + {r[j]};
    forall i | 0 <= i < |r'| ensures LinkAt(m', r', i) { TakeLink(m, r, j, i); }
    forall i | 0 <= i < |r'| - 1 ensures Gap(m', r', i) { TakeLink(m, r, j, i); }
    assert r'[0] == 0;
    NotInRing(m, r, j);
    hide Linked, Ring, Without, LinkAt;
    forall b | IsBlock(r', live', b) ensures Owns(m', own, b) {
      assert IsBlock(r, live, b) && Owns(m, own, b);
    }
    forall u | u in own ensures IsBlock(r', live', own[u]) && Inside(m', own[u], u) {
      assert IsBlock(r, live, own[u]) && Inside(m, own[u], u);
    }
  }

  /** malloc takes the last n units of free block q, which keeps the rest. */
  function SplitMem(m: Mem, q: nat, n: nat): Mem
    requires q < |m| && 0 < n < m[q].size && q + m[q].size <= |m|
  {
    var h := q + m[q].size - n;
    m[q := Cell(m[q].ptr, m[q].size - n)][h := Cell(m[h].ptr, n)]
  }

  function SplitOwn(own: map<nat, nat>, h: nat, n: nat): map<nat, nat>
  {
    map u | u in own :: if h <= u < h + n then h else own[u]
  }

  lemma BlockFits(m: Mem, r: seq<nat>, live: set<nat>, own: map<nat, nat>, b: nat)
    requires Owned(m, r, live, own) && IsBlock(r, live, b)
    ensures b < |m| && b + m[b].size <= |m|
  {
    assert Owns(m, own, b);
    var u := b + m[b].size - 1;
    assert u in own && Inside(m, own[u], u);
  }

  lemma OwnsItself(m: Mem, r: seq<nat>, live: set<nat>, own: map<nat, nat>, b: nat)
    requires Owned(m, r, live, own)
    ensures IsBlock(r, live, b) ==> b in own && own[b] == b
  {}

  lemma SplitOwns(m: Mem, own: map<nat, nat>, q: nat, n: nat, b: nat)
    requires Owns(m, own, q) && 0 < n < m[q].size && q + m[q].size <= |m|
    requires b == q + m[q].size - n || Owns(m, own, b)
    ensures Owns(SplitMem(m, q, n), SplitOwn(own, q + m[q].size - n, n), b)
  {
    var m', h := SplitMem(m, q, n), q + m[q].size - n;
    var own' := SplitOwn(own, h, n);
    assert h in own && own[h] == q;
    assert b == h || (b in own && own[b] == b);
    forall u | b <= u < b + m'[b].size ensures u in own' && own'[u] == b {
      if b == h || b == q { assert u in own && own[u] == q; } else { assert own[u] == b; }
    }
  }

  lemma SplitKeeps(m: Mem, r: seq<nat>, j: nat, n: nat, live: set<nat>, own: map<nat, nat>)
    requires Ring(m, r) && Owned(m, r, live, own)
    requires 0 < j < |r| && r[j] < |m| && 0 < n < m[r[j]].size && r[j] + m[r[j]].size <= |m|
    ensures var h := r[j] + m[r[j]].size - n;
            && h !in live && h !in r && Ring(SplitMem(m, r[j], n), r)
            && Owned(SplitMem(m, r[j], n), r, live + {h}, SplitOwn(own, h, n))
  {
    BaseOf(m, r);
    LinkOf(m, r, j);
    Ascending(m, r, 0, j);
    var q := r[j];
    var h, m' := q + m[q].size - n, SplitMem(m, q, n);
    var own' := SplitOwn(own, h, n);
    assert IsBlock(r, live, q) && Owns(m, own, q);
    assert h in own && own[h] == q;
    OwnsItself(m, r, live, own, h);
    SplitKeepsRing(m, r, j, n);
    hide Owns, Linked, Ring, LinkAt;
    forall b | IsBlock(r, live + {h}, b) ensures Owns(m', own', b) {
      if b != h { assert IsBlock(r, live, b) && Owns(m, own, b); }
      SplitOwns(m, own, q, n, b);
    }
    forall u | u in own' ensures IsBlock(r, live + {h}, own'[u]) && Inside(m', own'[u], u) {
      assert IsBlock(r, live, own[u]) && Inside(m, own[u], u);
      if own[u] != q { assert Owns(m, own, q); }
    }
  }

  lemma SplitKeepsRing(m: Mem, r: seq<nat>, j: nat, n: nat)
    requires Ring(m, r)
    requires 0 < j < |r| && r[j] < |m| && 0 < n < m[r[j]].size && r[j] + m[r[j]].size <= |m|
    requires r[j] + m[r[j]].size - n !in r
    ensures Ring(SplitMem(m, r[j], n), r)
  {
    BaseOf(m, r);
    var m' := SplitMem(m, r[j], n);
    forall i | 0 <= i < |r| ensures LinkAt(m', r, i) && (i + 1 < |r| ==> Gap(m', r, i)) {
      LinkOf(m, r, i);
      LinkOf(m, r, j);
      if i < j { Ascending(m, r, i, j); } else if i > j { Ascending(m, r, j, i); }
      if i + 1 < |r| { GapOf(m, r, i); }
      hide Linked, Ring;
      assert r[i] in r;
    }
    Ascending(m, r, 0, j);
  }

  function Span(a: nat, n: nat): (r: set<nat>)
    ensures forall u :: u in r <==> a <= u < a + n
  {
    if n == 0 then {} else Span(a, n - 1) + {a + n - 1}
  }

  /** The block of every unit once n units at a have been obtained as one live block. */
  function GrowOwn(own: map<nat, nat>, a: nat, n: nat): (r: map<nat, nat>)
    ensures r.Keys == own.Keys + Span(a, n)
  {
    map u | u in own.Keys + Span(a, n) :: if u in own then own[u] else a
  }

  lemma GrowKeepsRing(m: Mem, r: seq<nat>, a: nat, n: nat, top: nat)
    requires Ring(m, r) && top <= a < |m| && forall i :: 0 <= i < |r| ==> r[i] < top
    ensures Ring(m[a := Cell(m[a].ptr, n)], r)
  {
    var m' := m[a := Cell(m[a].ptr, n)];
    BaseOf(m, r);
    forall i | 0 <= i < |r| ensures LinkAt(m', r, i) && (i + 1 < |r| ==> Gap(m', r, i)) {
      LinkOf(m, r, i);
      if i + 1 < |r| { GapOf(m, r, i); }
    }
  }

  lemma GrowKeepsOwned(m: Mem, r: seq<nat>, a: nat, n: nat, live: set<nat>, own: map<nat, nat>,
                       top: nat)
    requires Owned(m, r, live, own) && forall u :: u in own ==> u < top
    requires 0 < top <= a && 0 < n && a + n <= |m|
    ensures a !in live && (a !in r ==> Owned(m[a := Cell(m[a].ptr, n)], r, live + {a}, GrowOwn(own, a, n)))
  {
    var m', own' := m[a := Cell(m[a].ptr, n)], GrowOwn(own, a, n);
    OwnsItself(m, r, live, own, a);
    if a !in r {
      forall b | IsBlock(r, live + {a}, b) ensures Owns(m', own', b) {
        if b != a { GrowOwns(m, own, a, n, b, top); }
      }
      hide Owns;
      forall u | u in own' ensures IsBlock(r, live + {a}, own'[u]) && Inside(m', own'[u], u) {
        if u in own { assert IsBlock(r, live, own[u]) && Inside(m, own[u], u); }
      }
    }
  }

  lemma GrowOwns(m: Mem, own: map<nat, nat>, a: nat, n: nat, b: nat, top: nat)
    requires Owns(m, own, b) && a < |m| && b != a
    ensures Owns(m[a := Cell(m[a].ptr, n)], GrowOwn(own, a, n), b)
  {
    forall u | b <= u < b + m[b].size ensures u in GrowOwn(own, a, n) && GrowOwn(own, a, n)[u] == b {
      assert u in own && own[u] == b;
    }
  }
}
