/** malloc, free and realloc of ports/myos/libc.c on the memory they share with their callers. */
module AllocHeap {
  import opened Ints
  import opened Alloc

  const WORD := 0x1_0000_0000_0000_0000   // size_t wraps at 64 bits
  const HEADER := 16                      // sizeof(Header)

  /** The units malloc takes for a request, header included. */
  function Units(nbytes: nat): (n: nat)
    ensures n > 0
  {
    var b := if nbytes == 0 then 1 else nbytes;
    (b + HEADER - 1) % WORD / HEADER + 1
  }

  /** The block holds the bytes asked for if and only if the sum did not wrap; a request that
      wraps gets a block with no room at all. */
  lemma UnitsSuffice(nbytes: nat)
    requires nbytes < WORD
    ensures (Units(nbytes) - 1) * HEADER >= nbytes <==> nbytes <= WORD - HEADER
    ensures nbytes > WORD - HEADER ==> Units(nbytes) == 1
  {
    if nbytes > WORD - HEADER {
      assert (nbytes + HEADER - 1) % WORD == nbytes + HEADER - 1 - WORD;
    }
  }

  /** The units by which the break moves when morecore asks for n: the product wraps around at 64
      bits, and the kernel takes the increment of sbrk as an int. */
  function Increment(n: nat): int
  {
    Int32(n * HEADER % WORD) / HEADER
  }

  /** morecore gets the units it asks for if and only if they are fewer than 2^31 bytes. */
  lemma IncrementIsIff(n: nat)
    ensures Increment(n) == n <==> n * HEADER < 0x8000_0000
    ensures Increment(n) <= n && -0x800_0000 <= Increment(n) < 0x800_0000
  {
    assert n * HEADER % WORD == n * HEADER - 0x1_0000_0000 * (0x1_0000_0000 * (n * HEADER / WORD));
    Int32Laps(n * HEADER, 0x1_0000_0000 * (n * HEADER / WORD));
  }

  /** The units that are the process's own after sbrk moved the break, which was at a, by g. */
  function OwnAfter(own: map<nat, nat>, a: nat, g: int): map<nat, nat>
  {
    if g > 0 then GrowOwn(own, a, g)
    else if a + g < 0 then own
    else map u | u in own && u < a + g :: own[u]
  }

  /** With the block of n units that morecore links at the old break a, free and live blocks still
      partition the units if and only if the request was for fewer than 2^31 bytes. */
  lemma MorecoreKeepsIff(m: Mem, r: seq<nat>, a: nat, n: nat, live: set<nat>, own: map<nat, nat>, top: nat)
    requires Ring(m, r) && Owned(m, r, live, own) && forall u :: u in own ==> u < top
    requires 0 < top <= a < |m| && n > 0 && a + Increment(n) <= |m|
    ensures Owned(m[a := Cell(m[a].ptr, n)], r, live + {a}, OwnAfter(own, a, Increment(n))) <==>
            n * HEADER < 0x8000_0000
  {
    IncrementIsIff(n);
    var g := Increment(n);
    if g == n {
      GrowIsFine(m, r, a, n, live, own, top);
    } else {
      hide Int32, Increment, Ring;
      var m', own', live' := m[a := Cell(m[a].ptr, n)], OwnAfter(own, a, g), live + {a};
      UnitsOfBlock(m', r, live', own', a);
      assert a + (if g < 0 then 0 else g) !in own';
    }
  }

  lemma UnitsOfBlock(m: Mem, r: seq<nat>, live: set<nat>, own: map<nat, nat>, a: nat)
    requires a in live && a != 0 && a < |m|
    ensures Owned(m, r, live, own) ==> forall u :: a <= u < a + m[a].size ==> u in own
  {
    if Owned(m, r, live, own) { assert IsBlock(r, live, a) && Owns(m, own, a); }
  }

  /** malloc(2^32) gets one unit for a block of 2^28 + 1, and malloc(2^64 - 16) none at all. */
  lemma HugeRequests()
    ensures Units(0x1_0000_0000) == 0x1000_0001 && Increment(Chunk(Units(0x1_0000_0000))) == 1
    ensures Units(WORD - HEADER) == 0x1000_0000_0000_0000 && Increment(Chunk(Units(WORD - HEADER))) == 0
  {}

  /** The position in the ring of the c-th block the search of malloc looks at, from the one
      behind f on. */
  function At(f: nat, c: nat, len: nat): (i: nat)
    requires f < len && c < len
    ensures i < len
  {
    if f + 1 + c < len then f + 1 + c else f + 1 + c - len
  }

  function Next(i: nat, len: nat): (j: nat)
    requires i < len
    ensures j < len
  {
    if i + 1 < len then i + 1 else 0
  }

  lemma AtFirst(f: nat, len: nat)
    requires f < len
    ensures At(f, 0, len) == Next(f, len)
  {}

  lemma AtNext(f: nat, c: nat, len: nat)
    requires f < len && c < len && At(f, c, len) != f
    ensures c + 1 < len && At(f, c + 1, len) == Next(At(f, c, len), len)
  {}

  lemma AtLast(f: nat, c: nat, len: nat)
    requires f < len && c < len
    ensures At(f, c, len) == f <==> c == len - 1
  {}

  function Order(f: nat, i: nat, len: nat): (c: nat)
    requires f < len && i < len
    ensures c < len && At(f, c, len) == i
  {
    if i > f then i - f - 1 else i - f - 1 + len
  }

  /** The units of every live block but x are untouched, and still belong to it. */
  ghost predicate Kept(m: Mem, own: map<nat, nat>, live: set<nat>, m': Mem, own': map<nat, nat>, x: nat)
  {
    |m| == |m'| &&
    forall u :: u in own && own[u] in live && own[u] != x ==>
      u < |m| && m'[u] == m[u] && u in own' && own'[u] == own[u]
  }

  lemma KeptTwice(m: Mem, own: map<nat, nat>, live: set<nat>, m': Mem, own': map<nat, nat>,
                  live': set<nat>, m'': Mem, own'': map<nat, nat>, x: nat)
    requires Kept(m, own, live, m', own', 0) && Kept(m', own', live', m'', own'', x)
    requires live <= live' && x !in live && 0 !in live
    ensures Kept(m, own, live, m'', own'', 0)
  {}

  lemma BaseIsDead(m: Mem, r: seq<nat>, live: set<nat>, own: map<nat, nat>)
    requires Owned(m, r, live, own)
    ensures 0 !in live
  {}

  /** Every unit of block b is memory of its own. */
  ghost predicate Whole(m: Mem, own: map<nat, nat>, b: nat)
  {
    b < |m| && m[b].size > 0 && b + m[b].size <= |m| &&
    forall u :: b <= u < b + m[b].size ==> u in own && own[u] == b
  }

  function BodyCells(m: Mem, b: nat): seq<Cell>
  {
    if b < |m| && m[b].size > 0 && b + m[b].size <= |m| then m[b + 1..b + m[b].size] else []
  }

  lemma KeptBut(m: Mem, own: map<nat, nat>, live: set<nat>, m': Mem, own': map<nat, nat>, x: nat)
    requires Kept(m, own, live, m', own', 0) && 0 !in live
    ensures Kept(m, own, live, m', own', x)
  {}

  lemma KeptAll(m: Mem, own: map<nat, nat>, live: set<nat>, x: nat)
    requires forall u :: u in own ==> u < |m|
    ensures Kept(m, own, live, m, own, x)
  {}

  lemma KeptThrough(m: Mem, own: map<nat, nat>, live: set<nat>, m': Mem, own': map<nat, nat>,
                    live': set<nat>, m'': Mem, own'': map<nat, nat>, x: nat)
    requires Kept(m, own, live, m', own', x) && Kept(m', own', live', m'', own'', x) && live <= live'
    ensures Kept(m, own, live, m'', own'', x)
  {}

  /** A block that is kept keeps its contents. */
  lemma KeptBody(m: Mem, own: map<nat, nat>, live: set<nat>, m': Mem, own': map<nat, nat>, b: nat)
    requires Kept(m, own, live, m', own', 0) && b in live && b != 0
    requires Whole(m, own, b)
    ensures b < |m| == |m'| && m'[b] == m[b] && BodyCells(m', b) == BodyCells(m, b)
  {
    KeptOther(m, own, live, m', own', 0, b);
  }

  lemma KeptOther(m: Mem, own: map<nat, nat>, live: set<nat>, m': Mem, own': map<nat, nat>, x: nat,
                  b: nat)
    requires Kept(m, own, live, m', own', x) && b in live && b != x
    requires Whole(m, own, b)
    ensures b < |m| == |m'| && m'[b] == m[b] && BodyCells(m', b) == BodyCells(m, b)
  {
    assert forall u :: b <= u < b + m[b].size ==> own[u] == b && m'[u] == m[u];
  }

  /** Memory after n units have been copied from src to dst. */
  function Moved(m: Mem, dst: nat, src: nat, n: nat): (r: Mem)
    requires src + n <= |m|
    ensures |r| == |m|
  {
    seq(|m|, u requires 0 <= u < |m| => if dst <= u < dst + n then m[src + (u - dst)] else m[u])
  }

  lemma MovedNone(m: Mem, dst: nat, src: nat)
    requires src <= |m|
    ensures Moved(m, dst, src, 0) == m
  {}

  lemma MovedMore(m: Mem, own: map<nat, nat>, to: nat, from: nat, i: nat)
    requires Whole(m, own, to) && Whole(m, own, from) && to != from
    requires i + 1 < m[from].size <= m[to].size
    ensures to + 1 + i < |m| && from + 1 + i < |m|
    ensures to + 1 + i in own && own[to + 1 + i] == to
    ensures var m' := Moved(m, to + 1, from + 1, i);
            m'[to + 1 + i := m'[from + 1 + i]] == Moved(m, to + 1, from + 1, i + 1)
  {
    assert own[to + 1 + i] == to && own[from + 1 + i] == from;
  }

  lemma Copied(m: Mem, own: map<nat, nat>, live: set<nat>, to: nat, from: nat)
    requires Whole(m, own, to) && Whole(m, own, from) && m[from].size <= m[to].size
    requires forall u :: u in own ==> u < |m|
    ensures var m' := Moved(m, to + 1, from + 1, m[from].size - 1);
            && m'[to] == m[to] && BodyCells(m, from) <= BodyCells(m', to)
            && Kept(m, own, live - {to}, m', own, 0)
  {
    var n := m[from].size - 1;
    var m' := Moved(m, to + 1, from + 1, n);
    assert BodyCells(m', to)[..n] == BodyCells(m, from);
  }

  /** The units of a live block. */
  lemma BodyOf(m: Mem, r: seq<nat>, live: set<nat>, own: map<nat, nat>, b: nat)
    requires Owned(m, r, live, own) && b in live
    ensures b < |m| && m[b].size > 0 && b + m[b].size <= |m| && Whole(m, own, b)
  {
    assert IsBlock(r, live, b) && Owns(m, own, b);
    BlockFits(m, r, live, own, b);
  }

  lemma StoreIsFine(m: Mem, r: seq<nat>, live: set<nat>, own: map<nat, nat>, u: nat, c: Cell)
    requires Ring(m, r) && Owned(m, r, live, own) && u in own && own[u] in live && u != own[u]
    ensures u < |m| && Ring(m[u := c], r) && Owned(m[u := c], r, live, own)
  {
    var m' := m[u := c];
    BaseOf(m, r);
    OwnsItself(m, r, live, own, u);
    assert Inside(m, own[u], u);
    forall i | 0 <= i < |r| ensures LinkAt(m', r, i) && (i + 1 < |r| ==> Gap(m', r, i)) {
      LinkOf(m, r, i);
      assert r[i] in r;
      if i + 1 < |r| { GapOf(m, r, i); }
    }
    hide Ring, Linked;
    forall b | IsBlock(r, live, b) ensures Owns(m', own, b) { assert Owns(m, own, b); }
    forall v | v in own ensures IsBlock(r, live, own[v]) && Inside(m', own[v], v) {
      assert Inside(m, own[v], v);
    }
  }

  lemma KeptSame(m: Mem, m': Mem, own: map<nat, nat>, live: set<nat>, empty: bool)
    requires |m| == |m'| && if empty then own == map[] else m == m'
    requires forall u :: u in own ==> u < |m|
    ensures Kept(m, own, live, m', own, 0)
  {}

  class Heap {
    var mem: array<Cell>
    var freep: Option<nat>
    /** The address the program break has reached. */
    var top: nat
    ghost var ring: seq<nat>
    ghost var live: set<nat>
    ghost var own: map<nat, nat>

    ghost predicate Valid()
      reads this, mem
    {
      && 0 < top <= mem.Length
      && (forall u :: u in own ==> u < top)
      && if freep.None? then live == {} && own == map[]
         else
           && Ring(mem[..], ring) && Owned(mem[..], ring, live, own)
           && freep.value in ring
    }

    ghost function SizeOf(b: nat): nat
      reads this, mem
    {
      if b < mem.Length then mem[b].size else 0
    }

    constructor (units: nat)
      requires units > 0
      ensures Valid() && freep.None? && mem.Length == units && live == {} && own == map[]
    {
      mem := new Cell[units](_ => Cell(0, 0));
      freep := None;
      top := 1;
      ring, live, own := [], {}, map[];
    }

    /** sbrk for n units: the old break, which is behind the gap that others took in the meantime.
        The kernel moves it by what an int keeps of the bytes, back if that is negative. */
    method Sbrk(n: nat, gap: nat) returns (a: Option<nat>)
      modifies this`top
      ensures a.None? <==> old(top) + gap + Increment(n) > mem.Length
      ensures a.None? ==> top == old(top)
      ensures a.Some? ==> a.value == old(top) + gap
      ensures a.Some? ==> top == if a.value + Increment(n) < 0 then a.value else a.value + Increment(n)
    {
      var units := Increment(n);
      if top + gap + units > mem.Length {
        a := None;
      } else {
        a := Some(top + gap);
        top := if top + gap + units < 0 then top + gap else top + gap + units;
      }
    }

    /** The first use of the list: base alone. */
    method Init()
      requires Valid() && freep.None?
      modifies this`freep, this`ring, mem
      ensures Valid() && freep == Some(0) && ring == [0] && mem == old(mem)
    {
      mem[0] := Cell(0, 0);
      freep := Some(0);
      ring := [0];
    }

    /** The search of free: the block behind which bp belongs. */
    method FindPlace(bp: nat) returns (p: nat, ghost k: nat)
      requires Valid() && freep.Some? && bp in live
      ensures k < |ring| && ring[k] == p && Fits(mem[..], ring, k, bp)
    {
      ghost var m := mem[..];
      k := Place(m, ring, live, own, bp);
      ghost var len := |ring|;
      p := freep.value;
      ghost var i: nat :| i < len && ring[i] == p;
      LinkOf(m, ring, i);
      LinkOf(m, ring, k);
      PlaceAt(m, ring, k, bp, i);
      while !(bp > p && bp < mem[p].ptr)
        invariant i < len && ring[i] == p && p < mem.Length
        invariant mem[p].ptr == Succ(ring, i)
        invariant Between(ring, k, bp, i)
        decreases if i <= k then k - i else k + len - i
      {
        if p >= mem[p].ptr && (bp > p || bp < mem[p].ptr) {
          break;
        }
        p := mem[p].ptr;
        i := if i + 1 < len then i + 1 else 0;
        LinkOf(m, ring, i);
        PlaceAt(m, ring, k, bp, i);
      }
    }

    /** The end of free: put bp behind p, and join it with its neighbours where they touch. */
    method Link(p: nat, bp: nat)
      requires p < mem.Length && bp < mem.Length && mem[p].ptr < mem.Length && p != bp
      modifies mem
      ensures mem[..] == FreeMem(old(mem[..]), p, bp)
    {
      var nx := mem[p].ptr;
      if bp + mem[bp].size == nx {
        mem[bp] := Cell(mem[nx].ptr, mem[bp].size + mem[nx].size);
      } else {
        mem[bp] := Cell(nx, mem[bp].size);
      }
      if p + mem[p].size == bp {
        mem[p] := Cell(mem[bp].ptr, mem[p].size + mem[bp].size);
      } else {
        mem[p] := Cell(bp, mem[p].size);
      }
    }

    /** The body of free, for a block bp. */
    method FreeBlock(bp: nat)
      requires Valid() && bp in live
      modifies this`freep, this`ring, this`live, this`own, mem
      ensures Valid() && freep.Some? && own.Keys == old(own.Keys) && live == old(live) - {bp}
      ensures Kept(old(mem[..]), old(own), old(live), mem[..], own, bp)
      ensures BlockAt(bp, old(SizeOf(bp)))
    {
      hide Ring, Owned, FreeMem, Freed, FreedOwn;
      ghost var m, n := mem[..], SizeOf(bp);
      var p, k := FindPlace(bp);
      FreedIsFree(m, ring, k, bp, live, own);
      Link(p, bp);
      ghost var m' := mem[..];
      freep := Some(p);
      assert n == m[bp].size;
      ring, own, live := Freed(m, ring, k, bp).1, FreedOwn(m, ring, k, bp, own), live - {bp};
      assert BlockAt(bp, n) by { assert m'[own[bp]] == mem[own[bp]]; }
      assert Kept(old(mem[..]), old(own), old(live), mem[..], own, bp) by {
        forall u | u in old(own) && old(own[u]) in old(live) && old(own[u]) != bp
          ensures u < mem.Length && mem[u] == old(mem[u]) && u in own && own[u] == old(own[u])
        {
          assert mem[u] == m'[u] && m[u] == old(mem[u]);
        }
      }
    }

    /** free; ptr is the address behind the header, 0 for a null pointer. */
    method Free(ptr: nat)
      requires Valid() && (ptr > 0 ==> ptr - 1 in live)
      modifies this`freep, this`ring, this`live, this`own, mem
      ensures Valid() && own.Keys == old(own.Keys)
      ensures live == if ptr == 0 then old(live) else old(live) - {ptr - 1}
      ensures ptr == 0 ==> ring == old(ring) && own == old(own) && mem[..] == old(mem[..])
      ensures ptr > 0 ==> freep.Some? && BlockAt(ptr - 1, old(SizeOf(ptr - 1)))
      ensures Kept(old(mem[..]), old(own), old(live), mem[..], own, if ptr > 0 then ptr - 1 else 0)
    {
      if ptr == 0 {
        return;
      }
      if freep.None? {
        assert false;   // nothing is live before the list is set up
      }
      FreeBlock(ptr - 1);
    }

    /** sbrk has no more for a chunk of n units. */
    ghost predicate Exhausted(n: nat, gap: nat)
      reads this
    {
      top + gap + Increment(Chunk(n)) > mem.Length
    }

    /** morecore: a new block of at least n units joins the list. ok is false when it links more
        units, or fewer, than sbrk has given it; the model ends there (MorecoreKeepsIff). */
    method Morecore(n: nat, gap: nat) returns (ok: bool, p: Option<nat>, ghost a: nat)
      requires Valid() && freep.Some? && n > 0
      modifies this`freep, this`ring, this`live, this`own, this`top, mem
      ensures ok <==> old(Exhausted(n, gap)) || Chunk(n) * HEADER < 0x8000_0000
      ensures ok ==> Valid() && freep.Some? && live == old(live)
      ensures ok ==> (p.None? <==> old(Exhausted(n, gap)))
      ensures ok && p.None? ==> freep == old(freep) && ring == old(ring) && own == old(own) &&
                                mem[..] == old(mem[..])
      ensures ok && p.Some? ==> p == freep && own.Keys == old(own.Keys) + Span(a, Chunk(n)) &&
                                old(top) <= a && BlockAt(a, Chunk(n))
      ensures ok ==> Kept(old(mem[..]), old(own), old(live), mem[..], own, 0)
    {
      hide Ring, Owned, Increment;
      IncrementIsIff(Chunk(n));
      var at := Sbrk(Chunk(n), gap);
      if at.None? {
        return true, None, 0;
      }
      if Increment(Chunk(n)) != Chunk(n) {
        return false, None, 0;
      }
      ok, p, a := LinkFresh(at.value, Chunk(n), old(top));
    }

    /** The end of morecore: the units from up on become one free block. */
    method LinkFresh(up: nat, n: nat, ghost top0: nat) returns (ok: bool, p: Option<nat>, ghost a: nat)
      requires 0 < top0 <= up && 0 < n && up + n == top <= mem.Length && forall u :: u in own ==> u < top0
      requires freep.Some? && Ring(mem[..], ring) && Owned(mem[..], ring, live, own) && freep.value in ring
      modifies this`freep, this`ring, this`live, this`own, mem
      ensures ok && a == up && Valid() && freep.Some? && live == old(live)
      ensures p.Some? && p == freep && own.Keys == old(own.Keys) + Span(a, n) && BlockAt(a, n)
      ensures Kept(old(mem[..]), old(own), old(live), mem[..], own, 0)
    {
      hide Ring, Owned;
      ok, a := true, up;
      GrowIsFine(mem[..], ring, up, n, live, own, top0);
      mem[up] := Cell(mem[up].ptr, n);
      assert mem[..] == old(mem[..])[up := Cell(old(mem[..])[up].ptr, n)];
      live, own := live + {up}, GrowOwn(own, up, n);
      label grown:
      ghost var before, m := own, mem[..];
      FreeBlock(up);
      p := freep;
      assert Kept(old(mem[..]), old(own), old(live), mem[..], own, 0) by {
        forall u | u in old(own) && old(own[u]) in old(live)
          ensures u < mem.Length && mem[u] == old(mem[u]) && u in own && own[u] == old(own[u])
        {
          assert u in before && before[u] in old@grown(live) && before[u] != up;
          assert m[u] == old(mem[u]) && old@grown(mem[u]) == m[u];
        }
      }
    }

    /** malloc's way out: take n units of free block j, p, which follows prevp in the ring. */
    method Take(prevp: nat, p: nat, n: nat, ghost j: nat) returns (ptr: nat)
      requires Valid() && freep.Some? && 0 < j < |ring| && ring[j] == p && ring[j - 1] == prevp
      requires n > 0 && SizeOf(p) >= n
      modifies this`freep, this`ring, this`live, this`own, mem
      ensures Valid() && freep.Some? && own.Keys == old(own.Keys)
      ensures Kept(old(mem[..]), old(own), old(live), mem[..], own, 0)
      ensures ptr > 0 && ptr - 1 !in old(live) && live == old(live) + {ptr - 1} && SizeOf(ptr - 1) == n
    {
      hide Ring, Owned;
      ghost var m := mem[..];
      TakeIsFine(m, ring, j, n, live, own);
      if mem[p].size == n {
        mem[prevp] := Cell(mem[p].ptr, mem[prevp].size);
        assert mem[..] == TakeMem(m, ring, j);
        ring, live := Without(ring, j), live + {p};
        freep := Some(prevp);
        ptr := p + 1;
      } else {
        var h := p + (mem[p].size - n);
        mem[p] := Cell(mem[p].ptr, mem[p].size - n);
        mem[h] := Cell(mem[h].ptr, n);
        assert mem[..] == SplitMem(m, p, n);
        live, own := live + {h}, SplitOwn(own, h, n);
        freep := Some(prevp);
        ptr := h + 1;
      }
    }

    ghost predicate NoneFits(n: nat)
      reads this, mem
    {
      forall i :: 0 <= i < |ring| ==> SizeOf(ring[i]) < n
    }

    /** One round of the loop of malloc: from the block behind freep to freep itself. */
    method FindFit(n: nat) returns (found: bool, prevp: nat, p: nat, ghost j: nat)
      requires Valid() && freep.Some? && n > 0
      ensures found <==> !NoneFits(n)
      ensures found ==> 0 < j < |ring| && ring[j] == p && ring[j - 1] == prevp && SizeOf(p) >= n
    {
      hide Ring, Owned, Linked, Seen, At;
      prevp := freep.value;
      ghost var f: nat := IndexOf(ring, prevp);
      ghost var i: nat, c: nat := f, 0;
      j := At(f, 0, |ring|);
      AtFirst(f, |ring|);
      SeenNone(f, n);
      LinkOfRing(mem[..], ring, f);
      p := mem[prevp].ptr;
      while mem[p].size < n
        invariant f < |ring| && ring[f] == freep.value && c < |ring| && j == At(f, c, |ring|)
        invariant i < |ring| && j == Next(i, |ring|) && ring[i] == prevp
        invariant ring[j] == p && p < mem.Length
        invariant Seen(f, c, n)
        decreases |ring| - c
      {
        SeenMore(f, c, n);
        AtLast(f, c, |ring|);
        if p == freep.value {
          SameBlock(mem[..], ring, j, f);
          AllSeen(f, n);
          return false, prevp, p, j;
        }
        AtNext(f, c, |ring|);
        LinkOfRing(mem[..], ring, j);
        c, i, j := c + 1, j, At(f, c + 1, |ring|);
        prevp := p;
        p := mem[p].ptr;
      }
      BaseOfRing(mem[..], ring);
      found := true;
    }

    /** No free block holds a request. */
    ghost predicate NothingFor(nbytes: nat)
      reads this, mem
    {
      freep.Some? ==> NoneFits(Units(nbytes))
    }

    /** malloc has to fail. */
    ghost predicate NoRoom(nbytes: nat, gap: nat)
      reads this, mem
    {
      NothingFor(nbytes) && Exhausted(Units(nbytes), gap)
    }

    /** malloc comes to link units that are not its own. */
    ghost predicate Corrupts(nbytes: nat, gap: nat)
      reads this, mem
    {
      NothingFor(nbytes) && !Exhausted(Units(nbytes), gap) && Chunk(Units(nbytes)) * HEADER >= 0x8000_0000
    }

    /** malloc. gap is how far others moved the break since the last time; ptr is the address
        behind the header, 0 for a null pointer. When a round of the loop finds nothing and
        morecore returns freep, the loop starts on a second round from there, which always finds
        a block: no request calls morecore twice. ok is false when morecore breaks the heap. */
    method Malloc(nbytes: nat, gap: nat) returns (ok: bool, ptr: nat, ghost grown: bool, ghost a: nat)
      requires Valid() && nbytes < WORD
      modifies this`freep, this`ring, this`live, this`own, this`top, mem
      ensures ok <==> !old(Corrupts(nbytes, gap))
      ensures ok ==> Valid() && freep.Some? && Kept(old(mem[..]), old(own), old(live), mem[..], own, 0)
      ensures ok ==> (ptr == 0 <==> old(NoRoom(nbytes, gap)))
      ensures ok && ptr == 0 ==> live == old(live)
      ensures ok && ptr > 0 ==> ptr - 1 !in old(live) && live == old(live) + {ptr - 1} &&
                                SizeOf(ptr - 1) == Units(nbytes)
      ensures ok ==> (grown <==> ptr > 0 && old(NothingFor(nbytes)))
      ensures ok && grown ==> old(top) <= a && own.Keys == old(own.Keys) + Span(a, Chunk(Units(nbytes)))
      ensures ok && !grown ==> own.Keys == old(own.Keys)
    {
      hide Ring, Owned, Kept, Linked, Increment;
      var n := Units(nbytes);
      ok, grown, a := true, false, 0;
      if freep.None? {
        Init();
      }
      KeptSame(old(mem[..]), mem[..], own, live, old(freep).None?);
      var found, prevp, p;
      ghost var j;
      found, prevp, p, j := FindFit(n);
      if !found {
        ghost var m, own0 := mem[..], own;
        BaseIsDead(m, ring, live, own);
        var q;
        ok, q, a := Morecore(n, gap);
        if !ok || q.None? {
          return ok, 0, false, 0;
        }
        KeptTwice(old(mem[..]), old(own), old(live), m, own0, old(live), mem[..], own, 0);
        grown := true;
        assert !NoneFits(n) by { assert SizeOf(ring[IndexOf(ring, own[a])]) >= n; }
        found, prevp, p, j := FindFit(n);
      }
      ghost var m, own0 := mem[..], own;
      BaseIsDead(m, ring, live, own);
      ptr := Take(prevp, p, n, j);
      KeptTwice(old(mem[..]), old(own), old(live), m, own0, old(live), mem[..], own, 0);
    }

    /** A caller writes one unit of its own block, behind the header. */
    method Store(u: nat, c: Cell)
      requires Valid() && u in own && own[u] in live && u != own[u]
      modifies mem
      ensures Valid() && u < mem.Length && mem[..] == old(mem[..])[u := c]
    {
      hide Ring, Owned;
      StoreIsFine(mem[..], ring, live, own, u, c);
      ghost var m := mem[..];
      mem[u] := c;
      assert mem[..] == m[u := c];
    }

    /** What the caller of block b has stored in it. */
    ghost function Body(b: nat): seq<Cell>
      reads this, mem
    {
      BodyCells(mem[..], b)
    }

    /** memcpy of the body of block from into the larger block to. */
    method Copy(to: nat, from: nat)
      requires Valid() && to in live && from in live && to != from
      requires SizeOf(from) <= SizeOf(to)
      modifies mem
      ensures Valid() && SizeOf(to) == old(SizeOf(to))
      ensures old(Body(from)) <= Body(to)
      ensures Kept(old(mem[..]), own, old(live) - {to}, mem[..], own, 0)
    {
      hide Ring, Owned, Kept, Whole, Moved;
      ghost var m := mem[..];
      BodyOf(m, ring, live, own, from);
      BodyOf(m, ring, live, own, to);
      var n := mem[from].size - 1;
      MovedNone(m, to + 1, from + 1);
      for i := 0 to n
        invariant Valid() && mem[..] == Moved(m, to + 1, from + 1, i)
      {
        MovedMore(m, own, to, from, i);
        assert mem[from + 1 + i] == mem[..][from + 1 + i];
        Store(to + 1 + i, mem[from + 1 + i]);
      }
      Copied(m, own, live, to, from);
    }

    /** The new block of realloc is smaller than the old one: the sum in malloc wrapped around. */
    ghost predicate Overruns(b: nat, nbytes: nat, gap: nat)
      reads this, mem
    {
      !NoRoom(nbytes, gap) && nbytes > WORD - HEADER && SizeOf(b) > 1
    }

    /** The middle of realloc: a new block, and the old contents in it. ok is false when malloc
        breaks the heap, or the copy would. */
    method Fetch(b: nat, nbytes: nat, gap: nat) returns (ok: bool, res: nat)
      requires Valid() && b in live && nbytes < WORD && (SizeOf(b) - 1) * HEADER < nbytes
      modifies this`freep, this`ring, this`live, this`own, this`top, mem
      ensures ok <==> !old(Corrupts(nbytes, gap)) && !old(Overruns(b, nbytes, gap))
      ensures ok ==> Valid() && freep.Some? && Kept(old(mem[..]), old(own), old(live), mem[..], own, 0)
      ensures ok ==> (res == 0 <==> old(NoRoom(nbytes, gap)))
      ensures ok && res == 0 ==> live == old(live)
      ensures ok && res > 0 ==> res - 1 !in old(live) && live == old(live) + {res - 1}
      ensures ok && res > 0 ==> old(Body(b)) <= Body(res - 1) && SizeOf(res - 1) == Units(nbytes)
    {
      hide Ring, Owned, Kept, Whole, BodyCells, NoRoom, Corrupts;
      UnitsSuffice(nbytes);
      ghost var m0, own0, live0 := mem[..], own, live;
      BodyOf(m0, ring, live, own, b);
      BaseIsDead(m0, ring, live, own);
      var size := mem[b].size;
      ghost var grown, a;
      ok, res, grown, a := Malloc(nbytes, gap);
      if ok && res > 0 {
        ghost var m1, own1 := mem[..], own;
        KeptBody(m0, own0, live0, m1, own1, b);
        BodyOf(m1, ring, live, own, res - 1);
        if mem[res - 1].size < size {
          return false, 0;
        }
        assert live - {res - 1} == live0;
        Copy(res - 1, b);
        KeptTwice(m0, own0, live0, m1, own1, live0, mem[..], own1, 0);
      }
    }

    /** The end of realloc: a new block, the old contents, and the old block given back. */
    method Move(b: nat, nbytes: nat, gap: nat) returns (ok: bool, res: nat)
      requires Valid() && b in live && nbytes < WORD && (SizeOf(b) - 1) * HEADER < nbytes
      modifies this`freep, this`ring, this`live, this`own, this`top, mem
      ensures ok <==> !old(Corrupts(nbytes, gap)) && !old(Overruns(b, nbytes, gap))
      ensures ok ==> Valid() && Kept(old(mem[..]), old(own), old(live), mem[..], own, b)
      ensures ok ==> (res == 0 <==> old(NoRoom(nbytes, gap)))
      ensures ok && res == 0 ==> live == old(live)
      ensures ok && res > 0 ==> res - 1 !in old(live) && live == old(live) - {b} + {res - 1}
      ensures ok && res > 0 ==> old(Body(b)) <= Body(res - 1) && SizeOf(res - 1) == Units(nbytes)
    {
      hide Ring, Owned, Kept, Whole, BodyCells, NoRoom, Corrupts, Overruns;
      ghost var m0, own0, live0 := mem[..], own, live;
      BaseIsDead(m0, ring, live, own);
      ok, res := Fetch(b, nbytes, gap);
      if !ok {
        return;
      }
      ghost var m, own1, live1 := mem[..], own, live;
      KeptBut(m0, own0, live0, m, own1, b);
      if res > 0 {
        BodyOf(m, ring, live, own, res - 1);
        FreeBlock(b);
        KeptThrough(m0, own0, live0, m, own1, live1, mem[..], own, b);
        KeptOther(m, own1, live1, mem[..], own, b, res - 1);
      }
    }

    /** realloc has to find a new block. */
    ghost predicate Moves(ptr: nat, nbytes: nat)
      reads this, mem
    {
      ptr == 0 || (nbytes > 0 && (SizeOf(ptr - 1) - 1) * HEADER < nbytes)
    }

    /** realloc. ok is false when the heap is broken on the way, by malloc or by the copy. */
    method Realloc(ptr: nat, nbytes: nat, gap: nat) returns (ok: bool, res: nat)
      requires Valid() && (ptr > 0 ==> ptr - 1 in live) && nbytes < WORD
      modifies this`freep, this`ring, this`live, this`own, this`top, mem
      ensures ok <==> (old(Moves(ptr, nbytes)) ==> !old(Corrupts(nbytes, gap)) &&
                                                   !(ptr > 0 && old(Overruns(ptr - 1, nbytes, gap))))
      ensures ok ==> Valid()
      ensures ok ==> Kept(old(mem[..]), old(own), old(live), mem[..], own, if ptr > 0 then ptr - 1 else 0)
      ensures ok ==> (res == 0 <==> (ptr > 0 && nbytes == 0) || (old(Moves(ptr, nbytes)) && old(NoRoom(nbytes, gap))))
      ensures ok && ptr > 0 && nbytes == 0 ==> live == old(live) - {ptr - 1}
      ensures ok && res == 0 && (ptr == 0 || nbytes > 0) ==> live == old(live)
      ensures ok && res > 0 && nbytes <= WORD - HEADER ==> (SizeOf(res - 1) - 1) * HEADER >= nbytes
      ensures ok && res > 0 && ptr == 0 ==> res - 1 !in old(live) && live == old(live) + {res - 1}
      ensures ok && res > 0 && ptr > 0 ==>
                && (if old(Moves(ptr, nbytes)) then res - 1 !in old(live) else res == ptr)
                && live == old(live) - {ptr - 1} + {res - 1} && old(Body(ptr - 1)) <= Body(res - 1)
    {
      hide Ring, Owned, Kept, NoRoom, Corrupts, Overruns;
      UnitsSuffice(nbytes);
      if ptr == 0 {
        ghost var grown, a;
        ok, res, grown, a := Malloc(nbytes, gap);
        return;
      }
      if nbytes == 0 {
        Free(ptr);
        return true, 0;
      }
      BodyOfValid(ptr - 1);
      var oldBytes := (mem[ptr - 1].size - 1) * HEADER;
      if oldBytes >= nbytes {
        KeptAll(mem[..], own, live, ptr - 1);
        assert live == live - {ptr - 1} + {ptr - 1};
        return true, ptr;
      }
      ok, res := Move(ptr - 1, nbytes, gap);
    }

    lemma BodyOfValid(b: nat)
      requires Valid() && b in live
      ensures b < mem.Length && mem[b].size > 0
    {
      BodyOf(mem[..], ring, live, own, b);
    }

    /** The blocks the search has looked at are too small. */
    ghost predicate Seen(f: nat, c: nat, n: nat)
      reads this, mem
    {
      f < |ring| && c <= |ring| && forall d :: 0 <= d < c ==> SizeOf(ring[At(f, d, |ring|)]) < n
    }

    lemma SeenNone(f: nat, n: nat)
      requires f < |ring|
      ensures Seen(f, 0, n)
    {}

    lemma SeenMore(f: nat, c: nat, n: nat)
      requires Seen(f, c, n) && c < |ring| && SizeOf(ring[At(f, c, |ring|)]) < n
      ensures Seen(f, c + 1, n)
    {}

    /** Once the search has come round, no block is large enough. */
    lemma AllSeen(f: nat, n: nat)
      requires Seen(f, |ring|, n)
      ensures NoneFits(n)
    {
      forall i | 0 <= i < |ring| ensures SizeOf(ring[i]) < n {
        var d := Order(f, i, |ring|);
        assert i == At(f, d, |ring|);
      }
    }

    /** The unit u is part of a free block of at least n units. */
    ghost predicate BlockAt(u: nat, n: nat)
      reads this, mem
    {
      u in own && own[u] in ring && own[u] < mem.Length && mem[own[u]].size >= n
    }
  }

  /** The units morecore asks for. */
  function Chunk(n: nat): nat
  {
    if n < 1024 then 1024 else n
  }

  /** Fresh units behind all others may become a live block. */
  lemma GrowIsFine(m: Mem, r: seq<nat>, a: nat, n: nat, live: set<nat>, own: map<nat, nat>, top: nat)
    requires Ring(m, r) && Owned(m, r, live, own) && forall u :: u in own ==> u < top
    requires 0 < top <= a && 0 < n && a + n <= |m|
    ensures var m' := m[a := Cell(m[a].ptr, n)];
            && Ring(m', r) && a !in live && a !in own && Owned(m', r, live + {a}, GrowOwn(own, a, n))
  {
    BaseOf(m, r);
    forall i | 0 <= i < |r| ensures r[i] < top {
      if i > 0 {
        Ascending(m, r, 0, i);
        OwnsItself(m, r, live, own, r[i]);
      }
    }
    GrowKeepsRing(m, r, a, n, top);
    GrowKeepsOwned(m, r, a, n, live, own, top);
  }

  ghost function IndexOf(r: seq<nat>, p: nat): (i: nat)
    requires p in r
    ensures i < |r| && r[i] == p
  {
    var i: nat :| i < |r| && r[i] == p;
    i
  }

  lemma LinkOfRing(m: Mem, r: seq<nat>, i: nat)
    requires Ring(m, r) && i < |r|
    ensures LinkAt(m, r, i) && Succ(r, i) < |m|
  {
    LinkOf(m, r, i);
    LinkOf(m, r, if i + 1 < |r| then i + 1 else 0);
  }

  lemma BaseOfRing(m: Mem, r: seq<nat>)
    requires Ring(m, r)
    ensures |r| >= 1 && r[0] == 0 && |m| > 0 && m[0].size == 0
  {}

  lemma SameBlock(m: Mem, r: seq<nat>, i: nat, j: nat)
    requires Ring(m, r) && i < |r| && j < |r| && r[i] == r[j]
    ensures i == j
  {
    if i < j { Ascending(m, r, i, j); } else if j < i { Ascending(m, r, j, i); }
  }

  /** Either way malloc takes a block, the partition goes on. */
  lemma TakeIsFine(m: Mem, r: seq<nat>, j: nat, n: nat, live: set<nat>, own: map<nat, nat>)
    requires Ring(m, r) && Owned(m, r, live, own) && 0 < j < |r| && r[j] < |m| && 0 < n <= m[r[j]].size
    ensures r[j - 1] < |m| && r[j] + m[r[j]].size <= |m| && r[j] !in live && r[j - 1] in Without(r, j)
    ensures Ring(TakeMem(m, r, j), Without(r, j))
    ensures Owned(TakeMem(m, r, j), Without(r, j), live + {r[j]}, own)
    ensures n < m[r[j]].size ==>
              var h := r[j] + (m[r[j]].size - n);
              && h !in live && h !in r && Ring(SplitMem(m, r[j], n), r)
              && Owned(SplitMem(m, r[j], n), r, live + {h}, SplitOwn(own, h, n))
    ensures forall u :: u in own && own[u] in live ==>
              && u < |m| && u != r[j] && u != r[j - 1]
              && !(r[j] <= u < r[j] + m[r[j]].size)
  {
    BaseOf(m, r);
    Ascending(m, r, 0, j);
    TakeKeeps(m, r, j, live, own);
    BlockFits(m, r, live, own, r[j]);
    if n < m[r[j]].size { SplitKeeps(m, r, j, n, live, own); }
    assert Without(r, j)[j - 1] == r[j - 1];
    assert IsBlock(r, live, r[j]) && Owns(m, own, r[j]);
    OwnsItself(m, r, live, own, r[j - 1]);
    hide Ring;
    forall u | u in own && own[u] in live
      ensures u < |m| && u != r[j - 1] && !(r[j] <= u < r[j] + m[r[j]].size)
    {
      assert Inside(m, own[u], u);
    }
  }

  /** All that free needs to know about its new state. */
  lemma FreedIsFree(m: Mem, r: seq<nat>, k: nat, bp: nat, live: set<nat>, own: map<nat, nat>)
    requires Ring(m, r) && Owned(m, r, live, own) && bp in live && Fits(m, r, k, bp)
    ensures m[r[k]].ptr < |m|
    ensures var m' := FreeMem(m, r[k], bp);
            var r', own' := Freed(m, r, k, bp).1, FreedOwn(m, r, k, bp, own);
            && Ring(m', r') && Owned(m', r', live - {bp}, own') && own'.Keys == own.Keys
            && r[k] in r'
            && (forall u :: u in own && own[u] in live && own[u] != bp ==>
                  u < |m| && m'[u] == m[u] && own'[u] == own[u])
            && bp in own' && own'[bp] in r' && own'[bp] < |m'| && m'[own'[bp]].size >= m[bp].size
  {
    FreeMemIsFreed(m, r, k, bp);
    FreedKeepsRing(m, r, k, bp);
    FreedKeepsOwned(m, r, k, bp, live, own);
    var m', own' := FreeMem(m, r[k], bp), FreedOwn(m, r, k, bp, own);
    var r' := Freed(m, r, k, bp).1;
    assert r'[k] in r';
    FreedOwnOf(m, r, k, bp, live, own);
    assert IsBlock(r, live, bp) && Owns(m, own, bp);
    hide Freed, FreedOwn, Ring;
    forall u | u in own && own[u] in live && own[u] != bp
      ensures u < |m| && m'[u] == m[u] && own'[u] == own[u]
    {
      FreedElse(m, r, k, bp, live, own, u);
    }
  }

  lemma FreedElse(m: Mem, r: seq<nat>, k: nat, bp: nat, live: set<nat>, own: map<nat, nat>, u: nat)
    requires Ring(m, r) && Owned(m, r, live, own) && bp in live && Fits(m, r, k, bp) && u in own && own[u] in live && own[u] != bp
    ensures m[r[k]].ptr < |m| && u < |m| && FreeMem(m, r[k], bp)[u] == m[u]
    ensures u in FreedOwn(m, r, k, bp, own) && FreedOwn(m, r, k, bp, own)[u] == own[u]
  {
    FreeMemIsFreed(m, r, k, bp);
    FreedOwnOf(m, r, k, bp, live, own);
    hide Freed, FreedOwn, Ring;
    assert Inside(m, own[u], u);
    if u == r[k] {
      OwnsItself(m, r, live, own, r[k]);
    }
  }

  lemma FreedOwnOf(m: Mem, r: seq<nat>, k: nat, bp: nat, live: set<nat>, own: map<nat, nat>)
    requires Ring(m, r) && Owned(m, r, live, own) && bp in live && Fits(m, r, k, bp)
    ensures FreedOwn(m, r, k, bp, own).Keys == own.Keys
    ensures forall u :: u in own && own[u] in live && own[u] != bp ==>
              FreedOwn(m, r, k, bp, own)[u] == own[u]
    ensures bp in own && FreedOwn(m, r, k, bp, own)[bp] == FreeStart(m, r, k, bp)
  {
    assert IsBlock(r, live, bp) && Owns(m, own, bp);
  }

  /** Where the blocks of the ring lie as seen from bp. */
  predicate Between(r: seq<nat>, k: nat, bp: nat, i: nat)
    requires i < |r|
  {
    && (i <= k ==> r[i] < bp)
    && (i > k ==> r[i] > bp)
    && (i + 1 < |r| ==> r[i] < r[i + 1] && (i + 1 <= k ==> r[i + 1] < bp) && (i + 1 > k ==> r[i + 1] > bp))
    && r[0] == 0 && k < |r| && bp > 0
  }

  lemma PlaceAt(m: Mem, r: seq<nat>, k: nat, bp: nat, i: nat)
    requires Linked(m, r) && Fits(m, r, k, bp) && i < |r|
    ensures Between(r, k, bp, i)
  {
    BaseOf(m, r);
    LinkOf(m, r, i);
    InsertApart(m, r, k, bp, i);
    if i + 1 < |r| { InsertApart(m, r, k, bp, i + 1); }
  }

  /** A live block lies in some gap of the ring. */
  lemma Place(m: Mem, r: seq<nat>, live: set<nat>, own: map<nat, nat>, bp: nat) returns (k: nat)
    requires Ring(m, r) && Owned(m, r, live, own) && bp in live
    ensures Fits(m, r, k, bp)
  {
    BaseOf(m, r);
    k := |r| - 1;
    while r[k] > bp
      invariant k < |r| && (k + 1 < |r| ==> r[k + 1] > bp)
      decreases k
    {
      k := k - 1;
    }
    assert IsBlock(r, live, bp) && Owns(m, own, bp);
    LinkOf(m, r, k);
    if k > 0 {
      Ascending(m, r, 0, k);
      Apart(m, r, live, own, r[k], bp);
    }
    if k + 1 < |r| {
      LinkOf(m, r, k + 1);
      Ascending(m, r, 0, k + 1);
      Apart(m, r, live, own, bp, r[k + 1]);
    }
  }

  /** Two blocks do not overlap. */
  lemma Apart(m: Mem, r: seq<nat>, live: set<nat>, own: map<nat, nat>, a: nat, b: nat)
    requires Owned(m, r, live, own) && IsBlock(r, live, a) && IsBlock(r, live, b) && a < b
    ensures a < |m| && a + m[a].size <= b
  {
    assert Owns(m, own, a) && Owns(m, own, b);
    if a + m[a].size > b {
      OwnsAt(m, own, a, b);
      OwnsAt(m, own, b, b);
    }
  }

  lemma OwnsAt(m: Mem, own: map<nat, nat>, b: nat, u: nat)
    requires Owns(m, own, b) && b <= u < b + m[b].size
    ensures u in own && own[u] == b
  {}
}
