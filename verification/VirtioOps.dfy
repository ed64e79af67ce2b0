/** The code of kernel/driver/virtio_disk.c between two places where it gives up the lock. */
module VirtioOps {
  import opened Virtio

  /** The free flags after the first n descriptors of chain c have been taken. */
  function Without(free: seq<bool>, idx: seq<nat>): (r: seq<bool>)
    requires |free| == NUM && forall k :: 0 <= k < |idx| ==> idx[k] < NUM
    ensures |r| == NUM && forall j :: 0 <= j < NUM ==> r[j] == (free[j] && j !in idx)
  {
    seq(NUM, j requires 0 <= j < NUM => free[j] && j !in idx)
  }

  /** idx holds the |idx| lowest free descriptors. */
  predicate Lowest(free: seq<bool>, idx: seq<nat>)
    requires |free| == NUM
  {
    && |idx| <= 3
    && (|idx| > 0 ==> idx[0] == FirstFree(free, 0) < NUM)
    && (|idx| > 1 ==> idx[1] == FirstFree(free, idx[0] + 1) < NUM)
    && (|idx| > 2 ==> idx[2] == FirstFree(free, idx[1] + 1) < NUM)
  }

  class Disk {
    const free: array<bool>
    const desc: array<Desc>
    const info: array<Info>
    const reqs: array<Header>
    const bufs: array<Buf>
    const procs: array<Proc>
    var availRing: seq<nat>
    var availIdx: nat
    var devAvail: nat
    var flight: set<nat>
    var usedRing: seq<nat>
    var usedIdx: nat
    var usedSeen: nat
    var blocks: map<nat, seq<Byte>>

    ghost predicate Rep()
      reads this
    {
      free.Length == NUM && desc.Length == NUM && info.Length == NUM && reqs.Length == NUM && |availRing| == NUM && |usedRing| == NUM
    }

    ghost function S(): (s: Sys)
      reads this, free, desc, info, reqs, bufs, procs
      requires Rep()
      ensures Sizes(s)
    {
      Sys(desc[..], free[..], info[..], reqs[..], availIdx, availRing, devAvail, flight, usedIdx, usedRing, usedSeen, bufs[..], blocks, procs[..])
    }

    /** virtio_disk_init: every descriptor is free. */
    constructor (bufs: seq<Buf>, procs: seq<Proc>, blocks: map<nat, seq<Byte>>)
      requires forall b :: 0 <= b < |bufs| ==> !bufs[b].disk
      requires forall p :: 0 <= p < |procs| ==> procs[p] == Proc(NoChan, Idle)
      ensures Rep() && Inv(S(), Book(map[], map[], [], 0, [], 0)) && S().bufs == bufs && S().procs == procs && S().blocks == blocks
    {
      free := new bool[NUM](_ => true);
      desc := new Desc[NUM](_ => Desc(Nowhere, 0, 0, 0));
      info := new Info[NUM](_ => Info(NoBuf, 0));
      reqs := new Header[NUM](_ => Header(false, 0));
      this.bufs := new Buf[|bufs|](i requires 0 <= i < |bufs| => bufs[i]);
      this.procs := new Proc[|procs|](i requires 0 <= i < |procs| => procs[i]);
      availRing, usedRing := seq(NUM, _ => 0), seq(NUM, _ => 0);
      availIdx, devAvail, usedIdx, usedSeen, flight := 0, 0, 0, 0, {};
      this.blocks := blocks;
      new;
      assert this.bufs[..] == bufs && this.procs[..] == procs;
      StartInv(S());
    }

    /** wakeup */
    method Wakeup(chan: Chan)
      modifies procs
      ensures procs[..] == Wake(old(procs[..]), chan)
    {
      var j := 0;
      while j < procs.Length
        invariant j <= procs.Length
        invariant forall k :: 0 <= k < j ==> procs[k] == if old(procs[k]).asleep == chan then old(procs[k]).(asleep := NoChan) else old(procs[k])
        invariant forall k :: j <= k < procs.Length ==> procs[k] == old(procs[k])
      {
        if procs[j].asleep == chan {
          procs[j] := procs[j].(asleep := NoChan);
        }
        j := j + 1;
      }
    }

    /** alloc3_desc: three descriptors, or none and all as before. */
    method Alloc3Desc() returns (ok: bool, idx: seq<nat>)
      requires Rep()
      modifies free
      ensures ok <==> Alloc3(old(free[..])).Three?
      ensures ok ==> |idx| == 3 && Alloc3(old(free[..])) == Three(idx[0], idx[1], idx[2])
      ensures free[..] == if ok then old(free[..])[idx[0] := false][idx[1] := false][idx[2] := false] else old(free[..])
    {
      ghost var f0 := free[..];
      hide FirstFree;
      idx := [];
      var i := 0;
      while i < 3
        invariant i == |idx| <= 3 && Lowest(f0, idx) && free[..] == Without(f0, idx)
      {
        var found, j := TakeOne(f0, idx);
        if !found {
          NoLowest(f0, idx);
          Increasing(f0, idx);
          PutBack(f0, idx);
          return false, [];
        }
        idx := idx + [j];
        i := i + 1;
      }
      TakenThree(f0, idx);
      return true, idx;
    }

    /** The inner loop of alloc3_desc. */
    method TakeOne(ghost f0: seq<bool>, ghost idx: seq<nat>) returns (found: bool, j: nat)
      requires Rep() && |f0| == NUM && |idx| < 3 && Lowest(f0, idx) && free[..] == Without(f0, idx)
      modifies free
      ensures found ==> Lowest(f0, idx + [j]) && free[..] == Without(f0, idx + [j])
      ensures !found ==> free[..] == old(free[..]) && forall k :: 0 <= k < NUM ==> !free[k]
    {
      j := 0;
      while j < NUM
        invariant j <= NUM && free[..] == old(free[..]) && forall k :: 0 <= k < j ==> !free[k]
      {
        if free[j] {
          ghost var now := free[..];
          assert forall k :: 0 <= k < NUM ==> now[k] == free[k];
          NextLowest(f0, idx, j);
          free[j] := false;
          return true, j;
        }
        j := j + 1;
      }
      return false, 0;
    }

    /** The descriptors taken are given back. */
    method PutBack(ghost f0: seq<bool>, idx: seq<nat>)
      requires Rep() && |f0| == NUM && (forall k :: 0 <= k < |idx| ==> idx[k] < NUM && f0[idx[k]]) && free[..] == Without(f0, idx)
      requires forall j, k :: 0 <= j < k < |idx| ==> idx[j] != idx[k]
      modifies free
      ensures free[..] == f0
    {
      var j := 0;
      while j < |idx|
        invariant j <= |idx|
        invariant forall k :: 0 <= k < NUM ==> free[k] == (f0[k] && k !in idx[j..])
      {
        free[idx[j]] := true;
        j := j + 1;
      }
    }

    /** free_desc; false is its panic. */
    method FreeOne(i: nat) returns (ok: bool)
      requires Rep()
      modifies free, desc, procs
      ensures ok <==> FreeDesc(old(S()), i).Ok?
      ensures ok ==> S() == FreeDesc(old(S()), i).value
    {
      if i >= NUM {
        return false;
      }
      if free[i] {
        return false;
      }
      desc[i] := Desc(Nowhere, 0, 0, 0);
      free[i] := true;
      Wakeup(OnFree);
      return true;
    }

    /** free_chain; false is a panic. */
    method FreeAll(h: nat) returns (ok: bool)
      requires Rep()
      modifies free, desc, procs
      ensures ok <==> FreeChain(old(S()), h).Ok?
      ensures ok ==> S() == FreeChain(old(S()), h).value
    {
      var i: nat := h;
      while true
        invariant Rep() && FreeChain(S(), i) == FreeChain(old(S()), h)
        decreases InUse(free[..])
      {
        if i >= NUM {
          return false;
        }
        var flags, next := desc[i].flags, desc[i].next;
        ghost var s := S();
        var freed := FreeOne(i);
        if !freed {
          return false;
        }
        InUseLess(s.free, i);
        if flags % 2 == 1 {
          i := next;
        } else {
          break;
        }
      }
      return true;
    }

    /** virtio_disk_rw up to a sleep. */
    method DiskRw(me: nat, b: nat, write: bool)
      requires Rep() && me < procs.Length && b < bufs.Length
      modifies this, free, desc, info, reqs, bufs, procs
      ensures Rep() && S() == Request(old(S()), me, b, write)
    {
      hide Alloc3, FirstFree;
      var sector := Sector(bufs[b].blockno);
      var ok, idx := Alloc3Desc();
      if !ok {
        procs[me] := Proc(OnFree, WaitDesc(b, write));
        return;
      }
      Fill(b, write, sector, idx[0], idx[1], idx[2]);
      availRing := availRing[availIdx % NUM := idx[0]];
      availIdx := (availIdx + 1) % WRAP;
      procs[me] := Proc(OnBuf(b), WaitBuf(b, idx[0]));
    }

    /** The descriptors of a request, its header, and the flag of its buffer. */
    method Fill(b: nat, write: bool, sector: nat, i0: nat, i1: nat, i2: nat)
      requires Rep() && b < bufs.Length && i0 < NUM && i1 < NUM && i2 < NUM
      modifies desc, info, reqs, bufs
      ensures reqs[..] == old(reqs[..])[i0 := Header(write, sector)]
      ensures desc[..] == old(desc[..])[i0 := Desc(ReqAt(i0), 16, NEXT, i1)]
                                       [i1 := Desc(DataOf(b), BSIZE, (if write then 0 else WRITE) + NEXT, i2)]
                                       [i2 := Desc(StatusOf(i0), 1, WRITE, 0)]
      ensures info[..] == old(info[..])[i0 := Info(BufAt(b), 0)]
      ensures bufs[..] == old(bufs[..])[b := old(bufs[..])[b].(disk := true)]
    {
      reqs[i0] := Header(write, sector);
      desc[i0] := Desc(ReqAt(i0), 16, NEXT, i1);
      desc[i1] := Desc(DataOf(b), BSIZE, (if write then 0 else WRITE) + NEXT, i2);
      info[i0] := Info(info[i0].b, 0);
      desc[i2] := Desc(StatusOf(i0), 1, WRITE, 0);
      bufs[b] := bufs[b].(disk := true);
      info[i0] := Info(BufAt(b), info[i0].status);
    }

    /** One turn of virtio_disk_intr; false is its panic. */
    method IntrTurn() returns (ok: bool)
      requires Rep()
      modifies this, bufs, procs
      ensures ok <==> IntrOne(old(S())).Ok?
      ensures ok ==> Rep() && S() == IntrOne(old(S())).value
    {
      var id := usedRing[usedSeen % NUM];
      if id >= NUM || info[id].status != 0 {
        return false;
      }
      if info[id].b.NoBuf? || info[id].b.b >= bufs.Length {
        return false;
      }
      var b := info[id].b.b;
      bufs[b] := bufs[b].(disk := false);
      Wakeup(OnBuf(b));
      usedSeen := (usedSeen + 1) % WRAP;
      return true;
    }

    /** virtio_disk_intr: it ends, and finishes every request that the device had completed. */
    method Intr(ghost g: Book) returns (ok: bool, ghost g': Book)
      requires Rep() && Inv(S(), g)
      modifies this, bufs, procs
      ensures ok ==> Rep() && Inv(S(), g') && usedSeen == usedIdx && g'.used == []
      ensures !ok ==> exists k :: 0 <= k < |g.used| && g.used[k] < NUM && old(info[..])[g.used[k]].status != 0
    {
      hide Inv, RingOk;
      g' := g;
      UsedAre(S(), g);
      while usedSeen != usedIdx
        invariant Rep() && Inv(S(), g') && info[..] == old(info[..]) && |g'.used| <= |g.used|
        invariant g'.used == g.used[|g.used| - |g'.used| ..]
        decreases |g'.used|
      {
        IntrKeeps(S(), g');
        var turn := IntrTurn();
        if !turn {
          assert g'.used[0] == g.used[|g.used| - |g'.used|];
          return false, g';
        }
        g' := IntrBook(g');
      }
      UsedAre(S(), g');
      return true, g';
    }
  }

  lemma UsedAre(s: Sys, g: Book)
    requires Inv(s, g)
    ensures s.usedSeen == s.usedIdx <==> g.used == []
  {
    RingEmpty(s.usedRing, g.used, g.seen, s.usedSeen, s.usedIdx, Members(g, Used));
  }

  /** The next descriptor the search finds. */
  lemma NextLowest(f0: seq<bool>, idx: seq<nat>, j: nat)
    requires |f0| == NUM && Lowest(f0, idx) && |idx| < 3 && j < NUM && f0[j] && j !in idx
    requires forall k :: 0 <= k < j ==> !(f0[k] && k !in idx)
    ensures Lowest(f0, idx + [j]) && Without(f0, idx + [j]) == Without(f0, idx)[j := false]
  {
    hide FirstFree;
    FirstIs(f0, if idx == [] then 0 else idx[|idx| - 1] + 1, j);
  }

  lemma FirstIs(f0: seq<bool>, i: nat, j: nat)
    requires |f0| == NUM && i <= j < NUM && f0[j] && forall k :: i <= k < j ==> !f0[k]
    ensures FirstFree(f0, i) == j
  {}

  lemma NoLowest(f0: seq<bool>, idx: seq<nat>)
    requires |f0| == NUM && Lowest(f0, idx) && |idx| < 3
    requires forall k :: 0 <= k < NUM ==> !(f0[k] && k !in idx)
    ensures Alloc3(f0).NoChain?
  {}

  lemma Increasing(f0: seq<bool>, idx: seq<nat>)
    requires |f0| == NUM && Lowest(f0, idx)
    ensures forall j, k :: 0 <= j < k < |idx| ==> idx[j] < idx[k]
    ensures forall k :: 0 <= k < |idx| ==> idx[k] < NUM && f0[idx[k]]
  {}

  lemma TakenThree(f0: seq<bool>, idx: seq<nat>)
    requires |f0| == NUM && Lowest(f0, idx) && |idx| == 3
    ensures Alloc3(f0) == Three(idx[0], idx[1], idx[2])
    ensures Without(f0, idx) == f0[idx[0] := false][idx[1] := false][idx[2] := false]
  {}
}
