/** The virtio block queue (kernel/driver/virtio_disk.c:127-287; section 2.4 of VIRTIO 1.0) as steps
    of processes, of a device that completes requests in any order, and of its interrupt. */
module Virtio {
  import opened Counting

  const NUM := 8
  const WRAP := 0x1_0000
  const NEXT := 1       // VRING_DESC_F_NEXT
  const WRITE := 2      // VRING_DESC_F_WRITE
  const BSIZE := 1024

  type Byte = b: int | 0 <= b < 256 witness 0

  /** Where a descriptor points: a request header, the data of a buffer, a status byte. */
  datatype Addr = Nowhere | ReqAt(i: nat) | DataOf(b: nat) | StatusOf(i: nat)

  datatype Desc = Desc(addr: Addr, len: nat, flags: nat, next: nat)
  datatype Header = Header(write: bool, sector: nat)
  datatype Buf = Buf(blockno: nat, data: seq<Byte>, disk: bool)
  datatype Owner = NoBuf | BufAt(b: nat)
  datatype Info = Info(b: Owner, status: int)

  datatype Chan = NoChan | OnFree | OnBuf(b: nat)
  datatype Job = Idle | WaitDesc(b: nat, write: bool) | WaitBuf(b: nat, head: nat)

  /** A process is asleep on a channel, or not. */
  datatype Proc = Proc(asleep: Chan, job: Job)

  /** The descriptor table, the two rings with both sides' indices, what the device is at work on,
      the buffers, the blocks of the disk, and the processes. */
  datatype Sys = Sys(desc: seq<Desc>, free: seq<bool>, info: seq<Info>, reqs: seq<Header>,
                     availIdx: nat, availRing: seq<nat>, devAvail: nat, flight: set<nat>,
                     usedIdx: nat, usedRing: seq<nat>, usedSeen: nat,
                     bufs: seq<Buf>, blocks: map<nat, seq<Byte>>, procs: seq<Proc>)

  /** b->blockno * (BSIZE / 512), a product of 32 bits. */
  function Sector(blockno: nat): nat
  {
    blockno * 2 % 0x1_0000_0000
  }

  /** The blocks of two buffers are the same on the disk if and only if their numbers agree in 31
      bits. */
  lemma SectorOnceIff(b: nat, c: nat)
    ensures Sector(b) == Sector(c) <==> b % 0x8000_0000 == c % 0x8000_0000
  {
    assert Sector(b) == 2 * (b % 0x8000_0000) && Sector(c) == 2 * (c % 0x8000_0000);
  }

  datatype Result<+T> = Ok(value: T) | Panicked

  predicate Sizes(s: Sys)
  {
    |s.desc| == NUM && |s.free| == NUM && |s.info| == NUM && |s.reqs| == NUM && |s.availRing| == NUM && |s.usedRing| == NUM
  }

  // ---------- the driver ----------

  /** The first free descriptor from j on, NUM if there is none. */
  function FirstFree(free: seq<bool>, j: nat): (i: nat)
    requires |free| == NUM && j <= NUM
    ensures j <= i <= NUM && (i < NUM ==> free[i]) && forall k :: j <= k < i ==> !free[k]
    decreases NUM - j
  {
    if j == NUM || free[j] then j else FirstFree(free, j + 1)
  }

  datatype Chain = NoChain | Three(i0: nat, i1: nat, i2: nat)

  /** alloc3_desc: the three lowest free descriptors, or none. */
  function Alloc3(free: seq<bool>): (c: Chain)
    requires |free| == NUM
    ensures c.Three? ==> c.i0 < c.i1 < c.i2 < NUM && free[c.i0] && free[c.i1] && free[c.i2]
  {
    var i0 := FirstFree(free, 0);
    if i0 == NUM then NoChain else
      var i1 := FirstFree(free, i0 + 1);
      if i1 == NUM then NoChain else
        var i2 := FirstFree(free, i1 + 1);
        if i2 == NUM then NoChain else Three(i0, i1, i2)
  }

  function Wake(procs: seq<Proc>, chan: Chan): (r: seq<Proc>)
    ensures |r| == |procs|
  {
    seq(|procs|, j requires 0 <= j < |procs| => if procs[j].asleep == chan then procs[j].(asleep := NoChan) else procs[j])
  }

  /** The request of process me for buffer b goes out on chain c. */
  function Submit(s: Sys, me: nat, b: nat, write: bool, c: Chain): Sys
    requires Sizes(s) && me < |s.procs| && b < |s.bufs| && c.Three? && c.i0 < NUM && c.i1 < NUM && c.i2 < NUM
  {
    s.(
      reqs := s.reqs[c.i0 := Header(write, Sector(s.bufs[b].blockno))],
      free := s.free[c.i0 := false][c.i1 := false][c.i2 := false],
      desc := s.desc[c.i0 := Desc(ReqAt(c.i0), 16, NEXT, c.i1)]
                    [c.i1 := Desc(DataOf(b), BSIZE, (if write then 0 else WRITE) + NEXT, c.i2)]
                    [c.i2 := Desc(StatusOf(c.i0), 1, WRITE, 0)],
      info := s.info[c.i0 := Info(BufAt(b), 0)],
      bufs := s.bufs[b := s.bufs[b].(disk := true)],
      availRing := s.availRing[s.availIdx % NUM := c.i0],
      availIdx := (s.availIdx + 1) % WRAP,
      procs := s.procs[me := Proc(OnBuf(b), WaitBuf(b, c.i0))])
  }

  /** virtio_disk_rw up to its first sleep. */
  function Request(s: Sys, me: nat, b: nat, write: bool): Sys
    requires Sizes(s) && me < |s.procs| && b < |s.bufs|
  {
    var c := Alloc3(s.free);
    if c.NoChain? then s.(procs := s.procs[me := Proc(OnFree, WaitDesc(b, write))])
    else Submit(s, me, b, write, c)
  }

  /** free_desc */
  function FreeDesc(s: Sys, i: nat): Result<Sys>
    requires Sizes(s)
  {
    if i >= NUM || s.free[i] then Panicked else
      Ok(s.(desc := s.desc[i := Desc(Nowhere, 0, 0, 0)], free := s.free[i := true], procs := Wake(s.procs, OnFree)))
  }

  function InUse(free: seq<bool>): nat
  {
    if free == [] then 0 else (if free[0] then 0 else 1) + InUse(free[1..])
  }

  lemma {:induction false} InUseLess(free: seq<bool>, i: nat)
    requires i < |free| && !free[i]
    ensures InUse(free[i := true]) == InUse(free) - 1
  {
    if i > 0 {
      InUseLess(free[1..], i - 1);
      assert free[i := true][1..] == free[1..][i - 1 := true];
    } else {
      assert free[i := true][1..] == free[1..];
    }
  }

  /** free_chain */
  function FreeChain(s: Sys, i: nat): Result<Sys>
    requires Sizes(s)
    decreases InUse(s.free)
  {
    if i >= NUM then Panicked else
      var flags, next := s.desc[i].flags, s.desc[i].next;
      match FreeDesc(s, i)
      case Panicked => Panicked
      case Ok(s1) =>
        InUseLess(s.free, i);
        if flags % 2 == 1 then FreeChain(s1, next) else Ok(s1)
  }

  /** virtio_disk_rw behind one of its sleeps. */
  function Resumed(s: Sys, me: nat): Result<Sys>
    requires Sizes(s) && me < |s.procs|
  {
    match s.procs[me].job
    case Idle => Ok(s)
    case WaitDesc(b, write) => if b < |s.bufs| then Ok(Request(s, me, b, write)) else Panicked
    case WaitBuf(b, h) =>
      if b >= |s.bufs| || h >= NUM then Panicked
      else if s.bufs[b].disk then Ok(s.(procs := s.procs[me := s.procs[me].(asleep := OnBuf(b))]))
      else match FreeChain(s.(info := s.info[h := s.info[h].(b := NoBuf)]), h)
        case Panicked => Panicked
        case Ok(s1) => if me < |s1.procs| then Ok(s1.(procs := s1.procs[me := Proc(NoChan, Idle)])) else Panicked
  }

  /** One turn of virtio_disk_intr. */
  function IntrOne(s: Sys): Result<Sys>
    requires Sizes(s)
  {
    var id := s.usedRing[s.usedSeen % NUM];
    if id >= NUM || s.info[id].status != 0 || s.info[id].b.NoBuf? || s.info[id].b.b >= |s.bufs| then Panicked else
      var b := s.info[id].b.b;
      Ok(s.(bufs := s.bufs[b := s.bufs[b].(disk := false)], procs := Wake(s.procs, OnBuf(b)),
            usedSeen := (s.usedSeen + 1) % WRAP))
  }

  // ---------- the device ----------

  /** It takes the next request from the avail ring. */
  function DevTake(s: Sys): Sys
    requires Sizes(s) && s.devAvail != s.availIdx
  {
    s.(flight := s.flight + {s.availRing[s.devAvail % NUM]}, devAvail := (s.devAvail + 1) % WRAP)
  }

  /** What the chain that begins at id asks for is done: header, data and status are where its
      descriptors say. A chain of another form has no effect. */
  function Serve(s: Sys, id: nat, status: int): Sys
    requires Sizes(s) && id < NUM
  {
    var d0 := s.desc[id];
    if d0.next >= NUM then s else
    var d1 := s.desc[d0.next];
    if d1.next >= NUM then s else
    var d2 := s.desc[d1.next];
    if d0.addr.ReqAt? && d0.addr.i < NUM && d1.addr.DataOf? && d1.addr.b < |s.bufs| && d2.addr.StatusOf? && d2.addr.i < NUM then
      var q, b := s.reqs[d0.addr.i], d1.addr.b;
      var s1 := s.(info := s.info[d2.addr.i := s.info[d2.addr.i].(status := status)]);
      if q.write then s1.(blocks := s1.blocks[q.sector := s1.bufs[b].data])
      else if q.sector in s1.blocks then s1.(bufs := s1.bufs[b := s1.bufs[b].(data := s1.blocks[q.sector])])
      else s1
    else s
  }

  /** A request in flight is completed. */
  function DevComplete(s: Sys, id: nat, status: int): Sys
    requires Sizes(s) && id < NUM
  {
    var s1 := Serve(s, id, status);
    s1.(flight := s1.flight - {id}, usedRing := s1.usedRing[s1.usedIdx % NUM := id], usedIdx := (s1.usedIdx + 1) % WRAP)
  }

  // ---------- what is going on ----------

  datatype Stage = Queued | Flight | Used | Finished

  /** A request: whose it is, its chain behind the head, and how far it has come. */
  datatype Req = Req(me: nat, b: nat, write: bool, i1: nat, i2: nat, stage: Stage)

  /** The requests by head, the owner of each descriptor in use, the two queues, and how many
      entries ever went through them. */
  datatype Book = Book(req: map<nat, Req>, own: map<nat, nat>, queued: seq<nat>, taken: nat, used: seq<nat>, seen: nat)

  /** The chain of a request says what was asked for. */
  predicate ChainOk(s: Sys, h: nat, r: Req)
    requires Sizes(s)
  {
    && h < NUM && r.i1 < NUM && r.i2 < NUM && r.b < |s.bufs|
    && s.desc[h] == Desc(ReqAt(h), 16, NEXT, r.i1)
    && s.desc[r.i1] == Desc(DataOf(r.b), BSIZE, (if r.write then 0 else WRITE) + NEXT, r.i2)
    && s.desc[r.i2] == Desc(StatusOf(h), 1, WRITE, 0)
    && s.reqs[h] == Header(r.write, Sector(s.bufs[r.b].blockno)) && s.info[h].b == BufAt(r.b)
  }

  predicate Owned(g: Book, h: nat, r: Req)
  {
    && h in g.own && r.i1 in g.own && r.i2 in g.own && g.own[h] == h && g.own[r.i1] == h && g.own[r.i2] == h
    && h != r.i1 && h != r.i2 && r.i1 != r.i2
  }

  /** The descriptors are the free ones and those of disjoint chains. */
  predicate Partition(s: Sys, g: Book)
    requires Sizes(s)
  {
    && (forall i :: 0 <= i < NUM ==> (s.free[i] <==> i !in g.own))
    && (forall i :: i in g.own ==> i < NUM && InChain(g, i))
    && (forall h :: h in g.req ==> Owned(g, h, g.req[h]))
  }

  predicate InChain(g: Book, i: nat)
    requires i in g.own
  {
    g.own[i] in g.req && (i == g.own[i] || i == g.req[g.own[i]].i1 || i == g.req[g.own[i]].i2)
  }

  predicate Waits(s: Sys, h: nat, r: Req)
  {
    r.me < |s.procs| && s.procs[r.me].job == WaitBuf(r.b, h)
  }

  /** A process sleeps only if it has to, and the process of a request is waiting for it. */
  predicate ProcOk(s: Sys, g: Book, p: nat)
    requires Sizes(s) && p < |s.procs|
  {
    && (s.procs[p].job.WaitBuf? ==>
          s.procs[p].job.head in g.req && g.req[s.procs[p].job.head].me == p && g.req[s.procs[p].job.head].b == s.procs[p].job.b)
    && (s.procs[p].job.WaitDesc? ==> s.procs[p].job.b < |s.bufs|)
    && (s.procs[p].asleep.OnFree? ==> Alloc3(s.free).NoChain? && s.procs[p].job.WaitDesc?)
    && (s.procs[p].asleep.OnBuf? ==> s.procs[p].job.WaitBuf? && s.procs[p].asleep.b == s.procs[p].job.b &&
                                     s.procs[p].job.b < |s.bufs| && s.bufs[s.procs[p].job.b].disk)
  }

  /** b->disk says that a request for b is not finished, and there is only one. */
  predicate FlagOk(s: Sys, g: Book, h: nat)
    requires h in g.req
  {
    && g.req[h].b < |s.bufs|
    && (g.req[h].stage != Finished ==> s.bufs[g.req[h].b].disk)
    && forall k :: k in g.req && k != h && g.req[k].b == g.req[h].b ==> g.req[k].stage == Finished || g.req[h].stage == Finished
  }

  predicate Outstanding(g: Book, b: nat)
  {
    exists h :: h in g.req && g.req[h].b == b && g.req[h].stage != Finished
  }

  function Members(g: Book, stage: Stage): set<nat>
  {
    set h | h in g.req && g.req[h].stage == stage
  }

  /** A ring holds a queue of the given heads, and the indices agree with the number of entries
      ever made, modulo 2^16. */
  ghost predicate RingOk(ring: seq<nat>, queue: seq<nat>, base: nat, lo: nat, hi: nat, members: set<nat>)
    requires |ring| == NUM
  {
    && lo == base % WRAP && hi == (base + |queue|) % WRAP && |queue| <= NUM
    && (forall k :: 0 <= k < |queue| ==> ring[(base + k) % NUM] == queue[k])
    && (forall j, k :: 0 <= j < k < |queue| ==> queue[j] != queue[k])
    && (forall h :: h in members <==> h in queue)
  }

  predicate AllChains(s: Sys, g: Book)
    requires Sizes(s)
  {
    forall h :: h in g.req ==> ChainOk(s, h, g.req[h]) && Waits(s, h, g.req[h])
  }

  predicate AllProcs(s: Sys, g: Book)
    requires Sizes(s)
  {
    forall p :: 0 <= p < |s.procs| ==> ProcOk(s, g, p)
  }

  predicate AllFlags(s: Sys, g: Book)
  {
    forall h :: h in g.req ==> FlagOk(s, g, h)
  }

  ghost predicate AllOutstanding(s: Sys, g: Book)
  {
    forall b :: 0 <= b < |s.bufs| && s.bufs[b].disk ==> Outstanding(g, b)
  }

  /** What does not depend on the queues, the rings and their indices. */
  ghost predicate Rest(s: Sys, g: Book)
  {
    Sizes(s) && Partition(s, g) && AllChains(s, g) && AllProcs(s, g) && AllFlags(s, g) && AllOutstanding(s, g)
  }

  ghost predicate Inv(s: Sys, g: Book)
  {
    && Rest(s, g)
    && RingOk(s.availRing, g.queued, g.taken, s.devAvail, s.availIdx, Members(g, Queued))
    && RingOk(s.usedRing, g.used, g.seen, s.usedSeen, s.usedIdx, Members(g, Used))
    && s.flight == Members(g, Flight)
  }

  // ---------- rings ----------

  lemma RingEmpty(ring: seq<nat>, queue: seq<nat>, base: nat, lo: nat, hi: nat, members: set<nat>)
    requires |ring| == NUM && RingOk(ring, queue, base, lo, hi, members)
    ensures lo == hi <==> queue == []
    ensures queue != [] ==> ring[lo % NUM] == queue[0]
  {
    Wrapped(base, |queue|);
  }

  lemma Wrapped(base: nat, n: nat)
    requires n <= NUM
    ensures base % WRAP == (base + n) % WRAP <==> n == 0
    ensures base % WRAP % NUM == base % NUM && (base + n) % WRAP % NUM == (base + n) % NUM
    ensures (base % WRAP + 1) % WRAP == (base + 1) % WRAP
    ensures ((base + n) % WRAP + 1) % WRAP == (base + n + 1) % WRAP
  {}

  lemma RingPop(ring: seq<nat>, queue: seq<nat>, base: nat, lo: nat, hi: nat, members: set<nat>)
    requires |ring| == NUM && RingOk(ring, queue, base, lo, hi, members) && lo != hi
    ensures queue != [] && queue[0] in members && queue[0] == ring[lo % NUM]
    ensures RingOk(ring, queue[1..], base + 1, (lo + 1) % WRAP, hi, members - {queue[0]})
  {
    RingEmpty(ring, queue, base, lo, hi, members);
    Wrapped(base, |queue|);
    var q := queue[1..];
    assert queue[0] in queue;
    forall k | 0 <= k < |q| ensures ring[(base + 1 + k) % NUM] == q[k] { assert ring[(base + (k + 1)) % NUM] == queue[k + 1]; }
    forall h ensures h in members - {queue[0]} <==> h in q { assert queue == [queue[0]] + q; }
  }

  lemma RingPush(ring: seq<nat>, queue: seq<nat>, base: nat, lo: nat, hi: nat, members: set<nat>, h: nat)
    requires |ring| == NUM && RingOk(ring, queue, base, lo, hi, members) && h < NUM && h !in members
    requires forall k :: k in members ==> k < NUM
    ensures RingOk(ring[hi % NUM := h], queue + [h], base, lo, (hi + 1) % WRAP, members + {h})
  {
    forall k | 0 <= k < |queue| ensures queue[k] in members { assert queue[k] in queue; }
    Pigeonhole(queue + [h], NUM);
    Wrapped(base, |queue|);
    var r, q := ring[hi % NUM := h], queue + [h];
    forall k | 0 <= k < |q| ensures r[(base + k) % NUM] == q[k] {
      if k < |queue| { SlotsDiffer(base, k, |queue|); }
    }
  }

  lemma SlotsDiffer(base: nat, k: nat, n: nat)
    requires k < n < NUM
    ensures (base + k) % NUM != (base + n) % NUM
  {}

  lemma HeadsBelow(s: Sys, g: Book, stage: Stage)
    requires Inv(s, g)
    ensures forall h :: h in Members(g, stage) ==> h < NUM
  {
    hide RingOk, ProcOk, FlagOk, Outstanding;
    forall h | h in Members(g, stage) ensures h < NUM { assert ChainOk(s, h, g.req[h]); }
  }

  // ---------- a request moves on ----------

  function Moved(g: Book, h: nat, stage: Stage): Book
    requires h in g.req
  {
    g.(req := g.req[h := g.req[h].(stage := stage)])
  }

  lemma MovedMembers(g: Book, h: nat, stage: Stage)
    requires h in g.req && g.req[h].stage != stage
    ensures Members(Moved(g, h, stage), stage) == Members(g, stage) + {h}
    ensures Members(Moved(g, h, stage), g.req[h].stage) == Members(g, g.req[h].stage) - {h}
    ensures forall x :: x != stage && x != g.req[h].stage ==> Members(Moved(g, h, stage), x) == Members(g, x)
  {}

  /** Only the queues, and stages short of the last, have changed. */
  predicate Alike(s: Sys, s': Sys, g: Book, g': Book)
  {
    && s' == s.(availRing := s'.availRing, availIdx := s'.availIdx, devAvail := s'.devAvail, flight := s'.flight,
                usedRing := s'.usedRing, usedIdx := s'.usedIdx, usedSeen := s'.usedSeen)
    && g'.own == g.own && g'.req.Keys == g.req.Keys
    && forall h :: h in g.req ==>
         g'.req[h] == g.req[h].(stage := g'.req[h].stage) && (g'.req[h].stage == Finished <==> g.req[h].stage == Finished)
  }

  lemma RestAlike(s: Sys, s': Sys, g: Book, g': Book)
    requires Rest(s, g) && Sizes(s') && Alike(s, s', g, g')
    ensures Rest(s', g')
  {
    hide Partition, AllChains, AllProcs, AllFlags, AllOutstanding, Alike;
    PartitionAlike(s, s', g, g');
    ChainsAlike(s, s', g, g');
    ProcsAlike(s, s', g, g');
    FlagsAlike(s, s', g, g');
    OutstandingAlike(s, s', g, g');
  }

  lemma PartitionAlike(s: Sys, s': Sys, g: Book, g': Book)
    requires Sizes(s) && Partition(s, g) && Sizes(s') && Alike(s, s', g, g')
    ensures Partition(s', g')
  {
    forall i | i in g'.own ensures i < NUM && InChain(g', i) { assert InChain(g, i); }
    forall k | k in g'.req ensures Owned(g', k, g'.req[k]) { assert Owned(g, k, g.req[k]); }
  }

  lemma ChainsAlike(s: Sys, s': Sys, g: Book, g': Book)
    requires Sizes(s) && AllChains(s, g) && Sizes(s') && Alike(s, s', g, g')
    ensures AllChains(s', g')
  {
    forall k | k in g'.req ensures ChainOk(s', k, g'.req[k]) && Waits(s', k, g'.req[k]) { assert ChainOk(s, k, g.req[k]) && Waits(s, k, g.req[k]); }
  }

  lemma ProcsAlike(s: Sys, s': Sys, g: Book, g': Book)
    requires Sizes(s) && AllProcs(s, g) && Sizes(s') && Alike(s, s', g, g')
    ensures AllProcs(s', g')
  {
    forall p | 0 <= p < |s'.procs| ensures ProcOk(s', g', p) { assert ProcOk(s, g, p); }
  }

  lemma FlagsAlike(s: Sys, s': Sys, g: Book, g': Book)
    requires AllFlags(s, g) && Alike(s, s', g, g')
    ensures AllFlags(s', g')
  {
    forall k | k in g'.req ensures FlagOk(s', g', k) { assert FlagOk(s, g, k); }
  }

  lemma OutstandingAlike(s: Sys, s': Sys, g: Book, g': Book)
    requires AllOutstanding(s, g) && Alike(s, s', g, g')
    ensures AllOutstanding(s', g')
  {
    forall b | 0 <= b < |s'.bufs| && s'.bufs[b].disk ensures Outstanding(g', b) {
      assert Outstanding(g, b);
      var k :| k in g.req && g.req[k].b == b && g.req[k].stage != Finished;
      assert k in g'.req;
    }
  }

  /** The device takes a request. */
  function TakeBook(g: Book): Book
    requires g.queued != [] && g.queued[0] in g.req
  {
    Moved(g, g.queued[0], Flight).(queued := g.queued[1..], taken := g.taken + 1)
  }

  lemma TakeKeeps(s: Sys, g: Book)
    requires Inv(s, g) && s.devAvail != s.availIdx
    ensures g.queued != [] && g.queued[0] in g.req && Inv(DevTake(s), TakeBook(g))
  {
    hide Rest, RingOk, Alike;
    RestSizes(s, g);
    RingPop(s.availRing, g.queued, g.taken, s.devAvail, s.availIdx, Members(g, Queued));
    TakeMembers(s, g);
    hide Members, Moved;
    RestAlike(s, DevTake(s), g, TakeBook(g));
  }

  lemma TakeMembers(s: Sys, g: Book)
    requires Sizes(s) && g.queued != [] && g.queued[0] in Members(g, Queued) && s.devAvail != s.availIdx
    ensures var h, g' := g.queued[0], TakeBook(g);
            && Members(g', Queued) == Members(g, Queued) - {h} && Members(g', Flight) == Members(g, Flight) + {h}
            && Members(g', Used) == Members(g, Used) && Alike(s, DevTake(s), g, g')
  {
    MovedMembers(g, g.queued[0], Flight);
    SameMembers(Moved(g, g.queued[0], Flight), TakeBook(g));
  }

  lemma RestSizes(s: Sys, g: Book)
    requires Rest(s, g)
    ensures Sizes(s)
  {}

  lemma SameMembers(g: Book, g': Book)
    requires g'.req == g.req
    ensures forall x :: Members(g', x) == Members(g, x)
  {}

  // ---------- a request is completed ----------

  /** Only contents, and status bytes, have changed. */
  predicate SameButData(s: Sys, s': Sys)
  {
    && s' == s.(info := s'.info, bufs := s'.bufs, blocks := s'.blocks) && |s'.info| == |s.info| && |s'.bufs| == |s.bufs|
    && (forall i :: 0 <= i < |s.info| ==> s'.info[i].b == s.info[i].b)
    && (forall b :: 0 <= b < |s.bufs| ==> s'.bufs[b] == s.bufs[b].(data := s'.bufs[b].data))
  }

  lemma RestData(s: Sys, s': Sys, g: Book)
    requires Rest(s, g) && SameButData(s, s')
    ensures Rest(s', g)
  {
    hide Partition, AllChains, AllProcs;
    PartitionData(s, s', g);
    ChainsData(s, s', g);
    ProcsData(s, s', g);
    hide Outstanding;
    forall k | k in g.req ensures FlagOk(s', g, k) { assert FlagOk(s, g, k); }
    forall b | 0 <= b < |s'.bufs| && s'.bufs[b].disk ensures Outstanding(g, b) { assert s.bufs[b].disk; }
  }

  lemma ChainsData(s: Sys, s': Sys, g: Book)
    requires Sizes(s) && Sizes(s') && AllChains(s, g) && SameButData(s, s')
    ensures AllChains(s', g)
  {
    forall k | k in g.req ensures ChainOk(s', k, g.req[k]) && Waits(s', k, g.req[k]) { assert ChainOk(s, k, g.req[k]) && Waits(s, k, g.req[k]); }
  }

  lemma ProcsData(s: Sys, s': Sys, g: Book)
    requires Sizes(s) && Sizes(s') && AllProcs(s, g) && SameButData(s, s')
    ensures AllProcs(s', g)
  {
    forall p | 0 <= p < |s'.procs| ensures ProcOk(s', g, p) { assert ProcOk(s, g, p); }
  }

  lemma PartitionData(s: Sys, s': Sys, g: Book)
    requires Sizes(s) && Sizes(s') && Partition(s, g) && s'.free == s.free
    ensures Partition(s', g)
  {}

  /** Serving a request moves the block its process asked for, between the disk and that process's
      buffer, and touches nothing else. */
  lemma ServeIs(s: Sys, g: Book, h: nat, status: int)
    requires Rest(s, g) && h in g.req
    ensures h < NUM && Served(s, Serve(s, h, status), h, g.req[h], status)
    ensures SameButData(s, Serve(s, h, status))
  {
    hide AllProcs, AllFlags, AllOutstanding, Partition;
    assert ChainOk(s, h, g.req[h]);
  }

  predicate Served(s: Sys, s': Sys, h: nat, r: Req, status: int)
    requires h < |s.info| && r.b < |s.bufs|
  {
    var sector := Sector(s.bufs[r.b].blockno);
    && s'.info == s.info[h := s.info[h].(status := status)]
    && (r.write ==> s'.blocks == s.blocks[sector := s.bufs[r.b].data] && s'.bufs == s.bufs)
    && (!r.write ==> s'.blocks == s.blocks)
    && (!r.write ==> s'.bufs == if sector in s.blocks then s.bufs[r.b := s.bufs[r.b].(data := s.blocks[sector])] else s.bufs)
  }

  function CompleteBook(g: Book, h: nat): Book
    requires h in g.req
  {
    Moved(g, h, Used).(used := g.used + [h])
  }

  /** The device completes any of the requests it has taken. */
  lemma CompleteKeeps(s: Sys, g: Book, h: nat, status: int)
    requires Inv(s, g) && h in s.flight
    ensures h in g.req && h < NUM && Inv(DevComplete(s, h, status), CompleteBook(g, h))
  {
    hide Rest, RingOk, Alike, SameButData, Serve, Served;
    assert h in Members(g, Flight);
    RestSizes(s, g);
    ServeIs(s, g, h, status);
    var s1 := Serve(s, h, status);
    RestData(s, s1, g);
    RestSizes(s1, g);
    SameRings(s, s1);
    HeadsBelow(s, g, Used);
    RingPush(s.usedRing, g.used, g.seen, s.usedSeen, s.usedIdx, Members(g, Used), h);
    CompleteMembers(s, s1, g, h, status);
    hide Members, Moved;
    RestAlike(s1, DevComplete(s, h, status), g, CompleteBook(g, h));
  }

  lemma SameRings(s: Sys, s': Sys)
    requires SameButData(s, s')
    ensures s'.availRing == s.availRing && s'.availIdx == s.availIdx && s'.devAvail == s.devAvail && s'.flight == s.flight
    ensures s'.usedRing == s.usedRing && s'.usedIdx == s.usedIdx && s'.usedSeen == s.usedSeen
  {}

  lemma CompleteMembers(s: Sys, s1: Sys, g: Book, h: nat, status: int)
    requires Sizes(s) && Sizes(s1) && h in Members(g, Flight) && h < NUM && s1 == Serve(s, h, status)
    ensures var g' := CompleteBook(g, h);
            && Members(g', Used) == Members(g, Used) + {h} && Members(g', Flight) == Members(g, Flight) - {h}
            && Members(g', Queued) == Members(g, Queued) && Alike(s1, DevComplete(s, h, status), g, g')
  {
    hide Serve;
    MovedMembers(g, h, Used);
    SameMembers(Moved(g, h, Used), CompleteBook(g, h));
  }

  // ---------- the interrupt ----------

  function IntrBook(g: Book): Book
    requires g.used != [] && g.used[0] in g.req
  {
    Moved(g, g.used[0], Finished).(used := g.used[1..], seen := g.seen + 1)
  }

  /** One turn of the interrupt finishes one request: it clears the flag of that request's buffer
      and of no other. It panics only if the device reported an error. */
  lemma IntrKeeps(s: Sys, g: Book)
    requires Inv(s, g) && s.usedSeen != s.usedIdx
    ensures g.used != [] && g.used[0] in g.req && g.used[0] < NUM
    ensures IntrOne(s).Ok? <==> s.info[g.used[0]].status == 0
    ensures IntrOne(s).Ok? ==> Inv(IntrOne(s).value, IntrBook(g)) && Cleared(s, IntrOne(s).value, g.req[g.used[0]].b)
  {
    hide Rest, RingOk;
    RestSizes(s, g);
    RingPop(s.usedRing, g.used, g.seen, s.usedSeen, s.usedIdx, Members(g, Used));
    var h := g.used[0];
    IntrIs(s, g, h);
    if s.info[h].status == 0 {
      MovedMembers(g, h, Finished);
      SameMembers(Moved(g, h, Finished), IntrBook(g));
      hide Members, Moved;
      IntrRest(s, IntrOne(s).value, g, h);
      SameMembers(Moved(g, h, Finished), IntrBook(g));
      RestBook(IntrOne(s).value, Moved(g, h, Finished), IntrBook(g));
    }
  }

  predicate Cleared(s: Sys, s': Sys, b: nat)
    requires b < |s.bufs|
  {
    s'.bufs == s.bufs[b := s.bufs[b].(disk := false)]
  }

  /** The flag of buffer b is cleared, and who waits for it is awake. */
  function Finish(s: Sys, b: nat): Sys
    requires b < |s.bufs|
  {
    s.(bufs := s.bufs[b := s.bufs[b].(disk := false)], procs := Wake(s.procs, OnBuf(b)), usedSeen := (s.usedSeen + 1) % WRAP)
  }

  lemma IntrIs(s: Sys, g: Book, h: nat)
    requires Rest(s, g) && h in g.req && h == s.usedRing[s.usedSeen % NUM]
    ensures h < NUM && g.req[h].b < |s.bufs| && (IntrOne(s).Ok? <==> s.info[h].status == 0)
    ensures IntrOne(s).Ok? ==> IntrOne(s).value == Finish(s, g.req[h].b)
  {
    hide AllProcs, AllFlags, AllOutstanding, Partition, Wake;
    assert ChainOk(s, h, g.req[h]);
  }

  lemma RestBook(s: Sys, g: Book, g': Book)
    requires Rest(s, g) && g'.req == g.req && g'.own == g.own
    ensures Rest(s, g')
  {
    hide Rest;
    RestSizes(s, g);
    RestAlike(s, s, g, g');
  }

  lemma IntrRest(s: Sys, s': Sys, g: Book, h: nat)
    requires Rest(s, g) && h in g.req && g.req[h].stage == Used && g.req[h].b < |s.bufs|
    requires s' == Finish(s, g.req[h].b)
    ensures Rest(s', Moved(g, h, Finished))
  {
    hide Partition, AllChains, AllProcs, AllFlags, AllOutstanding, Wake;
    IntrPartition(s, s', g, h);
    IntrChains(s, s', g, h);
    IntrProcs(s, s', g, h);
    IntrFlags(s, s', g, h);
  }

  lemma IntrPartition(s: Sys, s': Sys, g: Book, h: nat)
    requires Sizes(s) && Sizes(s') && Partition(s, g) && s'.free == s.free && h in g.req
    ensures Partition(s', Moved(g, h, Finished))
  {
    var g' := Moved(g, h, Finished);
    forall i | i in g'.own ensures i < NUM && InChain(g', i) { assert InChain(g, i); }
    forall k | k in g'.req ensures Owned(g', k, g'.req[k]) { assert Owned(g, k, g.req[k]); }
  }

  lemma IntrChains(s: Sys, s': Sys, g: Book, h: nat)
    requires Sizes(s) && Sizes(s') && AllChains(s, g) && h in g.req && g.req[h].b < |s.bufs|
    requires s' == Finish(s, g.req[h].b)
    ensures AllChains(s', Moved(g, h, Finished))
  {
    forall k | k in g.req ensures ChainOk(s', k, Moved(g, h, Finished).req[k]) && Waits(s', k, Moved(g, h, Finished).req[k]) {
      assert ChainOk(s, k, g.req[k]) && Waits(s, k, g.req[k]);
    }
  }

  lemma IntrProcs(s: Sys, s': Sys, g: Book, h: nat)
    requires Sizes(s) && Sizes(s') && AllProcs(s, g) && h in g.req && g.req[h].b < |s.bufs|
    requires s' == Finish(s, g.req[h].b)
    ensures AllProcs(s', Moved(g, h, Finished))
  {
    forall p | 0 <= p < |s'.procs| ensures ProcOk(s', Moved(g, h, Finished), p) { assert ProcOk(s, g, p); }
  }

  lemma IntrFlags(s: Sys, s': Sys, g: Book, h: nat)
    requires AllFlags(s, g) && AllOutstanding(s, g) && h in g.req && g.req[h].stage == Used && g.req[h].b < |s.bufs|
    requires s'.bufs == s.bufs[g.req[h].b := s.bufs[g.req[h].b].(disk := false)]
    ensures AllFlags(s', Moved(g, h, Finished)) && AllOutstanding(s', Moved(g, h, Finished))
  {
    var g' := Moved(g, h, Finished);
    assert FlagOk(s, g, h);
    forall k | k in g'.req ensures FlagOk(s', g', k) { assert FlagOk(s, g, k); }
    forall b | 0 <= b < |s'.bufs| && s'.bufs[b].disk ensures Outstanding(g', b) {
      assert Outstanding(g, b);
      var k :| k in g.req && g.req[k].b == b && g.req[k].stage != Finished;
      assert k in g'.req;
    }
  }

  // ---------- a request is made ----------

  /** Process me is in no request, and awake. */
  predicate MayAsk(s: Sys, me: nat, b: nat)
  {
    me < |s.procs| && b < |s.bufs| && s.procs[me].asleep == NoChan && !s.procs[me].job.WaitBuf?
  }

  function SubmitBook(g: Book, me: nat, b: nat, write: bool, c: Chain): Book
    requires c.Three?
  {
    g.(req := g.req[c.i0 := Req(me, b, write, c.i1, c.i2, Queued)], own := g.own[c.i0 := c.i0][c.i1 := c.i0][c.i2 := c.i0],
       queued := g.queued + [c.i0])
  }

  /** A request keeps everything in order if and only if no other is under way for its buffer. */
  lemma SubmitKeepsIff(s: Sys, g: Book, me: nat, b: nat, write: bool, c: Chain)
    requires Inv(s, g) && MayAsk(s, me, b) && c == Alloc3(s.free) && c.Three?
    ensures Inv(Submit(s, me, b, write, c), SubmitBook(g, me, b, write, c)) <==> !s.bufs[b].disk
  {
    hide Rest, RingOk, Alloc3, Submit, SubmitBook, Members;
    RestSizes(s, g);
    SubmitParts(s, g, me, b, write, c);
    HeadsBelow(s, g, Queued);
    SubmitMembers(s, g, me, b, write, c);
    RingPush(s.availRing, g.queued, g.taken, s.devAvail, s.availIdx, Members(g, Queued), c.i0);
    SubmitFlags(s, g, me, b, write, c);
    SubmitRest(s, g, me, b, write, c);
  }

  /** The chain is new. */
  lemma SubmitParts(s: Sys, g: Book, me: nat, b: nat, write: bool, c: Chain)
    requires Rest(s, g) && c == Alloc3(s.free) && c.Three?
    ensures c.i0 < c.i1 < c.i2 < NUM && c.i0 !in g.own && c.i1 !in g.own && c.i2 !in g.own && c.i0 !in g.req
  {
    hide AllChains, AllProcs, AllFlags, AllOutstanding;
    forall h | h in g.req ensures h in g.own { assert Owned(g, h, g.req[h]); }
  }

  lemma SubmitMembers(s: Sys, g: Book, me: nat, b: nat, write: bool, c: Chain)
    requires Sizes(s) && c.Three? && c.i0 < NUM && c.i1 < NUM && c.i2 < NUM && me < |s.procs| && b < |s.bufs| && c.i0 !in g.req
    ensures var s', g' := Submit(s, me, b, write, c), SubmitBook(g, me, b, write, c);
            && Members(g', Queued) == Members(g, Queued) + {c.i0} && Members(g', Flight) == Members(g, Flight)
            && Members(g', Used) == Members(g, Used) && c.i0 !in Members(g, Queued)
            && g'.queued == g.queued + [c.i0] && g'.taken == g.taken && g'.used == g.used && g'.seen == g.seen
            && s'.availRing == s.availRing[s.availIdx % NUM := c.i0] && s'.availIdx == (s.availIdx + 1) % WRAP
            && s'.devAvail == s.devAvail && s'.flight == s.flight
            && s'.usedRing == s.usedRing && s'.usedIdx == s.usedIdx && s'.usedSeen == s.usedSeen
  {}

  lemma SubmitRest(s: Sys, g: Book, me: nat, b: nat, write: bool, c: Chain)
    requires Rest(s, g) && MayAsk(s, me, b) && c == Alloc3(s.free) && c.Three?
    requires c.i0 < c.i1 < c.i2 < NUM && c.i0 !in g.own && c.i1 !in g.own && c.i2 !in g.own && c.i0 !in g.req
    ensures var s', g' := Submit(s, me, b, write, c), SubmitBook(g, me, b, write, c);
            Rest(s', g') <==> AllFlags(s', g')
  {
    hide Partition, AllChains, AllProcs, AllFlags, AllOutstanding, Alloc3;
    SubmitPartition(s, g, me, b, write, c);
    SubmitSizes(s, me, b, write, c);
    SubmitChains(s, g, me, b, write, c, Submit(s, me, b, write, c), SubmitBook(g, me, b, write, c));
    SubmitProcs(s, g, me, b, write, c);
    SubmitOutstanding(s, g, me, b, write, c);
  }

  lemma SubmitPartition(s: Sys, g: Book, me: nat, b: nat, write: bool, c: Chain)
    requires Sizes(s) && Partition(s, g) && me < |s.procs| && b < |s.bufs| && c.Three?
    requires c.i0 < c.i1 < c.i2 < NUM && c.i0 !in g.own && c.i1 !in g.own && c.i2 !in g.own && c.i0 !in g.req
    ensures Partition(Submit(s, me, b, write, c), SubmitBook(g, me, b, write, c))
  {
    hide Submit;
    var g' := SubmitBook(g, me, b, write, c);
    SubmitFree(s, g, me, b, write, c);
    forall i | i in g'.own ensures i < NUM && InChain(g', i) { if i in g.own { assert InChain(g, i); } }
    forall k | k in g'.req ensures Owned(g', k, g'.req[k]) { if k != c.i0 { assert Owned(g, k, g.req[k]); } }
  }

  lemma SubmitFree(s: Sys, g: Book, me: nat, b: nat, write: bool, c: Chain)
    requires Sizes(s) && Partition(s, g) && me < |s.procs| && b < |s.bufs| && c.Three? && c.i0 < c.i1 < c.i2 < NUM
    ensures var s', g' := Submit(s, me, b, write, c), SubmitBook(g, me, b, write, c);
            Sizes(s') && forall i :: 0 <= i < NUM ==> (s'.free[i] <==> i !in g'.own)
  {
    hide InChain, Owned;
  }

  lemma SubmitChains(s: Sys, g: Book, me: nat, b: nat, write: bool, c: Chain, s': Sys, g': Book)
    requires Sizes(s) && Sizes(s') && MayAsk(s, me, b) && c.Three? && Rest(s, g)
    requires c.i0 < c.i1 < c.i2 < NUM && c.i0 !in g.own && c.i1 !in g.own && c.i2 !in g.own && c.i0 !in g.req
    requires s' == Submit(s, me, b, write, c) && g' == SubmitBook(g, me, b, write, c)
    ensures AllChains(s', g')
  {
    hide Rest, ChainOk, Waits, Submit;
    NewChainOk(s, g, me, b, write, c);
    forall k | k in g.req ensures SubmitChainAt(s, me, b, write, c, k, g.req[k]) {
      ChainsOf(s, g, k);
      OldChainOk(s, g, me, b, write, c, k);
    }
  }

  lemma SubmitSizes(s: Sys, me: nat, b: nat, write: bool, c: Chain)
    requires Sizes(s) && me < |s.procs| && b < |s.bufs| && c.Three? && c.i0 < c.i1 < c.i2 < NUM
    ensures Sizes(Submit(s, me, b, write, c))
  {}

  lemma ChainsOf(s: Sys, g: Book, k: nat)
    requires Rest(s, g) && k in g.req
    ensures ChainOk(s, k, g.req[k]) && Waits(s, k, g.req[k]) && Owned(g, k, g.req[k])
  {
    hide AllProcs, AllFlags, AllOutstanding;
  }

  lemma NewChainOk(s: Sys, g: Book, me: nat, b: nat, write: bool, c: Chain)
    requires Sizes(s) && MayAsk(s, me, b) && c.Three? && c.i0 < c.i1 < c.i2 < NUM
    ensures SubmitChainAt(s, me, b, write, c, c.i0, Req(me, b, write, c.i1, c.i2, Queued))
  {}

  lemma OldChainOk(s: Sys, g: Book, me: nat, b: nat, write: bool, c: Chain, k: nat)
    requires Sizes(s) && MayAsk(s, me, b) && c.Three? && c.i0 < c.i1 < c.i2 < NUM && k in g.req
    requires c.i0 !in g.own && c.i1 !in g.own && c.i2 !in g.own
    requires ChainOk(s, k, g.req[k]) && Waits(s, k, g.req[k]) && Owned(g, k, g.req[k])
    ensures SubmitChainAt(s, me, b, write, c, k, g.req[k])
  {}

  predicate SubmitChainAt(s: Sys, me: nat, b: nat, write: bool, c: Chain, k: nat, r: Req)
    requires Sizes(s) && MayAsk(s, me, b) && c.Three? && c.i0 < c.i1 < c.i2 < NUM
  {
    ChainOk(Submit(s, me, b, write, c), k, r) && Waits(Submit(s, me, b, write, c), k, r)
  }

  lemma SubmitProcs(s: Sys, g: Book, me: nat, b: nat, write: bool, c: Chain)
    requires Sizes(s) && AllProcs(s, g) && MayAsk(s, me, b) && c == Alloc3(s.free) && c.Three? && c.i0 !in g.req
    requires c.i0 < c.i1 < c.i2 < NUM
    ensures AllProcs(Submit(s, me, b, write, c), SubmitBook(g, me, b, write, c))
  {
    hide Alloc3;
    var s', g' := Submit(s, me, b, write, c), SubmitBook(g, me, b, write, c);
    forall p | 0 <= p < |s'.procs| ensures ProcOk(s', g', p) { assert ProcOk(s, g, p); }
  }

  lemma SubmitOutstanding(s: Sys, g: Book, me: nat, b: nat, write: bool, c: Chain)
    requires Sizes(s) && AllOutstanding(s, g) && MayAsk(s, me, b) && c.Three? && c.i0 !in g.req && c.i0 < c.i1 < c.i2 < NUM
    ensures AllOutstanding(Submit(s, me, b, write, c), SubmitBook(g, me, b, write, c))
  {
    var s', g' := Submit(s, me, b, write, c), SubmitBook(g, me, b, write, c);
    forall x | 0 <= x < |s'.bufs| && s'.bufs[x].disk ensures Outstanding(g', x) {
      if x == b {
        assert c.i0 in g'.req && g'.req[c.i0].b == b;
      } else {
        assert Outstanding(g, x);
        var k :| k in g.req && g.req[k].b == x && g.req[k].stage != Finished;
        assert k in g'.req && g'.req[k] == g.req[k];
      }
    }
  }

  /** The flags tell the requests apart if and only if there was none for this buffer. */
  lemma SubmitFlags(s: Sys, g: Book, me: nat, b: nat, write: bool, c: Chain)
    requires Rest(s, g) && MayAsk(s, me, b) && c.Three? && c.i0 !in g.req && c.i0 < c.i1 < c.i2 < NUM
    ensures AllFlags(Submit(s, me, b, write, c), SubmitBook(g, me, b, write, c)) <==> !s.bufs[b].disk
  {
    hide Partition, AllChains, AllProcs;
    var s', g' := Submit(s, me, b, write, c), SubmitBook(g, me, b, write, c);
    if s.bufs[b].disk {
      assert Outstanding(g, b);
      var k :| k in g.req && g.req[k].b == b && g.req[k].stage != Finished;
      assert k in g'.req && g'.req[k] == g.req[k];
      assert !FlagOk(s', g', c.i0);
    } else {
      forall k | k in g'.req ensures FlagOk(s', g', k) {
        if k in g.req { assert FlagOk(s, g, k); }
        forall j | j in g'.req && j != k && g'.req[j].b == g'.req[k].b ensures g'.req[j].stage == Finished || g'.req[k].stage == Finished {
          if j in g.req { assert FlagOk(s, g, j); }
        }
      }
    }
  }

  // ---------- a request is over ----------

  /** The three descriptors of a chain, freed. */
  function FreedChain(s: Sys, h: nat, r: Req): Sys
    requires Sizes(s) && h < NUM && r.i1 < NUM && r.i2 < NUM
  {
    s.(desc := s.desc[h := Desc(Nowhere, 0, 0, 0)][r.i1 := Desc(Nowhere, 0, 0, 0)][r.i2 := Desc(Nowhere, 0, 0, 0)],
       free := s.free[h := true][r.i1 := true][r.i2 := true], procs := Wake(s.procs, OnFree))
  }

  predicate ChainUsed(s: Sys, h: nat, r: Req)
    requires Sizes(s)
  {
    && h < NUM && r.i1 < NUM && r.i2 < NUM && h != r.i1 && h != r.i2 && r.i1 != r.i2
    && !s.free[h] && !s.free[r.i1] && !s.free[r.i2]
    && s.desc[h].flags == NEXT && s.desc[h].next == r.i1
    && s.desc[r.i1].flags % 2 == 1 && s.desc[r.i1].next == r.i2 && s.desc[r.i2].flags == WRITE
  }

  /** free_chain frees exactly the chain, and never comes to a panic. */
  lemma FreeChainIs(s: Sys, h: nat, r: Req)
    requires Sizes(s) && ChainUsed(s, h, r)
    ensures FreeChain(s, h) == Ok(FreedChain(s, h, r))
  {
    var s1 := FreeDesc(s, h).value;
    InUseLess(s.free, h);
    assert FreeChain(s, h) == FreeChain(s1, r.i1);
    var s2 := FreeDesc(s1, r.i1).value;
    InUseLess(s1.free, r.i1);
    assert FreeChain(s1, r.i1) == FreeChain(s2, r.i2);
    var s3 := FreeDesc(s2, r.i2).value;
    InUseLess(s2.free, r.i2);
    assert FreeChain(s2, r.i2) == Ok(s3);
    WakeTwice(s.procs);
    WakeTwice(s1.procs);
  }

  lemma WakeTwice(procs: seq<Proc>)
    ensures Wake(Wake(procs, OnFree), OnFree) == Wake(procs, OnFree)
  {}

  function Released(s: Sys, me: nat, h: nat, r: Req): Sys
    requires Sizes(s) && me < |s.procs| && h < NUM && r.i1 < NUM && r.i2 < NUM
  {
    var s1 := FreedChain(s.(info := s.info[h := s.info[h].(b := NoBuf)]), h, r);
    s1.(procs := s1.procs[me := Proc(NoChan, Idle)])
  }

  lemma ResumedIs(s: Sys, me: nat, b: nat, h: nat, r: Req)
    requires Sizes(s) && me < |s.procs| && s.procs[me].job == WaitBuf(b, h) && b < |s.bufs| && ChainUsed(s, h, r)
    requires !s.bufs[b].disk
    ensures Resumed(s, me) == Ok(Released(s, me, h, r))
  {
    FreeChainIs(s.(info := s.info[h := s.info[h].(b := NoBuf)]), h, r);
    hide FreeChain, Wake;
  }

  function ReleaseBook(g: Book, h: nat): Book
    requires h in g.req
  {
    g.(req := g.req - {h}, own := g.own - {h, g.req[h].i1, g.req[h].i2})
  }

  lemma RequestOf(s: Sys, g: Book, me: nat)
    requires Rest(s, g) && me < |s.procs| && s.procs[me].job.WaitBuf?
    ensures var h := s.procs[me].job.head; h in g.req && g.req[h].me == me && g.req[h].b == s.procs[me].job.b < |s.bufs|
    ensures ChainUsed(s, s.procs[me].job.head, g.req[s.procs[me].job.head])
  {
    assert ProcOk(s, g, me);
    var h := s.procs[me].job.head;
    ChainsOf(s, g, h);
    hide AllProcs, AllFlags, AllOutstanding, AllChains;
  }

  /** Who finds the flag of its buffer clear frees its chain, and its request was finished. */
  lemma ReleaseKeeps(s: Sys, g: Book, me: nat)
    requires Inv(s, g) && me < |s.procs| && s.procs[me].job.WaitBuf? && s.procs[me].asleep == NoChan
    requires s.procs[me].job.b < |s.bufs| && !s.bufs[s.procs[me].job.b].disk
    ensures var h := s.procs[me].job.head;
            h in g.req && g.req[h].stage == Finished && Resumed(s, me).Ok? && Inv(Resumed(s, me).value, ReleaseBook(g, h))
  {
    var h := s.procs[me].job.head;
    RestSizes(s, g);
    RequestOf(s, g, me);
    FinishedIf(s, g, h);
    hide Rest, RingOk, Members, ChainUsed;
    ResumedIs(s, me, s.procs[me].job.b, h, g.req[h]);
    UsedIn(s, h, g.req[h]);
    hide Resumed;
    ReleaseMembers(s, g, me, h);
    ReleaseRest(s, g, me, h, Released(s, me, h, g.req[h]), ReleaseBook(g, h));
  }

  lemma UsedIn(s: Sys, h: nat, r: Req)
    requires Sizes(s) && ChainUsed(s, h, r)
    ensures h < NUM && r.i1 < NUM && r.i2 < NUM
  {}

  lemma FinishedIf(s: Sys, g: Book, h: nat)
    requires Rest(s, g) && h in g.req && g.req[h].b < |s.bufs| && !s.bufs[g.req[h].b].disk
    ensures g.req[h].stage == Finished
  {
    assert FlagOk(s, g, h);
  }

  lemma ReleaseMembers(s: Sys, g: Book, me: nat, h: nat)
    requires Sizes(s) && me < |s.procs| && h in g.req && g.req[h].stage == Finished && h < NUM && g.req[h].i1 < NUM && g.req[h].i2 < NUM
    ensures var s', g' := Released(s, me, h, g.req[h]), ReleaseBook(g, h);
            && Members(g', Queued) == Members(g, Queued) && Members(g', Flight) == Members(g, Flight) && Members(g', Used) == Members(g, Used)
            && s'.availRing == s.availRing && s'.availIdx == s.availIdx && s'.devAvail == s.devAvail && s'.flight == s.flight
            && s'.usedRing == s.usedRing && s'.usedIdx == s.usedIdx && s'.usedSeen == s.usedSeen && Sizes(s')
  {}

  lemma ReleaseRest(s: Sys, g: Book, me: nat, h: nat, s': Sys, g': Book)
    requires Rest(s, g) && me < |s.procs| && h in g.req && g.req[h].stage == Finished && g.req[h].me == me
    requires s.procs[me].job.WaitBuf? && s.procs[me].job.head == h
    requires h < NUM && g.req[h].i1 < NUM && g.req[h].i2 < NUM && Sizes(s')
    requires s' == Released(s, me, h, g.req[h]) && g' == ReleaseBook(g, h)
    ensures Rest(s', g')
  {
    ReleasePartition(s, g, me, h, s', g');
    forall k | k in g'.req ensures ChainOk(s', k, g'.req[k]) && Waits(s', k, g'.req[k]) {
      ChainsOf(s, g, k);
      ChainsOf(s, g, h);
      OtherChain(s, g, me, h, s', k);
    }
    hide Partition, AllChains;
    ReleaseProcs(s, g, me, h, s', g');
    hide AllProcs;
    ReleaseFlags(s, g, me, h, s', g');
    hide AllFlags, AllOutstanding, Released, ReleaseBook, ChainOk, Waits;
    AllChainsOf(s', g');
  }

  lemma AllChainsOf(s: Sys, g: Book)
    requires Sizes(s) && forall k :: k in g.req ==> ChainOk(s, k, g.req[k]) && Waits(s, k, g.req[k])
    ensures AllChains(s, g)
  {}

  lemma ReleasePartition(s: Sys, g: Book, me: nat, h: nat, s': Sys, g': Book)
    requires Sizes(s) && Sizes(s') && Partition(s, g) && me < |s.procs| && h in g.req
    requires h < NUM && g.req[h].i1 < NUM && g.req[h].i2 < NUM
    requires s' == Released(s, me, h, g.req[h]) && g' == ReleaseBook(g, h)
    ensures Partition(s', g')
  {
    assert Owned(g, h, g.req[h]);
    forall k | k in g'.req ensures Owned(g', k, g'.req[k]) { assert Owned(g, k, g.req[k]); }
    forall i | i in g'.own ensures i < NUM && InChain(g', i) { assert InChain(g, i); }
    hide InChain, Owned;
  }

  /** The chain of another request is untouched. */
  lemma OtherChain(s: Sys, g: Book, me: nat, h: nat, s': Sys, k: nat)
    requires Sizes(s) && Sizes(s') && me < |s.procs| && h in g.req && k in g.req && k != h && g.req[h].me == me
    requires ChainOk(s, k, g.req[k]) && Waits(s, k, g.req[k]) && Owned(g, k, g.req[k])
    requires ChainOk(s, h, g.req[h]) && Owned(g, h, g.req[h]) && s.procs[me].job.WaitBuf? && s.procs[me].job.head == h
    requires s' == Released(s, me, h, g.req[h])
    ensures ChainOk(s', k, g.req[k]) && Waits(s', k, g.req[k])
  {}

  lemma ReleaseProcs(s: Sys, g: Book, me: nat, h: nat, s': Sys, g': Book)
    requires Sizes(s) && Sizes(s') && AllProcs(s, g) && me < |s.procs| && h in g.req && g.req[h].me == me
    requires h < NUM && g.req[h].i1 < NUM && g.req[h].i2 < NUM
    requires s' == Released(s, me, h, g.req[h]) && g' == ReleaseBook(g, h)
    ensures AllProcs(s', g')
  {
    hide Alloc3;
    forall p | 0 <= p < |s'.procs| ensures ProcOk(s', g', p) { assert ProcOk(s, g, p); }
  }

  lemma ReleaseFlags(s: Sys, g: Book, me: nat, h: nat, s': Sys, g': Book)
    requires Sizes(s) && AllFlags(s, g) && AllOutstanding(s, g) && me < |s.procs| && h in g.req && g.req[h].stage == Finished
    requires s'.bufs == s.bufs && g' == ReleaseBook(g, h)
    ensures AllFlags(s', g') && AllOutstanding(s', g')
  {
    forall k | k in g'.req ensures FlagOk(s', g', k) { assert FlagOk(s, g, k); }
    forall x | 0 <= x < |s'.bufs| && s'.bufs[x].disk ensures Outstanding(g', x) {
      assert Outstanding(g, x);
      var k :| k in g.req && g.req[k].b == x && g.req[k].stage != Finished;
      assert k in g'.req && g'.req[k] == g.req[k];
    }
  }

  // ---------- falling asleep and waking up ----------

  lemma ProcsOnly(s: Sys, s': Sys, g: Book)
    requires Inv(s, g) && s' == s.(procs := s'.procs) && |s'.procs| == |s.procs|
    requires forall p :: 0 <= p < |s.procs| ==> s'.procs[p] == s.procs[p] || (ProcOk(s', g, p) && (s.procs[p].job.WaitBuf? ==> s'.procs[p].job == s.procs[p].job))
    ensures Inv(s', g)
  {
    hide RingOk, Alloc3, Members, Partition, AllChains, AllFlags, AllOutstanding;
    PartitionData(s, s', g);
    ChainsProcs(s, s', g);
    FlagsProcs(s, s', g);
    forall p | 0 <= p < |s'.procs| ensures ProcOk(s', g, p) { assert ProcOk(s, g, p); }
  }

  lemma ChainsProcs(s: Sys, s': Sys, g: Book)
    requires Sizes(s) && Sizes(s') && AllChains(s, g) && s' == s.(procs := s'.procs) && |s'.procs| == |s.procs|
    requires forall p :: 0 <= p < |s.procs| && s.procs[p].job.WaitBuf? ==> s'.procs[p].job == s.procs[p].job
    ensures AllChains(s', g)
  {
    forall k | k in g.req ensures ChainOk(s', k, g.req[k]) && Waits(s', k, g.req[k]) { assert ChainOk(s, k, g.req[k]) && Waits(s, k, g.req[k]); }
  }

  lemma FlagsProcs(s: Sys, s': Sys, g: Book)
    requires AllFlags(s, g) && AllOutstanding(s, g) && s'.bufs == s.bufs
    ensures AllFlags(s', g) && AllOutstanding(s', g)
  {
    forall k | k in g.req ensures FlagOk(s', g, k) { FlagSame(s, s', g, k); }
  }

  lemma FlagSame(s: Sys, s': Sys, g: Book, k: nat)
    requires k in g.req && FlagOk(s, g, k) && s'.bufs == s.bufs
    ensures FlagOk(s', g, k)
  {}

  // ---------- runs ----------

  datatype Step = Ask(me: nat, b: nat, write: bool) | GoOn(me: nat) | Take | Complete(h: nat, status: int) | Interrupt | Nudge(me: nat)

  predicate Enabled(s: Sys, step: Step)
    requires Sizes(s)
  {
    match step
    case Ask(me, b, _) => me < |s.procs| && b < |s.bufs| && s.procs[me] == Proc(NoChan, Idle)
    case GoOn(me) => me < |s.procs| && s.procs[me].asleep == NoChan && !s.procs[me].job.Idle?
    case Take => s.devAvail != s.availIdx
    case Complete(h, _) => h in s.flight && h < NUM
    case Interrupt => s.usedSeen != s.usedIdx
    case Nudge(me) => me < |s.procs|
  }

  /** A step of a process, of the device or of the interrupt; Nudge wakes a process for no reason. */
  function Next(s: Sys, step: Step): Result<Sys>
    requires Sizes(s) && Enabled(s, step)
  {
    match step
    case Ask(me, b, write) => Ok(Request(s, me, b, write))
    case GoOn(me) => Resumed(s, me)
    case Take => Ok(DevTake(s))
    case Complete(h, status) => Ok(DevComplete(s, h, status))
    case Interrupt => IntrOne(s)
    case Nudge(me) => Ok(s.(procs := s.procs[me := s.procs[me].(asleep := NoChan)]))
  }

  /** No request is made for a buffer that has one under way, and the device reports no error. */
  predicate Careful(s: Sys, step: Step)
    requires Sizes(s) && Enabled(s, step)
  {
    match step
    case Ask(_, b, _) => !s.bufs[b].disk
    case GoOn(me) => s.procs[me].job.WaitDesc? && s.procs[me].job.b < |s.bufs| ==> !s.bufs[s.procs[me].job.b].disk
    case Interrupt => s.usedRing[s.usedSeen % NUM] < NUM ==> s.info[s.usedRing[s.usedSeen % NUM]].status == 0
    case _ => true
  }

  lemma RequestKeeps(s: Sys, g: Book, me: nat, b: nat, write: bool)
    requires Inv(s, g) && Sizes(s) && MayAsk(s, me, b) && !s.bufs[b].disk
    ensures exists g' :: Inv(Request(s, me, b, write), g')
  {
    var c := Alloc3(s.free);
    if c.Three? {
      SubmitKeepsIff(s, g, me, b, write, c);
      hide Inv, Submit, SubmitBook;
      assert Request(s, me, b, write) == Submit(s, me, b, write, c);
      assert Inv(Request(s, me, b, write), SubmitBook(g, me, b, write, c));
    } else {
      AsleepKeeps(s, g, me, b, write);
      assert Inv(Request(s, me, b, write), g);
    }
  }

  lemma AsleepKeeps(s: Sys, g: Book, me: nat, b: nat, write: bool)
    requires Inv(s, g) && Sizes(s) && MayAsk(s, me, b) && Alloc3(s.free).NoChain?
    ensures Inv(Request(s, me, b, write), g)
  {
    hide Inv, Alloc3;
    ProcsOnly(s, Request(s, me, b, write), g);
  }

  /** Every step keeps the invariant, and none panics. */
  lemma StepKeeps(s: Sys, g: Book, step: Step)
    requires Inv(s, g) && Enabled(s, step) && Careful(s, step)
    ensures Next(s, step).Ok? && exists g' :: Inv(Next(s, step).value, g')
  {
    hide Rest, RingOk, Request, Resumed, IntrOne, DevTake, DevComplete, Members;
    RestSizes(s, g);
    match step
    case Ask(me, b, write) => RequestKeeps(s, g, me, b, write);
    case GoOn(me) => GoOnKeeps(s, g, me);
    case Take => TakeKeeps(s, g);
    case Complete(h, status) => CompleteKeeps(s, g, h, status);
    case Interrupt => IntrKeeps(s, g); RingPop(s.usedRing, g.used, g.seen, s.usedSeen, s.usedIdx, Members(g, Used));
    case Nudge(me) => NudgeKeeps(s, g, me);
  }

  lemma NudgeKeeps(s: Sys, g: Book, me: nat)
    requires Inv(s, g) && me < |s.procs|
    ensures Inv(s.(procs := s.procs[me := s.procs[me].(asleep := NoChan)]), g)
  {
    assert ProcOk(s, g, me);
    hide Inv;
    ProcsOnly(s, s.(procs := s.procs[me := s.procs[me].(asleep := NoChan)]), g);
  }

  lemma GoOnKeeps(s: Sys, g: Book, me: nat)
    requires Inv(s, g) && Sizes(s) && Enabled(s, GoOn(me)) && Careful(s, GoOn(me))
    ensures Resumed(s, me).Ok? && exists g' :: Inv(Resumed(s, me).value, g')
  {
    assert ProcOk(s, g, me);
    var job := s.procs[me].job;
    if job.WaitDesc? {
      RequestKeeps(s, g, me, job.b, job.write);
    } else {
      RequestOf(s, g, me);
      if s.bufs[job.b].disk {
        AgainKeeps(s, g, me);
      } else {
        ReleaseKeeps(s, g, me);
      }
    }
  }

  lemma AgainKeeps(s: Sys, g: Book, me: nat)
    requires Inv(s, g) && Sizes(s) && me < |s.procs| && s.procs[me].job.WaitBuf? && s.procs[me].job.b < |s.bufs|
    requires s.bufs[s.procs[me].job.b].disk && s.procs[me].job.head < NUM
    ensures Resumed(s, me).Ok? && Inv(Resumed(s, me).value, g)
  {
    assert ProcOk(s, g, me);
    AgainIs(s, me);
    hide Inv, Resumed;
    ProcsOnly(s, Resumed(s, me).value, g);
  }

  lemma AgainIs(s: Sys, me: nat)
    requires Sizes(s) && me < |s.procs| && s.procs[me].job.WaitBuf? && s.procs[me].job.b < |s.bufs|
    requires s.bufs[s.procs[me].job.b].disk && s.procs[me].job.head < NUM
    ensures Resumed(s, me) == Ok(s.(procs := s.procs[me := s.procs[me].(asleep := OnBuf(s.procs[me].job.b))]))
  {
  }

  predicate Runs(s: Sys, steps: seq<Step>)
    decreases |steps|
  {
    steps == [] || (Sizes(s) && Enabled(s, steps[0]) && Careful(s, steps[0]) && Next(s, steps[0]).Ok? && Runs(Next(s, steps[0]).value, steps[1..]))
  }

  function After(s: Sys, steps: seq<Step>): Sys
    requires Runs(s, steps)
    decreases |steps|
  {
    if steps == [] then s else After(Next(s, steps[0]).value, steps[1..])
  }

  /** In every state that a run comes to the descriptors are partitioned, the rings agree, nobody
      sleeps for nothing, and any further step is possible without a panic. */
  lemma {:induction false} RunKeeps(s: Sys, g: Book, steps: seq<Step>)
    requires Inv(s, g) && Runs(s, steps)
    ensures exists g' :: Inv(After(s, steps), g')
    decreases |steps|
  {
    hide Inv, Next, Enabled, Careful;
    if steps != [] {
      StepKeeps(s, g, steps[0]);
      var g' :| Inv(Next(s, steps[0]).value, g');
      RunKeeps(Next(s, steps[0]).value, g', steps[1..]);
      assert After(s, steps) == After(Next(s, steps[0]).value, steps[1..]);
    } else {
      assert Inv(After(s, steps), g);
    }
  }

  /** The queue as virtio_disk_init leaves it. */
  lemma StartInv(s: Sys)
    requires Started(s)
    ensures Inv(s, Book(map[], map[], [], 0, [], 0))
  {
    hide Alloc3;
  }

  /** A chain in flight is freed by a process that finds the flag of its buffer clear. */
  lemma ReleasedInFlight(s: Sys, me: nat, b: nat, h: nat, r: Req)
    requires Sizes(s) && me < |s.procs| && s.procs[me] == Proc(NoChan, WaitBuf(b, h)) && b < |s.bufs| && ChainUsed(s, h, r)
    requires h in s.flight && !s.bufs[b].disk
    ensures var v := Resumed(s, me); v.Ok? && Sizes(v.value) && v.value.free[h] && h in v.value.flight
  {
    ResumedIs(s, me, b, h, r);
  }

  /** Steps that need not be careful. */
  predicate Goes(s: Sys, steps: seq<Step>)
    decreases |steps|
  {
    steps == [] || (Sizes(s) && Enabled(s, steps[0]) && Next(s, steps[0]).Ok? && Goes(Next(s, steps[0]).value, steps[1..]))
  }

  function Reached(s: Sys, steps: seq<Step>): Sys
    requires Goes(s, steps)
    decreases |steps|
  {
    if steps == [] then s else Reached(Next(s, steps[0]).value, steps[1..])
  }

  predicate Started(s: Sys)
  {
    && Sizes(s) && (forall i :: 0 <= i < NUM ==> s.free[i]) && s.flight == {}
    && s.availIdx == 0 && s.devAvail == 0 && s.usedIdx == 0 && s.usedSeen == 0
    && (forall b :: 0 <= b < |s.bufs| ==> !s.bufs[b].disk) && forall p :: 0 <= p < |s.procs| ==> s.procs[p] == Proc(NoChan, Idle)
  }

  /** Process me waits for its request for b, whose chain is h, h + 1 and h + 2. */
  predicate Asked(s: Sys, me: nat, b: nat, h: nat, write: bool)
  {
    && Sizes(s) && me < |s.procs| && s.procs[me] == Proc(OnBuf(b), WaitBuf(b, h)) && b < |s.bufs| && h + 2 < NUM
    && ChainUsed(s, h, Req(me, b, write, h + 1, h + 2, Flight)) && s.info[h] == Info(BufAt(b), 0)
    && s.desc[h].addr == ReqAt(h) && s.desc[h + 1].addr == DataOf(b) && s.desc[h + 2].addr == StatusOf(h)
  }

  lemma FirstAsked(s: Sys, b: nat, write: bool)
    requires Started(s) && |s.procs| > 1 && b < |s.bufs|
    ensures var s1 := Request(s, 0, b, write);
            && Asked(s1, 0, b, 0, write) && s1.procs[1] == Proc(NoChan, Idle) && |s1.procs| > 1 && s1.flight == {}
            && s1.availIdx == 1 && s1.devAvail == s1.usedIdx == s1.usedSeen == 0 && s1.availRing[0] == 0
            && forall i :: 0 <= i < NUM ==> (s1.free[i] <==> i >= 3)
  {
    assert Alloc3(s.free) == Three(0, 1, 2);
  }

  lemma SecondAsked(s: Sys, b: nat, w0: bool, write: bool)
    requires Asked(s, 0, b, 0, w0) && |s.procs| > 1 && s.procs[1] == Proc(NoChan, Idle) && s.flight == {}
    requires s.availIdx == 1 && s.devAvail == s.usedIdx == s.usedSeen == 0 && s.availRing[0] == 0
    requires forall i :: 0 <= i < NUM ==> (s.free[i] <==> i >= 3)
    ensures var s1 := Request(s, 1, b, write);
            && Asked(s1, 0, b, 0, w0) && Asked(s1, 1, b, 3, write) && s1.flight == {}
            && s1.availIdx == 2 && s1.devAvail == s1.usedIdx == s1.usedSeen == 0 && s1.availRing[0] == 0 && s1.availRing[1] == 3
  {
    assert Alloc3(s.free) == Three(3, 4, 5);
  }

  lemma CompletedFirst(s: Sys, b: nat, w0: bool, w1: bool)
    requires Asked(s, 0, b, 0, w0) && Asked(s, 1, b, 3, w1) && s.flight == {0, 3} && s.usedIdx == s.usedSeen == 0
    ensures var s5 := DevComplete(s, 0, 0);
            && Sizes(s5) && s5.usedSeen != s5.usedIdx && IntrOne(s5).Ok?
            && var s6 := IntrOne(s5).value;
               && Sizes(s6) && |s6.procs| > 1 && s6.procs[1] == Proc(NoChan, WaitBuf(b, 3)) && b < |s6.bufs|
               && !s6.bufs[b].disk && s6.flight == {3} && ChainUsed(s6, 3, Req(1, b, w1, 4, 5, Flight))
  {
    var s1 := Serve(s, 0, 0);
    assert s1.info[0] == Info(BufAt(b), 0) && |s1.bufs| == |s.bufs| && s1.procs == s.procs && s1.desc == s.desc && s1.free == s.free;
  }

  lemma GoesOne(s: Sys, step: Step, rest: seq<Step>, steps: seq<Step>)
    requires Sizes(s) && Enabled(s, step) && Next(s, step).Ok? && Goes(Next(s, step).value, rest) && steps == [step] + rest
    ensures Goes(s, steps) && Reached(s, steps) == Reached(Next(s, step).value, rest)
  {
    assert steps[1..] == rest;
  }

  /** Two requests for one buffer: once the first is finished, the process of the second frees the
      chain that the device still works on. */
  lemma FreedInFlight(s: Sys, b: nat, w0: bool, w1: bool)
    requires Started(s) && |s.procs| > 1 && b < |s.bufs|
    ensures var steps := [Ask(0, b, w0), Ask(1, b, w1), Take, Take, Complete(0, 0), Interrupt, GoOn(1)];
            Goes(s, steps) && var r := Reached(s, steps); Sizes(r) && r.free[3] && 3 in r.flight
  {
    hide Request, Resumed, ChainUsed, DevComplete, IntrOne, Asked, Goes, Reached, Started;
    AskedIs(s, b, w0, w1);
    var s1 := Request(s, 0, b, w0);
    var s2 := Request(s1, 1, b, w1);
    var s3 := DevTake(s2);
    var s4 := DevTake(s3);
    CompletedFirst(s4, b, w0, w1);
    var s5 := DevComplete(s4, 0, 0);
    var s6 := IntrOne(s5).value;
    ReleasedInFlight(s6, 1, b, 3, Req(1, b, w1, 4, 5, Flight));
    var s7 := Resumed(s6, 1).value;
    GoesNone(s7);
    var t1, t2, t3 := [GoOn(1)], [Interrupt, GoOn(1)], [Complete(0, 0), Interrupt, GoOn(1)];
    var t4, t5 := [Take, Complete(0, 0), Interrupt, GoOn(1)], [Take, Take, Complete(0, 0), Interrupt, GoOn(1)];
    var t6 := [Ask(1, b, w1), Take, Take, Complete(0, 0), Interrupt, GoOn(1)];
    GoesOne(s6, GoOn(1), [], t1);
    GoesOne(s5, Interrupt, t1, t2);
    GoesOne(s4, Complete(0, 0), t2, t3);
    GoesOne(s3, Take, t3, t4);
    GoesOne(s2, Take, t4, t5);
    GoesOne(s1, Ask(1, b, w1), t5, t6);
    GoesOne(s, Ask(0, b, w0), t6, [Ask(0, b, w0), Ask(1, b, w1), Take, Take, Complete(0, 0), Interrupt, GoOn(1)]);
  }

  lemma GoesNone(s: Sys)
    ensures Goes(s, []) && Reached(s, []) == s
  {}

  /** Both requests are made and taken. */
  lemma AskedIs(s: Sys, b: nat, w0: bool, w1: bool)
    requires Started(s) && |s.procs| > 1 && b < |s.bufs|
    ensures Sizes(s) && s.procs[0] == Proc(NoChan, Idle) && var s1 := Request(s, 0, b, w0);
            && Sizes(s1) && |s1.procs| > 1 && b < |s1.bufs| && s1.procs[1] == Proc(NoChan, Idle) && var s2 := Request(s1, 1, b, w1);
               && Sizes(s2) && s2.devAvail != s2.availIdx && var s3 := DevTake(s2);
                  && Sizes(s3) && s3.devAvail != s3.availIdx && var s4 := DevTake(s3);
                     && Asked(s4, 0, b, 0, w0) && Asked(s4, 1, b, 3, w1) && s4.flight == {0, 3} && s4.usedIdx == s4.usedSeen == 0
  {
    hide Request, ChainUsed;
    FirstAsked(s, b, w0);
    SecondAsked(Request(s, 0, b, w0), b, w0, w1);
    AskedSame(Request(Request(s, 0, b, w0), 1, b, w1), 0, b, 0, w0);
    AskedSame(Request(Request(s, 0, b, w0), 1, b, w1), 1, b, 3, w1);
  }

  lemma AskedSame(s: Sys, me: nat, b: nat, h: nat, write: bool)
    requires Asked(s, me, b, h, write)
    ensures forall flight, dev :: Asked(s.(flight := flight, devAvail := dev), me, b, h, write)
  {}
}
