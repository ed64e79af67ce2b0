/** The buffer cache of kernel/fs/bio.c:50-188: a ring of buffers in the order of their last
    release, through which the blocks of the disk are read and written. */
module BufferCache {
  import opened FsBlock
  import opened Counting

  /** A buffer: what it holds, and how many use it. */
  datatype Buf = Buf(dev: nat, blockno: nat, valid: bool, refcnt: nat, data: Block)

  // ---------- the ring ----------

  /** Neighbours in c are linked both ways. */
  predicate Linked(next: seq<nat>, prev: seq<nat>, c: seq<nat>)
  {
    && |next| == |prev| && (forall i :: 0 <= i < |c| ==> c[i] < |next|)
    && forall i :: 0 <= i < |c| - 1 ==> next[c[i]] == c[i + 1] && prev[c[i + 1]] == c[i]
  }

  /** No element comes twice, but for the first and the last, which are the same. */
  predicate Circular(c: seq<nat>)
  {
    && |c| >= 2 && c[0] == c[|c| - 1]
    && forall i, j :: 0 <= i < j < |c| && !(i == 0 && j == |c| - 1) ==> c[i] != c[j]
  }

  /** The ring through the list head n, in the order o. */
  function Circle(n: nat, o: seq<nat>): seq<nat>
  {
    [n] + o + [n]
  }

  /** Taking out the element at i. */
  lemma UnlinkKeeps(next: seq<nat>, prev: seq<nat>, c: seq<nat>, i: nat)
    requires Linked(next, prev, c) && Circular(c) && 0 < i < |c| - 1
    ensures prev[c[i]] == c[i - 1] && next[c[i]] == c[i + 1]
    ensures var next', prev' := next[c[i - 1] := c[i + 1]], prev[c[i + 1] := c[i - 1]];
            Linked(next', prev', c[.. i] + c[i + 1 ..]) && Circular(c[.. i] + c[i + 1 ..])
  {
    var next', prev' := next[c[i - 1] := c[i + 1]], prev[c[i + 1] := c[i - 1]];
    var d := c[.. i] + c[i + 1 ..];
    assert next[c[i]] == c[i + 1] && prev[c[(i - 1) + 1]] == c[i - 1];
    forall k | 0 <= k < |d| - 1 ensures next'[d[k]] == d[k + 1] && prev'[d[k + 1]] == d[k] {
      if k < i - 1 {
        assert d[k] == c[k] && d[k + 1] == c[k + 1];
      } else if k == i - 1 {
        assert d[k] == c[i - 1] && d[k + 1] == c[i + 1];
      } else {
        assert d[k] == c[k + 1] && d[k + 1] == c[k + 2] && next[c[k + 1]] == c[k + 2];
      }
    }
  }

  /** Putting b behind the list head. */
  lemma LinkKeeps(next: seq<nat>, prev: seq<nat>, c: seq<nat>, b: nat)
    requires Linked(next, prev, c) && Circular(c) && b < |next| && b !in c
    ensures var n, f := c[0], next[c[0]];
            f == c[1] && Linked(next[b := f][n := b], prev[f := b][b := n], [n, b] + c[1..]) && Circular([n, b] + c[1..])
  {
    var n, f := c[0], next[c[0]];
    assert next[c[0]] == c[0 + 1];
    var d := [n, b] + c[1..];
    var next', prev' := next[b := f][n := b], prev[f := b][b := n];
    forall k | 0 <= k < |d| - 1 ensures next'[d[k]] == d[k + 1] && prev'[d[k + 1]] == d[k] {
      if k >= 2 {
        assert d[k] == c[k - 1] && d[k + 1] == c[(k - 1) + 1];
        assert next[c[k - 1]] == c[(k - 1) + 1] && prev[c[(k - 1) + 1]] == c[k - 1];
        assert c[k - 1] != c[0] && (k < |c| - 1 ==> c[k] != c[1]);
      } else if k == 1 {
        assert d[2] == c[1];
      }
    }
  }

  /** The ring of the n buffers, in the order o, through the list head n. */
  predicate Ring(next: seq<nat>, prev: seq<nat>, o: seq<nat>, n: nat)
  {
    && |next| == n + 1 && Linked(next, prev, Circle(n, o)) && Circular(Circle(n, o)) && Within(o, n)
  }

  predicate Within(o: seq<nat>, n: nat)
  {
    forall k :: 0 <= k < |o| ==> o[k] < n
  }

  /** All buffers are in the order. */
  lemma {:induction false} AllIn(o: seq<nat>, n: nat, b: nat)
    requires Within(o, n) && |o| == n && b < n
    requires forall i, j :: 0 <= i < j < |o| ==> o[i] != o[j]
    ensures b in o
  {
    if b !in o { Fewer(o, n, b); }
  }

  /** Distinct numbers below n, without b, are fewer than n. */
  lemma {:induction false} Fewer(o: seq<nat>, n: nat, b: nat)
    requires Within(o, n) && b < n && b !in o
    requires forall i, j :: 0 <= i < j < |o| ==> o[i] != o[j]
    ensures |o| < n
    decreases n
  {
    if b == n - 1 {
      forall k | 0 <= k < |o| ensures o[k] < n - 1 { assert o[k] in o; }
      Pigeonhole(o, n - 1);
    } else if n - 1 in o {
      var i :| 0 <= i < |o| && o[i] == n - 1;
      var p := o[.. i] + o[i + 1 ..];
      forall k | 0 <= k < |p| ensures p[k] == o[if k < i then k else k + 1] {}
      Fewer(p, n - 1, b);
    } else {
      Fewer(o, n - 1, b);
    }
  }

  // ---------- the invariants ----------

  const DEV := 1     // ROOTDEV: the one disk

  predicate Holds(b: Buf, dev: nat, blockno: nat)
  {
    b.dev == dev && b.blockno == blockno
  }

  /** The order is that of the last release, the latest first. */
  predicate Stamped(o: seq<nat>, stamp: seq<nat>, now: nat, n: nat)
  {
    && |stamp| == n == |o| && Within(o, n)
    && (forall i, j :: 0 <= i < j < |o| ==> stamp[o[i]] > stamp[o[j]])
    && (forall b :: 0 <= b < n ==> stamp[b] < now)
  }

  /** dirty are the buffers that their holder changed and has not written back, and reading those
      whose bytes are still on their way from the disk, though bread has marked them valid. Any
      other valid buffer equals its block. */
  predicate Fresh(b: Buf, disk: seq<Block>, isDirty: bool, isReading: bool)
  {
    && (b.dev != 0 ==> b.dev == DEV && b.blockno < |disk|)
    && (b.valid ==> b.dev == DEV && b.blockno < |disk|)
    && (b.valid && !isDirty && !isReading ==> b.data == disk[b.blockno])
    && (isDirty || isReading ==> b.refcnt > 0 && b.valid)
  }

  ghost predicate Coherent(bufs: seq<Buf>, disk: seq<Block>, dirty: set<nat>, reading: set<nat>)
  {
    && (forall b :: 0 <= b < |bufs| ==> Fresh(bufs[b], disk, b in dirty, b in reading))
    && (forall b, c :: 0 <= b < c < |bufs| && bufs[b].dev != 0 ==> !Holds(bufs[c], bufs[b].dev, bufs[b].blockno))
  }

  /** What a process finds in a valid buffer that nobody changed is bound to be on the disk if and
      only if no read into it is under way: during one, the disk may hold anything. */
  lemma TrustedIff(bufs: seq<Buf>, disk: seq<Block>, dirty: set<nat>, reading: set<nat>, b: nat)
    requires Coherent(bufs, disk, dirty, reading) && b < |bufs| && bufs[b].valid && b !in dirty
    ensures bufs[b].blockno < |disk|
    ensures b !in reading <==>
      forall disk' :: |disk'| == |disk| && Coherent(bufs, disk', dirty, reading) ==> bufs[b].data == disk'[bufs[b].blockno]
  {
    assert Fresh(bufs[b], disk, b in dirty, b in reading);
    if b in reading {
      var other := Other(bufs[b].data);
      var disk' := disk[bufs[b].blockno := other];
      WrittenElse(bufs, disk, dirty, reading, b, other);
      assert bufs[b].data != disk'[bufs[b].blockno];
    } else {
      forall disk' | |disk'| == |disk| && Coherent(bufs, disk', dirty, reading)
        ensures bufs[b].data == disk'[bufs[b].blockno]
      {
        assert Fresh(bufs[b], disk', b in dirty, b in reading);
      }
    }
  }

  /** A block with other bytes. */
  function Other(data: Block): (r: Block)
    ensures r != data
  {
    var r := data[0 := if data[0] == 0 then 1 else 0];
    assert r[0] != data[0];
    r
  }

  /** Only one buffer holds the block of b, so no other notices when it changes on the disk. */
  lemma WrittenElse(bufs: seq<Buf>, disk: seq<Block>, dirty: set<nat>, reading: set<nat>, b: nat, data: Block)
    requires Coherent(bufs, disk, dirty, reading) && b < |bufs| && bufs[b].valid && bufs[b].blockno < |disk|
    requires b in dirty || b in reading || data == bufs[b].data
    ensures Coherent(bufs, disk[bufs[b].blockno := data], dirty, reading)
  {
    assert Fresh(bufs[b], disk, b in dirty, b in reading);
    forall c | 0 <= c < |bufs| ensures Fresh(bufs[c], disk[bufs[b].blockno := data], c in dirty, c in reading) {
      assert Fresh(bufs[c], disk, c in dirty, c in reading);
      if c < b && bufs[c].dev != 0 { assert !Holds(bufs[b], bufs[c].dev, bufs[c].blockno); }
      if b < c { assert !Holds(bufs[c], bufs[b].dev, bufs[b].blockno); }
    }
  }

  /** The victim of bget: unreferenced, and released before every other unreferenced buffer. */
  ghost predicate Oldest(bufs: seq<Buf>, stamp: seq<nat>, b: nat)
  {
    && |stamp| == |bufs| && b < |bufs| && bufs[b].refcnt == 0
    && forall c :: 0 <= c < |bufs| && c != b && bufs[c].refcnt == 0 ==> stamp[b] < stamp[c]
  }

  lemma OldestIs(bufs: seq<Buf>, o: seq<nat>, stamp: seq<nat>, now: nat, k: nat)
    requires Stamped(o, stamp, now, |bufs|) && k < |o| && bufs[o[k]].refcnt == 0
    requires forall j :: k < j < |o| ==> bufs[o[j]].refcnt > 0
    ensures Oldest(bufs, stamp, o[k])
  {
    forall c | 0 <= c < |bufs| && c != o[k] && bufs[c].refcnt == 0 ensures stamp[o[k]] < stamp[c] {
      AllIn(o, |bufs|, c);
      var j :| 0 <= j < |o| && o[j] == c;
      assert j <= k;
    }
  }

  /** What bget does to the buffers: another reference to the one that holds the block, or the
      oldest unreferenced one given to the block if there is none. */
  ghost predicate Got(bufs: seq<Buf>, bufs': seq<Buf>, stamp: seq<nat>, dev: nat, blockno: nat, b: nat)
  {
    && b < |bufs|
    && if exists c :: 0 <= c < |bufs| && Holds(bufs[c], dev, blockno)
       then Holds(bufs[b], dev, blockno) && bufs' == bufs[b := bufs[b].(refcnt := bufs[b].refcnt + 1)]
       else Oldest(bufs, stamp, b) && bufs' == bufs[b := Buf(dev, blockno, false, 1, bufs[b].data)]
  }

  /** bget's panic: every buffer is in use, and none for this block. */
  ghost predicate AllTaken(bufs: seq<Buf>, dev: nat, blockno: nat)
  {
    forall c :: 0 <= c < |bufs| ==> bufs[c].refcnt > 0 && !Holds(bufs[c], dev, blockno)
  }

  lemma GotKeeps(bufs: seq<Buf>, bufs': seq<Buf>, stamp: seq<nat>, disk: seq<Block>, dirty: set<nat>, reading: set<nat>, dev: nat, blockno: nat, b: nat)
    requires Coherent(bufs, disk, dirty, reading) && Got(bufs, bufs', stamp, dev, blockno, b) && dev == DEV && blockno < |disk|
    ensures Coherent(bufs', disk, dirty, reading) && |bufs'| == |bufs| && Holds(bufs'[b], dev, blockno) && bufs'[b].refcnt > 0
  {
    forall c | 0 <= c < |bufs'| ensures Fresh(bufs'[c], disk, c in dirty, c in reading) { assert Fresh(bufs[c], disk, c in dirty, c in reading); }
  }

  // ---------- moving a buffer to the front ----------

  /** The order with the element at i moved to the front. */
  function Front(o: seq<nat>, i: nat): seq<nat>
    requires i < |o|
  {
    [o[i]] + o[.. i] + o[i + 1 ..]
  }

  lemma FrontStamped(o: seq<nat>, stamp: seq<nat>, now: nat, n: nat, i: nat)
    requires Stamped(o, stamp, now, n) && i < |o|
    ensures Stamped(Front(o, i), stamp[o[i] := now], now + 1, n)
  {
    var f := Front(o, i);
    forall k | 0 < k < |f| ensures f[k] == if k <= i then o[k - 1] else o[k] {}
    forall x, y | 0 <= x < y < |f| ensures stamp[o[i] := now][f[x]] > stamp[o[i] := now][f[y]] {
      var b := if y <= i then y - 1 else y;
      assert f[y] == o[b] && b != i && o[b] != o[i];
      if x > 0 {
        var a := if x <= i then x - 1 else x;
        assert f[x] == o[a] && a != i && a < b && o[a] != o[i];
      }
    }
  }

  lemma FrontCircle(n: nat, o: seq<nat>, i: nat)
    requires i < |o|
    ensures var c := Circle(n, o); var d := c[.. i + 1] + c[i + 2 ..];
            c[i + 1] == o[i] && d[0] == n && [n, o[i]] + d[1..] == Circle(n, Front(o, i))
  {
    var c := Circle(n, o);
    assert c[.. i + 1] == [n] + o[.. i];
    assert c[i + 2 ..] == o[i + 1 ..] + [n];
  }

  lemma CircularOnce(c: seq<nat>, i: nat)
    requires Circular(c) && 0 < i < |c| - 1
    ensures c[i] !in c[.. i] + c[i + 1 ..]
  {}

  /** Along the ring the list comes to o[0], o[1] and so on, and back to the head. */
  lemma Along(next: seq<nat>, prev: seq<nat>, o: seq<nat>, n: nat, k: nat)
    requires Ring(next, prev, o, n) && k <= |o|
    ensures var c := Circle(n, o); next[c[k]] == c[k + 1] && prev[c[k + 1]] == c[k]
    ensures Circle(n, o)[0] == n && Circle(n, o)[|o| + 1] == n
    ensures forall j :: 0 <= j < |o| ==> Circle(n, o)[j + 1] == o[j]
  {
    var c := Circle(n, o);
    assert next[c[k]] == c[k + 1];
  }

  datatype Option<+T> = None | Some(value: T)

  class Cache {
    var next: seq<nat>
    var prev: seq<nat>
    var bufs: seq<Buf>
    var disk: seq<Block>
    ghost var order: seq<nat>
    ghost var stamp: seq<nat>       // when each buffer was released last
    ghost var now: nat
    ghost var dirty: set<nat>
    ghost var reading: set<nat>

    ghost predicate Valid()
      reads this
    {
      Ring(next, prev, order, |bufs|) && Stamped(order, stamp, now, |bufs|) && Coherent(bufs, disk, dirty, reading)
    }

    /** binit: every buffer is linked in, the last one first. */
    constructor (disk: seq<Block>, n: nat)
      requires n > 0
      ensures Valid() && this.disk == disk && |bufs| == n && dirty == {} && reading == {}
      ensures forall b :: 0 <= b < n ==> bufs[b] == Buf(0, 0, false, 0, ZeroBlock)
    {
      this.disk := disk;
      bufs := seq(n, _ => Buf(0, 0, false, 0, ZeroBlock));
      next, prev := seq(n + 1, _ => n), seq(n + 1, _ => n);
      order, stamp, now, dirty, reading := [], seq(n, i => i), n, {}, {};
      new;
      var b := 0;
      while b < n
        invariant b <= n && |bufs| == n && |order| == b && Ring(next, prev, order, n)
        invariant forall k :: 0 <= k < b ==> order[k] == b - 1 - k
        invariant bufs == seq(n, _ => Buf(0, 0, false, 0, ZeroBlock)) && stamp == seq(n, i => i) && this.disk == disk && dirty == reading == {} && now == n
      {
        ghost var c := Circle(n, order);
        forall k | 0 <= k < |c| ensures c[k] != b { if 0 < k < |c| - 1 { assert c[k] == order[k - 1]; } }
        LinkKeeps(next, prev, c, b);
        assert [n, b] + c[1..] == Circle(n, [b] + order);
        LinkFront(b);
        order := [b] + order;
        b := b + 1;
      }
    }

    /** The four assignments that put buffer b behind the head of the list. */
    method LinkFront(b: nat)
      requires |next| == |prev| == |bufs| + 1 && b < |bufs| && next[|bufs|] < |prev|
      modifies this`next, this`prev
      ensures var f := old(next)[|bufs|];
              next == old(next)[b := f][|bufs| := b] && prev == old(prev)[f := b][b := |bufs|]
    {
      var head := |bufs|;
      next := next[b := next[head]];
      prev := prev[next[b] := b];
      prev := prev[b := head];
      next := next[head := b];
    }

    /** bget; None is its panic, when every buffer is in use. */
    method Bget(dev: nat, blockno: nat) returns (r: Option<nat>)
      requires Valid() && dev == DEV && blockno < |disk|
      modifies this`bufs
      ensures r.None? ==> bufs == old(bufs)
      ensures r.None? <==> AllTaken(old(bufs), dev, blockno)
      ensures r.Some? ==> Valid() && Got(old(bufs), bufs, stamp, dev, blockno, r.value)
    {
      hide Linked, Circular, Circle, Coherent, Ring, Stamped;
      RingIs(next, prev, order, |bufs|);
      StampedIs(order, stamp, now, |bufs|);
      var head := |bufs|;
      ghost var k: nat := 0;
      Along(next, prev, order, head, 0);
      var b := next[head];
      while b != head
        invariant Valid() && k <= |order| && b == Circle(head, order)[k + 1] && bufs == old(bufs)
        invariant forall j :: 0 <= j < k ==> !Holds(bufs[order[j]], dev, blockno)
        decreases |order| - k
      {
        Along(next, prev, order, head, k);
        Along(next, prev, order, head, if k < |order| then k + 1 else k);
        if k < |order| { assert Circle(head, order)[k + 1] == order[k]; }
        if bufs[b].dev == dev && bufs[b].blockno == blockno {
          ghost var was := bufs;
          bufs := bufs[b := bufs[b].(refcnt := bufs[b].refcnt + 1)];
          assert Holds(was[b], dev, blockno);
          GotKeeps(was, bufs, stamp, disk, dirty, reading, dev, blockno, b);
          return Some(b);
        }
        b := next[b];
        k := k + 1;
      }
      Ended(order, head, k);
      NoneHolds(bufs, order, dev, blockno);
      Along(next, prev, order, head, |order|);
      b := prev[head];
      k := |order|;
      while b != head
        invariant Valid() && k <= |order| && b == Circle(head, order)[k] && bufs == old(bufs)
        invariant forall j :: k <= j < |order| ==> bufs[order[j]].refcnt > 0
        decreases k
      {
        Along(next, prev, order, head, k);
        Along(next, prev, order, head, if k > 0 then k - 1 else k);
        if k > 0 { assert Circle(head, order)[(k - 1) + 1] == order[k - 1]; }
        if bufs[b].refcnt == 0 {
          OldestIs(bufs, order, stamp, now, k - 1);
          ghost var was := bufs;
          bufs := bufs[b := Buf(dev, blockno, false, 1, bufs[b].data)];
          GotKeeps(was, bufs, stamp, disk, dirty, reading, dev, blockno, b);
          return Some(b);
        }
        b := prev[b];
        k := k - 1;
      }
      EndedBack(order, head, k);
      forall b | 0 <= b < |bufs| ensures bufs[b].refcnt > 0 { AllIn(order, |bufs|, b); }
      assert AllTaken(bufs, dev, blockno);
      return None;
    }

    /** bread up to where it sleeps: a buffer for the block, and one more reference. If wait, the
        process waits for Arrive; anybody else who reads the block meanwhile does not. */
    method Bread(dev: nat, blockno: nat) returns (r: Option<nat>, wait: bool)
      requires Valid() && dev == DEV && blockno < |disk|
      modifies this`bufs, this`reading
      ensures r.None? ==> !wait && bufs == old(bufs) && reading == old(reading)
      ensures r.None? <==> AllTaken(old(bufs), dev, blockno)
      ensures r.Some? ==> Valid() && r.value < |bufs| && Holds(bufs[r.value], dev, blockno) && bufs[r.value].valid
      ensures r.Some? ==> bufs[r.value].refcnt > 0
      ensures r.Some? ==> reading == if wait then old(reading) + {r.value} else old(reading)
      ensures r.Some? ==> (r.value !in dirty && r.value !in reading ==> bufs[r.value].data == disk[blockno])
      ensures r.Some? ==> ReadInto(old(bufs), bufs, dev, blockno, r.value, wait)
    {
      r := Bget(dev, blockno);
      wait := false;
      if r.Some? {
        var b := r.value;
        GotKeeps(old(bufs), bufs, stamp, disk, dirty, reading, dev, blockno, b);
        GotReads(old(bufs), bufs, stamp, disk, dirty, reading, dev, blockno, b);
        hide Linked, Circular, Got;
        if !bufs[b].valid {
          ghost var was := bufs;
          bufs := bufs[b := bufs[b].(valid := true)];
          reading := reading + {b};
          wait := true;
          StartedKeeps(was, bufs, disk, dirty, old(reading), b);
        }
        assert Fresh(bufs[b], disk, b in dirty, b in reading);
      }
    }

    /** The disk stores the block in the buffer; a change made to it in the meantime is lost. */
    method Arrive(b: nat)
      requires Valid() && b in reading && b < |bufs| && bufs[b].blockno < |disk|
      modifies this`bufs, this`reading, this`dirty
      ensures Valid() && reading == old(reading) - {b} && dirty == old(dirty) - {b}
      ensures bufs == old(bufs)[b := old(bufs)[b].(data := disk[old(bufs)[b].blockno])]
    {
      hide Linked, Circular;
      bufs := bufs[b := bufs[b].(data := disk[bufs[b].blockno])];
      reading, dirty := reading - {b}, dirty - {b};
      ArrivedKeeps(old(bufs), bufs, disk, old(dirty), old(reading), b);
    }

    /** The holder of a buffer changes it. */
    method Change(b: nat, data: Block)
      requires Valid() && b < |bufs| && bufs[b].refcnt > 0 && bufs[b].valid
      modifies this`bufs, this`dirty
      ensures Valid() && bufs == old(bufs)[b := old(bufs)[b].(data := data)] && dirty == old(dirty) + {b}
    {
      hide Linked, Circular;
      bufs := bufs[b := bufs[b].(data := data)];
      dirty := dirty + {b};
      ChangedKeeps(old(bufs), bufs, disk, old(dirty), reading, b);
    }

    /** bwrite */
    method Bwrite(b: nat)
      requires Valid() && b < |bufs| && bufs[b].refcnt > 0 && bufs[b].valid
      modifies this`disk, this`dirty
      ensures Valid() && dirty == old(dirty) - {b} && bufs[b].blockno < |disk|
      ensures disk == old(disk)[bufs[b].blockno := bufs[b].data]
    {
      hide Linked, Circular;
      assert Fresh(bufs[b], disk, b in dirty, b in reading);
      disk := disk[bufs[b].blockno := bufs[b].data];
      dirty := dirty - {b};
      WrittenKeeps(bufs, old(disk), old(dirty), reading, b);
    }

    /** brelse: a buffer that nobody uses any more goes to the front of the ring. */
    method Brelse(b: nat)
      requires Valid() && b < |bufs| && bufs[b].refcnt > 0 && (bufs[b].refcnt == 1 ==> b !in dirty && b !in reading)
      modifies this`bufs, this`next, this`prev, this`order, this`stamp, this`now
      ensures Valid() && bufs == old(bufs)[b := old(bufs)[b].(refcnt := old(bufs)[b].refcnt - 1)]
      ensures if bufs[b].refcnt > 0 then order == old(order) && stamp == old(stamp)
              else order[0] == b && stamp == old(stamp)[b := old(now)] && now == old(now) + 1
    {
      hide Linked, Circular, Stamped, Coherent, Circle;
      bufs := bufs[b := bufs[b].(refcnt := bufs[b].refcnt - 1)];
      ReleasedKeeps(old(bufs), bufs, disk, dirty, reading, b);
      if bufs[b].refcnt == 0 {
        StampedIs(order, stamp, now, |bufs|);
        AllIn(order, |bufs|, b);
        ghost var i :| 0 <= i < |order| && order[i] == b;
        FrontStamped(order, stamp, now, |bufs|, i);
        MoveKeeps(next, prev, order, |bufs|, i);
        next := next[prev[b] := next[b]];
        prev := prev[next[b] := prev[b]];
        LinkFront(b);
        stamp := stamp[b := now];
        order := Front(order, i);
        now := now + 1;
      }
    }

    /** A process on its own reads a block, as the file system does: it gets the bytes of the disk,
        whatever the cache holds. None is bget's panic. */
    method ReadBlock(blockno: nat) returns (r: Option<Block>)
      requires Valid() && blockno < |disk| && Calm()
      modifies this`bufs, this`reading, this`dirty, this`next, this`prev, this`order, this`stamp, this`now
      ensures r.None? <==> AllTaken(old(bufs), DEV, blockno)
      ensures r.Some? ==> Valid() && Calm() && r.value == disk[blockno] && SameUse(old(bufs), bufs)
    {
      hide Linked, Circular, Stamped, Coherent, Ring;
      var b, wait := Bread(DEV, blockno);
      if b.None? {
        return None;
      }
      if wait {
        Arrive(b.value);
      }
      r := Some(bufs[b.value].data);
      Brelse(b.value);
    }

    /** A process on its own writes a block, as the file system does: that block of the disk changes
        and no other. */
    method WriteBlock(blockno: nat, data: Block) returns (ok: bool)
      requires Valid() && blockno < |disk| && Calm()
      modifies this
      ensures !ok <==> AllTaken(old(bufs), DEV, blockno)
      ensures ok ==> Valid() && Calm() && disk == old(disk)[blockno := data] && SameUse(old(bufs), bufs)
    {
      hide Linked, Circular, Stamped, Coherent, Ring;
      var b, wait := Bread(DEV, blockno);
      if b.None? {
        return false;
      }
      if wait {
        Arrive(b.value);
      }
      Change(b.value, data);
      Bwrite(b.value);
      Brelse(b.value);
      ok := true;
    }

    /** No other process is at work on a buffer. */
    ghost predicate Calm()
      reads this
    {
      dirty == {} && reading == {}
    }
  }

  /** Every buffer is used by as many as before, and those in use hold the same blocks. */
  ghost predicate SameUse(bufs: seq<Buf>, bufs': seq<Buf>)
  {
    |bufs'| == |bufs| && forall b :: 0 <= b < |bufs| ==>
      bufs'[b].refcnt == bufs[b].refcnt && (bufs[b].refcnt > 0 ==> Holds(bufs'[b], bufs[b].dev, bufs[b].blockno))
  }

  /** Two processes read one block: the second is given the bytes that the buffer held before, while
      the first still waits for those on the disk. */
  method StaleRead(disk: seq<Block>) returns (first: bool, second: bool, shown: Block)
    requires |disk| > 0 && disk[0] != ZeroBlock
    ensures first && !second && shown != disk[0]
  {
    hide Linked, Circular, Stamped, Coherent, Ring;
    var cache := new Cache(disk, 1);
    assert cache.bufs[0].refcnt == 0;
    var b, c;
    b, first := cache.Bread(DEV, 0);
    assert Holds(cache.bufs[0], DEV, 0);
    c, second := cache.Bread(DEV, 0);
    shown := cache.bufs[c.value].data;
  }

  /** What bread does: the buffer's data stay, also when it is given to another block, and no other
      buffer changes. */
  ghost predicate ReadInto(bufs: seq<Buf>, bufs': seq<Buf>, dev: nat, blockno: nat, b: nat, wait: bool)
  {
    && b < |bufs| == |bufs'| && bufs'[b].data == bufs[b].data
    && (wait <==> !(Holds(bufs[b], dev, blockno) && bufs[b].valid))
    && bufs'[b].refcnt == (if Holds(bufs[b], dev, blockno) then bufs[b].refcnt + 1 else 1)
    && (!Holds(bufs[b], dev, blockno) ==> bufs[b].refcnt == 0)
    && (Holds(bufs[b], dev, blockno) <==> exists c :: 0 <= c < |bufs| && Holds(bufs[c], dev, blockno))
    && forall c :: 0 <= c < |bufs| && c != b ==> bufs'[c] == bufs[c]
  }

  lemma GotReads(bufs: seq<Buf>, bufs': seq<Buf>, stamp: seq<nat>, disk: seq<Block>, dirty: set<nat>, reading: set<nat>, dev: nat, blockno: nat, b: nat)
    requires Coherent(bufs, disk, dirty, reading) && Got(bufs, bufs', stamp, dev, blockno, b)
    ensures ReadInto(bufs, bufs', dev, blockno, b, !bufs'[b].valid)
    ensures !bufs'[b].valid ==> b !in dirty && b !in reading
  {
    assert Fresh(bufs[b], disk, b in dirty, b in reading);
  }

  lemma StartedKeeps(bufs: seq<Buf>, bufs': seq<Buf>, disk: seq<Block>, dirty: set<nat>, reading: set<nat>, b: nat)
    requires Coherent(bufs, disk, dirty, reading) && b < |bufs| && bufs[b].dev == DEV && bufs[b].blockno < |disk|
    requires bufs[b].refcnt > 0 && bufs' == bufs[b := bufs[b].(valid := true)]
    ensures Coherent(bufs', disk, dirty, reading + {b})
  {
    forall c | 0 <= c < |bufs'| ensures Fresh(bufs'[c], disk, c in dirty, c in reading + {b}) { assert Fresh(bufs[c], disk, c in dirty, c in reading); }
  }

  lemma ArrivedKeeps(bufs: seq<Buf>, bufs': seq<Buf>, disk: seq<Block>, dirty: set<nat>, reading: set<nat>, b: nat)
    requires Coherent(bufs, disk, dirty, reading) && b < |bufs| && b in reading && bufs[b].blockno < |disk|
    requires bufs' == bufs[b := bufs[b].(data := disk[bufs[b].blockno])]
    ensures Coherent(bufs', disk, dirty - {b}, reading - {b})
  {
    forall c | 0 <= c < |bufs'| ensures Fresh(bufs'[c], disk, c in dirty - {b}, c in reading - {b}) { assert Fresh(bufs[c], disk, c in dirty, c in reading); }
  }

  lemma ChangedKeeps(bufs: seq<Buf>, bufs': seq<Buf>, disk: seq<Block>, dirty: set<nat>, reading: set<nat>, b: nat)
    requires Coherent(bufs, disk, dirty, reading) && b < |bufs| == |bufs'| && bufs[b].refcnt > 0 && bufs[b].valid
    requires bufs' == bufs[b := bufs[b].(data := bufs'[b].data)]
    ensures Coherent(bufs', disk, dirty + {b}, reading)
  {
    forall c | 0 <= c < |bufs'| ensures Fresh(bufs'[c], disk, c in dirty + {b}, c in reading) { assert Fresh(bufs[c], disk, c in dirty, c in reading); }
  }

  /** After a write no buffer is stale. */
  lemma WrittenKeeps(bufs: seq<Buf>, disk: seq<Block>, dirty: set<nat>, reading: set<nat>, b: nat)
    requires Coherent(bufs, disk, dirty, reading) && b < |bufs| && bufs[b].valid && bufs[b].blockno < |disk|
    ensures Coherent(bufs, disk[bufs[b].blockno := bufs[b].data], dirty - {b}, reading)
  {
    var disk' := disk[bufs[b].blockno := bufs[b].data];
    WrittenElse(bufs, disk, dirty, reading, b, bufs[b].data);
    forall c | 0 <= c < |bufs| ensures Fresh(bufs[c], disk', c in dirty - {b}, c in reading) {
      assert Fresh(bufs[c], disk', c in dirty, c in reading);
    }
  }

  lemma ReleasedKeeps(bufs: seq<Buf>, bufs': seq<Buf>, disk: seq<Block>, dirty: set<nat>, reading: set<nat>, b: nat)
    requires Coherent(bufs, disk, dirty, reading) && b < |bufs| && bufs[b].refcnt > 0
    requires bufs[b].refcnt == 1 ==> b !in dirty && b !in reading
    requires bufs' == bufs[b := bufs[b].(refcnt := bufs[b].refcnt - 1)]
    ensures Coherent(bufs', disk, dirty, reading)
  {
    forall c | 0 <= c < |bufs'| ensures Fresh(bufs'[c], disk, c in dirty, c in reading) { assert Fresh(bufs[c], disk, c in dirty, c in reading); }
  }

  lemma RingIs(next: seq<nat>, prev: seq<nat>, o: seq<nat>, n: nat)
    requires Ring(next, prev, o, n)
    ensures |next| == |prev| == n + 1 && Within(o, n) && |Circle(n, o)| == |o| + 2
  {}

  lemma StampedIs(o: seq<nat>, stamp: seq<nat>, now: nat, n: nat)
    requires Stamped(o, stamp, now, n)
    ensures |o| == |stamp| == n && forall i, j :: 0 <= i < j < |o| ==> o[i] != o[j]
  {}

  lemma Ended(o: seq<nat>, n: nat, k: nat)
    requires Within(o, n) && k <= |o| && Circle(n, o)[k + 1] == n
    ensures k == |o|
  {}

  lemma EndedBack(o: seq<nat>, n: nat, k: nat)
    requires Within(o, n) && k <= |o| && Circle(n, o)[k] == n
    ensures k == 0
  {}

  lemma NoneHolds(bufs: seq<Buf>, o: seq<nat>, dev: nat, blockno: nat)
    requires |o| == |bufs| && Within(o, |bufs|) && forall i, j :: 0 <= i < j < |o| ==> o[i] != o[j]
    requires forall j :: 0 <= j < |o| ==> !Holds(bufs[o[j]], dev, blockno)
    ensures !exists c :: 0 <= c < |bufs| && Holds(bufs[c], dev, blockno)
  {
    forall c | 0 <= c < |bufs| ensures !Holds(bufs[c], dev, blockno) {
      AllIn(o, |bufs|, c);
    }
  }

  /** The eight assignments of brelse move a buffer to the front. */
  lemma MoveKeeps(next: seq<nat>, prev: seq<nat>, o: seq<nat>, n: nat, i: nat)
    requires Ring(next, prev, o, n) && i < |o|
    ensures |prev| == n + 1 && next[o[i]] < |prev| && prev[o[i]] < |next|
    ensures var b := o[i];
            var next1 := next[prev[b] := next[b]];
            var prev1 := prev[next1[b] := prev[b]];
            next1[b] < |prev| && next1[n] < n + 1 && var f := next1[n];
            Ring(next1[b := f][n := b], prev1[f := b][b := n], Front(o, i), n)
  {
    var b, c := o[i], Circle(n, o);
    var d := c[.. i + 1] + c[i + 2 ..];
    FrontCircle(n, o, i);
    UnlinkKeeps(next, prev, c, i + 1);
    CircularOnce(c, i + 1);
    var next1 := next[prev[b] := next[b]];
    assert prev[b] != b by { assert prev[b] == c[i] && c[i] != c[i + 1]; }
    var prev1 := prev[next1[b] := prev[b]];
    LinkKeeps(next1, prev1, d, b);
    forall k | 0 <= k < |Front(o, i)| ensures Front(o, i)[k] < n {}
  }
}
