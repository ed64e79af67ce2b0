/** Pipes with sleep and wakeup (kernel/syscall/sysfile.c:311-447, kernel/syscall/sysproc.c:303-329,
    kernel/proc/proc.c:311-326) as steps of processes that take turns. What a process does while it
    holds the lock of the pipe is one step: there is one hart, and interrupts are off. */
module Pipe {

  const PIPESIZE := 512
  const WRAP := 0x1_0000_0000

  type Byte = b: int | 0 <= b < 256 witness 0

  datatype Chan = NoChan | NRead | NWrite | Elsewhere

  /** Runnable stands for ready and for running. */
  datatype Status = Runnable | Sleeping | Gone

  /** What a process is in the middle of: a write of buf with i bytes accepted, or a read of n bytes
      to a place of which the first room bytes are mapped. */
  datatype Job = Idle | Writing(buf: seq<Byte>, i: nat) | Reading(n: int, room: nat)

  /** ret is what the last call came to. */
  datatype Proc = Proc(status: Status, chan: Chan, killed: bool, job: Job, ret: int)

  /** A pipe, the process table, and all bytes ever accepted from writers and delivered to
      readers. */
  datatype Sys = Sys(data: seq<Byte>, nread: nat, nwrite: nat, readopen: bool, writeopen: bool, procs: seq<Proc>,
                     accepted: seq<Byte>, delivered: seq<Byte>)

  /** nwrite - nread, in unsigned 32-bit arithmetic. */
  function Count(s: Sys): int
  {
    (s.nwrite - s.nread) % WRAP
  }

  // ---------- what a step is made of ----------

  /** wakeup(chan), by process me. */
  function Wake(s: Sys, me: nat, chan: Chan): Sys
  {
    s.(procs := seq(|s.procs|, j requires 0 <= j < |s.procs| => Woken(s.procs[j], j == me, chan)))
  }

  function Woken(p: Proc, isMe: bool, chan: Chan): Proc
  {
    if !isMe && p.status == Sleeping && p.chan == chan then p.(status := Runnable) else p
  }

  function Finish(s: Sys, me: nat, ret: int): Sys
    requires me < |s.procs|
  {
    s.(procs := s.procs[me := s.procs[me].(job := Idle, ret := ret, chan := NoChan)])
  }

  function Sleep(s: Sys, me: nat, chan: Chan, job: Job): Sys
    requires me < |s.procs|
  {
    s.(procs := s.procs[me := s.procs[me].(job := job, status := Sleeping, chan := chan)])
  }

  function Put(s: Sys, b: Byte): Sys
    requires |s.data| == PIPESIZE
  {
    s.(data := s.data[s.nwrite % PIPESIZE := b], nwrite := (s.nwrite + 1) % WRAP, accepted := s.accepted + [b])
  }

  function Take(s: Sys): Sys
    requires |s.data| == PIPESIZE
  {
    s.(nread := (s.nread + 1) % WRAP, delivered := s.delivered + [s.data[s.nread % PIPESIZE]])
  }

  /** The loop of pipewrite. */
  function WriteFrom(s: Sys, me: nat, buf: seq<Byte>, i: nat): (r: Sys)
    requires |s.data| == PIPESIZE && me < |s.procs|
    ensures |r.procs| == |s.procs| && |r.data| == PIPESIZE
    decreases |buf| - i
  {
    if i >= |buf| then Finish(Wake(s, me, NRead), me, i)
    else if s.procs[me].killed || !s.readopen then Finish(s, me, -1)
    else if Count(s) == PIPESIZE then Sleep(Wake(s, me, NRead), me, NWrite, Writing(buf, i))
    else WriteFrom(Put(s, buf[i]), me, buf, i + 1)
  }

  /** piperead until it has something to read. */
  function ReadWait(s: Sys, me: nat, n: int, room: nat): (r: Sys)
    requires |s.data| == PIPESIZE && me < |s.procs|
    ensures |r.procs| == |s.procs| && |r.data| == PIPESIZE
  {
    if s.nwrite != s.nread then ReadFrom(s, me, n, room, 0)
    else if s.procs[me].killed then Finish(s, me, -1)
    else if !s.writeopen then Finish(s, me, 0)
    else Sleep(Wake(s, me, NWrite), me, NRead, Reading(n, room))
  }

  /** The copying loop of piperead. */
  function ReadFrom(s: Sys, me: nat, n: int, room: nat, i: nat): (r: Sys)
    requires |s.data| == PIPESIZE && me < |s.procs|
    ensures |r.procs| == |s.procs| && |r.data| == PIPESIZE
    decreases n - i
  {
    if !(i < n && s.nwrite != s.nread) then Finish(Wake(s, me, NWrite), me, i)
    else if i >= room then Finish(s, me, -1)
    else ReadFrom(Take(s), me, n, room, i + 1)
  }

  /** Back from sleep. */
  function Resumed(s: Sys, me: nat): (r: Sys)
    requires |s.data| == PIPESIZE && me < |s.procs|
    ensures |r.procs| == |s.procs| && |r.data| == PIPESIZE
  {
    var p := s.procs[me];
    if p.job.Idle? then s
    else if p.killed then Finish(s, me, -1)
    else match p.job
      case Writing(buf, i) => WriteFrom(s, me, buf, i)
      case Reading(n, room) => ReadWait(s, me, n, room)
  }

  /** pipeclose */
  function Closed(s: Sys, me: nat, writable: bool): Sys
  {
    if writable then Wake(s.(writeopen := false), me, NRead) else Wake(s.(readopen := false), me, NWrite)
  }

  /** An interrupt from the console, which kills every process but the spared. */
  function Killed(s: Sys, spared: set<nat>): Sys
  {
    s.(procs := seq(|s.procs|, j requires 0 <= j < |s.procs| => KilledProc(s.procs[j], j in spared)))
  }

  function KilledProc(p: Proc, spared: bool): Proc
  {
    if spared || p.status == Gone then p
    else p.(killed := true, status := Runnable)
  }

  // ---------- runs ----------

  datatype Step =
    | Write(me: nat, buf: seq<Byte>)
    | Read(me: nat, n: int, room: nat)
    | Resume(me: nat)
    | Close(me: nat, writable: bool)
    | Kill(spared: set<nat>)

  predicate Enabled(s: Sys, step: Step)
  {
    match step
    case Write(me, _) => me < |s.procs| && s.procs[me].status == Runnable && s.procs[me].job == Idle
    case Read(me, _, _) => me < |s.procs| && s.procs[me].status == Runnable && s.procs[me].job == Idle
    case Resume(me) => me < |s.procs| && s.procs[me].status == Runnable && s.procs[me].job != Idle
    case Close(me, _) => me < |s.procs| && s.procs[me].status == Runnable && s.procs[me].job == Idle
    case Kill(_) => true
  }

  function Next(s: Sys, step: Step): (r: Sys)
    requires |s.data| == PIPESIZE && Enabled(s, step)
    ensures |r.procs| == |s.procs| && |r.data| == PIPESIZE
  {
    match step
    case Write(me, buf) => WriteFrom(s, me, buf, 0)
    case Read(me, n, room) => ReadWait(s, me, n, room)
    case Resume(me) => Resumed(s, me)
    case Close(me, writable) => Closed(s, me, writable)
    case Kill(spared) => Killed(s, spared)
  }

  // ---------- the invariants ----------

  /** The ring holds exactly the bytes accepted and not yet delivered, at most PIPESIZE of them, and
      the counters are right modulo 2^32. */
  ghost predicate Ring(s: Sys)
  {
    && |s.data| == PIPESIZE && s.delivered <= s.accepted && |s.accepted| - |s.delivered| <= PIPESIZE
    && s.nread == |s.delivered| % WRAP && s.nwrite == |s.accepted| % WRAP
    && forall k :: |s.delivered| <= k < |s.accepted| ==> s.data[k % PIPESIZE] == s.accepted[k]
  }

  /** A process that sleeps on a channel of the pipe has a reason to. */
  predicate Justified(s: Sys, p: Proc)
  {
    p.status == Sleeping ==>
      && (p.chan == NRead ==> Count(s) == 0 && s.writeopen)
      && (p.chan == NWrite ==> Count(s) == PIPESIZE && s.readopen)
  }

  predicate NoLostWakeup(s: Sys)
  {
    forall j :: 0 <= j < |s.procs| ==> Justified(s, s.procs[j])
  }

  ghost predicate Inv(s: Sys)
  {
    Ring(s) && NoLostWakeup(s)
  }

  /** The counters differ by the number of bytes in the ring, also when they have wrapped. */
  lemma CountIs(s: Sys)
    requires Ring(s)
    ensures Count(s) == |s.accepted| - |s.delivered|
    ensures s.nwrite == s.nread <==> s.accepted == s.delivered
  {
    ModDiff(|s.accepted|, |s.delivered|);
  }

  lemma ModDiff(a: nat, d: nat)
    requires d <= a <= d + PIPESIZE
    ensures (a % WRAP - d % WRAP) % WRAP == a - d
    ensures a % WRAP == d % WRAP ==> a == d
  {
    assert a % WRAP - d % WRAP == a - d - WRAP * (a / WRAP - d / WRAP);
  }

  lemma SlotIs(a: nat)
    ensures a % WRAP % PIPESIZE == a % PIPESIZE && (a % WRAP + 1) % WRAP == (a + 1) % WRAP
  {}

  lemma PutKeeps(s: Sys, b: Byte)
    requires Ring(s) && Count(s) != PIPESIZE
    ensures Ring(Put(s, b))
  {
    CountIs(s);
    SlotIs(|s.accepted|);
    forall k | |s.delivered| <= k < |s.accepted| ensures k % PIPESIZE != |s.accepted| % PIPESIZE {
      SlotsDiffer(k, |s.accepted|);
    }
  }

  lemma SlotsDiffer(k: nat, a: nat)
    requires a - PIPESIZE < k < a
    ensures k % PIPESIZE != a % PIPESIZE
  {}

  lemma TakeKeeps(s: Sys)
    requires Ring(s) && s.nwrite != s.nread
    ensures Ring(Take(s)) && Take(s).delivered == s.accepted[.. |s.delivered| + 1]
  {
    CountIs(s);
    SlotIs(|s.delivered|);
  }

  // ---------- every step keeps the ring ----------

  lemma {:induction false} WriteRing(s: Sys, me: nat, buf: seq<Byte>, i: nat)
    requires Ring(s) && me < |s.procs|
    ensures Ring(WriteFrom(s, me, buf, i))
    decreases |buf| - i
  {
    if i < |buf| && !s.procs[me].killed && s.readopen && Count(s) != PIPESIZE {
      PutKeeps(s, buf[i]);
      WriteRing(Put(s, buf[i]), me, buf, i + 1);
    }
  }

  lemma {:induction false} ReadRing(s: Sys, me: nat, n: int, room: nat, i: nat)
    requires Ring(s) && me < |s.procs|
    ensures Ring(ReadFrom(s, me, n, room, i))
    decreases n - i
  {
    if i < n && s.nwrite != s.nread && i < room {
      TakeKeeps(s);
      ReadRing(Take(s), me, n, room, i + 1);
    }
  }

  /** The ring is right after every step: bytes are delivered in the order they were accepted, none
      is lost, and at most PIPESIZE are in between. */
  lemma StepRing(s: Sys, step: Step)
    requires Ring(s) && Enabled(s, step)
    ensures Ring(Next(s, step)) && s.accepted <= Next(s, step).accepted && s.delivered <= Next(s, step).delivered
  {
    Logs(s, step);
    match step
    case Write(me, buf) => WriteRing(s, me, buf, 0);
    case Read(me, n, room) => ReadRing(s, me, n, room, 0);
    case Resume(me) =>
      match s.procs[me].job {
        case Writing(buf, i) => WriteRing(s, me, buf, i);
        case Reading(n, room) => ReadRing(s, me, n, room, 0);
        case Idle =>
      }
    case Close(me, writable) =>
    case Kill(spared) =>
  }

  lemma Logs(s: Sys, step: Step)
    requires |s.data| == PIPESIZE && Enabled(s, step)
    ensures s.accepted <= Next(s, step).accepted && s.delivered <= Next(s, step).delivered
  {
    match step
    case Write(me, buf) => WriteLogs(s, me, buf, 0);
    case Read(me, n, room) => ReadLogs(s, me, n, room, 0);
    case Resume(me) =>
      match s.procs[me].job {
        case Writing(buf, i) => WriteLogs(s, me, buf, i);
        case Reading(n, room) => ReadLogs(s, me, n, room, 0);
        case Idle =>
      }
    case Close(me, writable) =>
    case Kill(spared) =>
  }

  /** What a process has written so far has been accepted; a write that returns its length has been
      accepted whole. */
  lemma {:induction false} WriteLogs(s: Sys, me: nat, buf: seq<Byte>, i: nat)
    requires |s.data| == PIPESIZE && me < |s.procs|
    ensures var r := WriteFrom(s, me, buf, i);
            && s.accepted <= r.accepted && r.delivered == s.delivered
            && (i <= |buf| ==> match r.procs[me].job
                case Writing(b, k) => b == buf && i <= k <= |buf| && r.accepted == s.accepted + buf[i .. k]
                case _ => (r.procs[me].ret == |buf| && r.accepted == s.accepted + buf[i ..]) ||
                          (r.procs[me].ret == -1 && (s.procs[me].killed || !s.readopen)))
    decreases |buf| - i
  {
    if i < |buf| && !s.procs[me].killed && s.readopen && Count(s) != PIPESIZE {
      WriteLogs(Put(s, buf[i]), me, buf, i + 1);
    }
  }

  lemma {:induction false} ReadLogs(s: Sys, me: nat, n: int, room: nat, i: nat)
    requires |s.data| == PIPESIZE && me < |s.procs|
    ensures var r := ReadFrom(s, me, n, room, i); r.accepted == s.accepted && s.delivered <= r.delivered
    decreases n - i
  {
    if i < n && s.nwrite != s.nread && i < room { ReadLogs(Take(s), me, n, room, i + 1); }
  }

  // ---------- no lost wakeup ----------

  /** s is s0 but for bytes that were put or taken in the meantime. */
  predicate SameButBytes(s0: Sys, s: Sys)
  {
    s.procs == s0.procs && s.readopen == s0.readopen && s.writeopen == s0.writeopen
  }

  lemma {:induction false} WriteKeeps(s0: Sys, s: Sys, me: nat, buf: seq<Byte>, i: nat)
    requires NoLostWakeup(s0) && Ring(s0) && Ring(s) && SameButBytes(s0, s) && Count(s0) <= Count(s)
    requires me < |s.procs| && s.procs[me].status == Runnable
    requires s == s0 || (!s.procs[me].killed && s.readopen)
    ensures NoLostWakeup(WriteFrom(s, me, buf, i))
    decreases |buf| - i
  {
    CountIs(s);
    CountIs(s0);
    if i < |buf| && !s.procs[me].killed && s.readopen && Count(s) != PIPESIZE {
      PutKeeps(s, buf[i]);
      CountIs(Put(s, buf[i]));
      WriteKeeps(s0, Put(s, buf[i]), me, buf, i + 1);
    } else {
      var r := WriteFrom(s, me, buf, i);
      forall j | 0 <= j < |r.procs| ensures Justified(r, r.procs[j]) { assert Justified(s0, s0.procs[j]); }
    }
  }

  /** The read meets an unmapped page behind at least one byte it has taken, and a writer sleeps. */
  predicate Loses(s: Sys, n: int, room: nat)
  {
    room < n && 0 < room < Count(s) && !Awake(s, NWrite)
  }

  predicate Awake(s: Sys, chan: Chan)
  {
    forall j :: 0 <= j < |s.procs| ==> !(s.procs[j].status == Sleeping && s.procs[j].chan == chan)
  }

  /** A read from s0 that has come to s with i bytes. */
  ghost predicate Midway(s0: Sys, s: Sys, me: nat, n: int, room: nat, i: nat)
  {
    && Ring(s0) && Ring(s) && SameButBytes(s0, s) && s.accepted == s0.accepted
    && |s.delivered| == |s0.delivered| + i && i <= room && (n >= 0 ==> i <= n)
    && me < |s.procs| && s.procs[me].status == Runnable && |s0.delivered| < |s0.accepted| && (n < 0 ==> i == 0)
  }

  /** The read returns as many bytes as there are and were asked for, with a wakeup; or it fails
      behind the mapped bytes, without one. */
  lemma {:induction false} ReadIs(s0: Sys, s: Sys, me: nat, n: int, room: nat, i: nat)
    requires Midway(s0, s, me, n, room, i)
    ensures var r, m := ReadFrom(s, me, n, room, i), if n <= 0 then 0 else if n < Count(s0) then n else Count(s0);
            && r.accepted == s0.accepted && Ring(r) && r.readopen == s0.readopen && r.writeopen == s0.writeopen
            && (m <= room ==> |r.delivered| == |s0.delivered| + m && r.procs == Finish(Wake(s0, me, NWrite), me, m).procs)
            && (m > room ==> |r.delivered| == |s0.delivered| + room && r.procs == Finish(s0, me, -1).procs)
    decreases n - i
  {
    CountIs(s);
    CountIs(s0);
    ReadRing(s, me, n, room, i);
    if i < n && s.nwrite != s.nread && i < room {
      TakeKeeps(s);
      ReadIs(s0, Take(s), me, n, room, i + 1);
    }
  }

  /** A read keeps every sleeper justified if and only if it does not lose a wakeup. */
  lemma ReadKeepsIff(s: Sys, me: nat, n: int, room: nat)
    requires Inv(s) && me < |s.procs| && s.procs[me].status == Runnable
    ensures NoLostWakeup(ReadWait(s, me, n, room)) <==> !Loses(s, n, room)
  {
    CountIs(s);
    if s.nwrite != s.nread {
      ReadIs(s, s, me, n, room, 0);
      var r := ReadFrom(s, me, n, room, 0);
      CountIs(r);
      if Loses(s, n, room) {
        var j :| 0 <= j < |s.procs| && s.procs[j].status == Sleeping && s.procs[j].chan == NWrite;
        assert r.procs[j] == s.procs[j] && !Justified(r, r.procs[j]);
      } else {
        forall j | 0 <= j < |r.procs| ensures Justified(r, r.procs[j]) { assert Justified(s, s.procs[j]); }
      }
    } else {
      var r := ReadWait(s, me, n, room);
      forall j | 0 <= j < |r.procs| ensures Justified(r, r.procs[j]) { assert Justified(s, s.procs[j]); }
    }
  }

  predicate Careful(s: Sys, step: Step)
    requires Enabled(s, step)
  {
    match step
    case Read(_, n, room) => !Loses(s, n, room)
    case Resume(me) => s.procs[me].job.Reading? && !s.procs[me].killed ==> !Loses(s, s.procs[me].job.n, s.procs[me].job.room)
    case _ => true
  }

  /** No wakeup is lost in a step, whoever makes it, but by a read that fails on an unmapped page
      behind bytes it has taken. */
  lemma StepKeepsIff(s: Sys, step: Step)
    requires Inv(s) && Enabled(s, step)
    ensures Ring(Next(s, step))
    ensures NoLostWakeup(Next(s, step)) <==> Careful(s, step)
  {
    StepRing(s, step);
    CountIs(s);
    match step
    case Write(me, buf) => WriteKeeps(s, s, me, buf, 0);
    case Read(me, n, room) => ReadKeepsIff(s, me, n, room);
    case Resume(me) => ResumeKeepsIff(s, me);
    case Close(me, writable) => CloseKeeps(s, me, writable);
    case Kill(spared) => KillKeeps(s, spared);
  }

  lemma ResumeKeepsIff(s: Sys, me: nat)
    requires Inv(s) && Enabled(s, Resume(me))
    ensures NoLostWakeup(Resumed(s, me)) <==> Careful(s, Resume(me))
  {
    var p := s.procs[me];
    if p.killed {
      var r := Resumed(s, me);
      forall j | 0 <= j < |r.procs| ensures Justified(r, r.procs[j]) { assert Justified(s, s.procs[j]); }
    } else {
      match p.job {
        case Writing(buf, i) => WriteKeeps(s, s, me, buf, i);
        case Reading(n, room) => ReadKeepsIff(s, me, n, room);
        case Idle =>
      }
    }
  }

  lemma CloseKeeps(s: Sys, me: nat, writable: bool)
    requires Inv(s) && Enabled(s, Close(me, writable))
    ensures NoLostWakeup(Closed(s, me, writable))
  {
    var r := Closed(s, me, writable);
    forall j | 0 <= j < |r.procs| ensures Justified(r, r.procs[j]) { assert Justified(s, s.procs[j]); }
  }

  lemma KillKeeps(s: Sys, spared: set<nat>)
    requires Inv(s)
    ensures NoLostWakeup(Killed(s, spared))
  {
    var r := Killed(s, spared);
    forall j | 0 <= j < |r.procs| ensures Justified(r, r.procs[j]) { assert Justified(s, s.procs[j]); }
  }

  // ---------- every run ----------

  /** Every step of a run is possible when it is made, and no read loses a wakeup. */
  predicate Runs(s: Sys, steps: seq<Step>)
    requires |s.data| == PIPESIZE
    decreases |steps|
  {
    steps == [] || (Enabled(s, steps[0]) && Careful(s, steps[0]) && Runs(Next(s, steps[0]), steps[1..]))
  }

  function After(s: Sys, steps: seq<Step>): Sys
    requires |s.data| == PIPESIZE && Runs(s, steps)
    decreases |steps|
  {
    if steps == [] then s else After(Next(s, steps[0]), steps[1..])
  }

  lemma {:induction false} RunKeeps(s: Sys, steps: seq<Step>)
    requires Inv(s) && Runs(s, steps)
    ensures Inv(After(s, steps)) && s.accepted <= After(s, steps).accepted && s.delivered <= After(s, steps).delivered
    decreases |steps|
  {
    if steps != [] {
      StepKeepsIff(s, steps[0]);
      StepRing(s, steps[0]);
      RunKeeps(Next(s, steps[0]), steps[1..]);
    }
  }

  /** A pipe just made, of processes that do not sleep on it. */
  lemma StartInv(s: Sys)
    requires |s.data| == PIPESIZE && s.nread == 0 && s.nwrite == 0 && s.accepted == [] && s.delivered == []
    requires Awake(s, NRead) && Awake(s, NWrite)
    ensures Inv(s)
  {}

  /** A reader and a writer never sleep at the same time, and nobody sleeps on a pipe that is about
      to be freed. */
  lemma NeverStuck(s: Sys)
    requires Inv(s)
    ensures Awake(s, NRead) || Awake(s, NWrite)
    ensures !s.readopen && !s.writeopen ==> Awake(s, NRead) && Awake(s, NWrite)
  {
    forall j | 0 <= j < |s.procs| ensures Justified(s, s.procs[j]) {}
  }

  /** A read of at least one byte that returns 0 is at the end of the file: the write end is closed
      and every accepted byte was delivered. */
  lemma ZeroIsEnd(s: Sys, me: nat, n: int, room: nat)
    requires Ring(s) && me < |s.procs| && s.procs[me].status == Runnable && n > 0
    requires var p := ReadWait(s, me, n, room).procs[me]; p.job == Idle && p.ret == 0
    ensures !s.writeopen && s.delivered == s.accepted
  {
    CountIs(s);
    if s.nwrite != s.nread { ReadIs(s, s, me, n, room, 0); }
  }

  /** A read that does not fail returns the number of bytes it delivered: those accepted first. */
  lemma ReadDelivers(s: Sys, me: nat, n: int, room: nat)
    requires Ring(s) && me < |s.procs| && s.procs[me].status == Runnable && s.nwrite != s.nread && n <= room
    ensures var r, ret := ReadWait(s, me, n, room), ReadWait(s, me, n, room).procs[me].ret;
            && ret == (if n <= 0 then 0 else if n < Count(s) then n else Count(s))
            && |s.delivered| + ret <= |s.accepted| && r.delivered == s.accepted[.. |s.delivered| + ret]
  {
    CountIs(s);
    ReadIs(s, s, me, n, room, 0);
  }

  /** A full pipe, a writer asleep, and a reader whose second byte has no page: the reader fails
      with one byte taken, and the writer sleeps on. */
  lemma WakeupLost(data: seq<Byte>)
    requires |data| == PIPESIZE
    ensures var s := Sys(data, 0, PIPESIZE, true, true,
                         [Proc(Sleeping, NWrite, false, Writing([1], 0), 0), Proc(Runnable, NoChan, false, Idle, 0)], data, []);
            Inv(s) && !NoLostWakeup(Next(s, Read(1, 2, 1)))
  {
    var w, p := Proc(Sleeping, NWrite, false, Writing([1], 0), 0), Proc(Runnable, NoChan, false, Idle, 0);
    var s := Sys(data, 0, PIPESIZE, true, true, [w, p], data, []);
    assert s.procs[0] == w;
    assert Inv(s);
    ReadKeepsIff(s, 1, 2, 1);
  }
}
