/** The code of the pipe operations between two places where a process gives up the processor. */
module PipeOps {
  import opened Pipe

  class Kernel {
    const data: array<Byte>
    var nread: nat
    var nwrite: nat
    var readopen: bool
    var writeopen: bool
    const procs: array<Proc>
    ghost var accepted: seq<Byte>
    ghost var delivered: seq<Byte>

    ghost function S(): Sys
      reads this, data, procs
    {
      Sys(data[..], nread, nwrite, readopen, writeopen, procs[..], accepted, delivered)
    }

    /** A new pipe (sys_pipe), and a process table with no one asleep on it. */
    constructor (table: seq<Proc>)
      requires forall j :: 0 <= j < |table| ==> table[j].chan != NRead && table[j].chan != NWrite
      ensures Inv(S()) && S().procs == table && accepted == [] && readopen && writeopen && fresh(data) && fresh(procs)
    {
      data := new Byte[PIPESIZE](_ => 0);
      procs := new Proc[|table|](i requires 0 <= i < |table| => table[i]);
      nread, nwrite, readopen, writeopen := 0, 0, true, true;
      accepted, delivered := [], [];
      new;
      assert procs[..] == table;
      StartInv(S());
    }

    /** wakeup, called by process me */
    method Wakeup(me: nat, chan: Chan)
      modifies procs
      ensures procs[..] == Wake(old(S()), me, chan).procs
    {
      var j := 0;
      while j < procs.Length
        invariant j <= procs.Length
        invariant forall k :: 0 <= k < j ==> procs[k] == Woken(old(procs[k]), k == me, chan)
        invariant forall k :: j <= k < procs.Length ==> procs[k] == old(procs[k])
      {
        if j != me && procs[j].status == Sleeping && procs[j].chan == chan {
          procs[j] := procs[j].(status := Runnable);
        }
        j := j + 1;
      }
    }

    /** The first half of sleep; the second begins with Resumed. */
    method SleepOn(me: nat, chan: Chan, job: Job)
      requires me < procs.Length
      modifies procs
      ensures procs[..] == Sleep(old(S()), me, chan, job).procs
    {
      procs[me] := procs[me].(job := job, status := Sleeping, chan := chan);
    }

    method Return(me: nat, ret: int)
      requires me < procs.Length
      modifies procs
      ensures procs[..] == Finish(old(S()), me, ret).procs
    {
      procs[me] := procs[me].(job := Idle, ret := ret, chan := NoChan);
    }

    /** pipewrite, with from bytes accepted already. */
    method PipeWrite(me: nat, buf: seq<Byte>, from: nat)
      requires me < procs.Length && data.Length == PIPESIZE
      modifies this, data, procs
      ensures S() == WriteFrom(old(S()), me, buf, from) && delivered == old(delivered)
    {
      var i := from;
      while i < |buf|
        invariant from <= i && procs[..] == old(procs[..]) && delivered == old(delivered)
        invariant WriteFrom(S(), me, buf, i) == WriteFrom(old(S()), me, buf, from)
      {
        if procs[me].killed {
          Return(me, -1);
          return;
        }
        if !readopen {
          Return(me, -1);
          return;
        }
        if (nwrite - nread) % WRAP == PIPESIZE {
          Wakeup(me, NRead);
          SleepOn(me, NWrite, Writing(buf, i));
          return;
        }
        ghost var s := S();
        data[nwrite % PIPESIZE] := buf[i];
        nwrite := (nwrite + 1) % WRAP;
        accepted := accepted + [buf[i]];
        assert S() == Put(s, buf[i]);
        i := i + 1;
      }
      Wakeup(me, NRead);
      Return(me, i);
    }

    /** piperead of n bytes, of which the first room have a page to go to; the i-th byte of got is
        stored in the i-th place of the destination. */
    method PipeRead(me: nat, n: int, room: nat) returns (got: seq<Byte>)
      requires me < procs.Length && data.Length == PIPESIZE
      modifies this, procs
      ensures S() == ReadWait(old(S()), me, n, room)
      ensures delivered == old(delivered) + got && |got| <= room
    {
      got := [];
      if nwrite == nread {
        if procs[me].killed {
          Return(me, -1);
          return;
        }
        if !writeopen {
          Return(me, 0);
          return;
        }
        Wakeup(me, NWrite);
        SleepOn(me, NRead, Reading(n, room));
        return;
      }
      var i := 0;
      while i < n && nwrite != nread
        invariant procs[..] == old(procs[..])
        invariant ReadFrom(S(), me, n, room, i) == ReadFrom(old(S()), me, n, room, 0)
        invariant delivered == old(delivered) + got && |got| == i <= room
        decreases n - i
      {
        if i >= room {
          Return(me, -1);
          return;
        }
        ghost var s := S();
        got := got + [data[nread % PIPESIZE]];
        delivered := delivered + [data[nread % PIPESIZE]];
        nread := (nread + 1) % WRAP;
        assert S() == Take(s);
        i := i + 1;
      }
      Wakeup(me, NWrite);
      Return(me, i);
    }

    /** pipeclose */
    method PipeClose(me: nat, writable: bool)
      modifies this, procs
      ensures S() == Closed(old(S()), me, writable)
    {
      if writable {
        writeopen := false;
        Wakeup(me, NRead);
      } else {
        readopen := false;
        Wakeup(me, NWrite);
      }
    }

    /** A process runs on behind sleep. */
    method RunOn(me: nat) returns (got: seq<Byte>)
      requires me < procs.Length && data.Length == PIPESIZE
      modifies this, data, procs
      ensures S() == Resumed(old(S()), me)
      ensures delivered == old(delivered) + got
    {
      got := [];
      var p := procs[me];
      match p.job
      case Idle =>
      case Writing(buf, i) =>
        if p.killed {
          Return(me, -1);
        } else {
          PipeWrite(me, buf, i);
        }
      case Reading(n, room) =>
        if p.killed {
          Return(me, -1);
        } else {
          got := PipeRead(me, n, room);
        }
    }
  }
}
