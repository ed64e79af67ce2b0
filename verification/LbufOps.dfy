/** The line buffer of ports/neatvi/lbuf.c. */
module LbufOps {
  import opened Lines
  import opened History

  /** The lines of a buffer as text: each string up to its recorded length. */
  function Texts(ln: seq<string>, lnLen: seq<nat>): (t: seq<string>)
    requires |ln| == |lnLen| && forall i :: 0 <= i < |ln| ==> lnLen[i] <= |ln[i]|
    ensures |t| == |ln| && forall i :: 0 <= i < |t| ==> t[i] == ln[i][.. lnLen[i]]
  {
    seq(|ln|, i requires 0 <= i < |ln| => ln[i][.. lnLen[i]])
  }

  /** A line as it is kept: without its newline if it has one, and then with one. */
  function Kept(l: string): (k: string)
    requires l != []
    ensures l <= k
  {
    if l[|l| - 1] == '\n' then l else l + "\n"
  }

  lemma {:induction false} ConcatPush(ls: seq<string>, l: string)
    ensures Concat(ls + [l]) == Concat(ls) + l
  {
    if ls == [] {
      assert [l][1..] == [] && ls + [l] == [l];
    } else {
      ConcatPush(ls[1..], l);
      assert (ls + [l])[1..] == ls[1..] + [l];
    }
  }

  /** What is left of the text of t after its first i lines. */
  function Rest(s: string, i: nat): (r: string)
    requires i <= |Split(s)|
    ensures |Split(r)| == |Split(s)| - i && (i < |Split(s)| ==> r != [] && Split(s)[i] == r[.. LineLength(r)])
    decreases i
  {
    if i == 0 then s else Rest(s[LineLength(s)..], i - 1)
  }

  lemma RestStart(s: string)
    ensures Rest(s, 0) == s
  {}

  lemma {:induction false} RestNext(s: string, i: nat)
    requires i < |Split(s)|
    ensures Rest(s, i + 1) == Rest(s, i)[LineLength(Rest(s, i))..]
    decreases i
  {
    if i > 0 { RestNext(s[LineLength(s)..], i - 1); }
  }

  ghost predicate Fits(ln: seq<string>, lnLen: seq<nat>)
  {
    |ln| == |lnLen| && forall i :: 0 <= i < |ln| ==> lnLen[i] <= |ln[i]|
  }

  /** The gap at pos has its first i lines filled; the lines around it are as before. */
  ghost predicate Filled(ln0: seq<string>, len0: seq<nat>, ln: seq<string>, lnLen: seq<nat>, ls: seq<string>,
    pos: nat, nDel: nat, i: nat)
  {
    && Fits(ln0, len0) && Fits(ln, lnLen) && pos + nDel <= |ln0| && |ln| == |ln0| - nDel + |ls| && i <= |ls|
    && ln[.. pos] == ln0[.. pos] && lnLen[.. pos] == len0[.. pos]
    && ln[pos + |ls| ..] == ln0[pos + nDel ..] && lnLen[pos + |ls| ..] == len0[pos + nDel ..]
    && forall j :: 0 <= j < i ==> ln[pos + j][.. lnLen[pos + j]] == ls[j]
  }

  lemma FillNone(ln0: seq<string>, len0: seq<nat>, ln: seq<string>, lnLen: seq<nat>, ls: seq<string>, pos: nat, nDel: nat)
    requires Fits(ln0, len0) && pos + nDel <= |ln0|
    requires ln == ln0[.. pos] + seq(|ls|, _ => []) + ln0[pos + nDel ..]
    requires lnLen == len0[.. pos] + seq(|ls|, _ => 0) + len0[pos + nDel ..]
    ensures Filled(ln0, len0, ln, lnLen, ls, pos, nDel, 0)
  {}

  lemma FillOne(ln0: seq<string>, len0: seq<nat>, ln: seq<string>, lnLen: seq<nat>, ls: seq<string>, pos: nat, nDel: nat, i: nat, l: string)
    requires Filled(ln0, len0, ln, lnLen, ls, pos, nDel, i) && i < |ls| && l == ls[i] != []
    ensures Filled(ln0, len0, ln[pos + i := Kept(l)], lnLen[pos + i := |l|], ls, pos, nDel, i + 1)
  {}

  lemma FillAll(ln0: seq<string>, len0: seq<nat>, ln: seq<string>, lnLen: seq<nat>, ls: seq<string>, pos: nat, nDel: nat)
    requires Filled(ln0, len0, ln, lnLen, ls, pos, nDel, |ls|)
    ensures Fits(ln, lnLen) && Texts(ln, lnLen) == Splice(Texts(ln0, len0), pos, nDel, ls)
  {
    forall j | pos + |ls| <= j < |ln| ensures ln[j] == ln0[j - |ls| + nDel] && lnLen[j] == len0[j - |ls| + nDel] {
      assert ln[j] == ln[pos + |ls| ..][j - pos - |ls|] && lnLen[j] == lnLen[pos + |ls| ..][j - pos - |ls|];
    }
    forall j | 0 <= j < pos ensures ln[j] == ln0[j] && lnLen[j] == len0[j] {
      assert ln[j] == ln[.. pos][j] && lnLen[j] == lnLen[.. pos][j];
    }
  }

  class Lbuf {
    var ln: seq<string>
    var lnLen: seq<nat>
    var mark: seq<int>
    var hist: seq<Lopt>
    var histU: nat
    var useq: nat
    var useqZero: nat
    var useqLast: nat
    ghost var past: seq<seq<string>>

    ghost predicate Rep()
      reads this
    {
      Fits(ln, lnLen)
    }

    ghost function S(): Buf
      reads this
      requires Rep()
    {
      Buf(Texts(ln, lnLen), mark, hist, histU, useq, useqZero, useqLast)
    }

    ghost predicate Valid()
      reads this
    {
      Rep() && Inv(S(), past)
    }

    /** lbuf_make */
    constructor ()
      ensures Valid() && S() == Made([]) && past == [[]]
    {
      ln, lnLen, mark, hist := [], [], seq(NMARKS, _ => -1), [];
      histU, useq, useqZero, useqLast := 0, 1, 0, 0;
      past := [[]];
      new;
      assert S() == Made([]);
      MadeInv([]);
    }

    /** linecount */
    method LineCount(t: Text) returns (n: nat)
      ensures n == |LinesOf(t)|
    {
      n := 0;
      if t.Str? {
        var s := t.s;
        while s != []
          invariant n + |Split(s)| == |Split(t.s)|
          decreases |s|
        {
          s := s[LineLength(s)..];
          n := n + 1;
        }
      }
    }

    /** lbuf_replace */
    method ReplaceLines(t: Text, pos: nat, nDel: nat)
      requires Rep() && |mark| == NMARKS && pos + nDel <= |ln|
      modifies this`ln, this`lnLen, this`mark
      ensures Rep() && |mark| == NMARKS && S() == Replace(old(S()), t, pos, nDel)
    {
      hide Splice, MoveMarks, Filled, Split, Rest, Texts, LineLength;
      var nIns := LineCount(t);
      ghost var ls, b, ln0, len0 := LinesOf(t), S(), ln, lnLen;
      ln := ln[.. pos] + seq(nIns, _ => []) + ln[pos + nDel ..];
      lnLen := lnLen[.. pos] + seq(nIns, _ => 0) + lnLen[pos + nDel ..];
      var s := if t.Str? then t.s else [];
      var i := 0;
      FillNone(ln0, len0, ln, lnLen, ls, pos, nDel);
      RestStart(s);
      while i < nIns
        invariant i <= nIns == |ls| && Filled(ln0, len0, ln, lnLen, ls, pos, nDel, i)
        invariant t.Str? ==> s == Rest(t.s, i)
        invariant mark == old(mark) && |ln| == |lnLen| && pos + nIns <= |ln|
      {
        var l := LineLength(s);
        RestNext(t.s, i);
        FillOne(ln0, len0, ln, lnLen, ls, pos, nDel, i, s[.. l]);
        ln := ln[pos + i := Kept(s[.. l])];
        lnLen := lnLen[pos + i := l];
        s := s[l ..];
        i := i + 1;
      }
      FillAll(ln0, len0, ln, lnLen, ls, pos, nDel);
      MoveAll(t.Null?, pos, nDel, nIns);
    }

    /** The marks of lbuf_replace. */
    method MoveAll(gone: bool, pos: nat, nDel: nat, nIns: nat)
      requires |mark| == NMARKS
      modifies this`mark
      ensures mark == MoveMarks(old(mark), gone, pos, nDel, nIns)
    {
      var i := 0;
      while i < NMARKS
        invariant i <= NMARKS == |mark|
        invariant forall j :: 0 <= j < i ==> mark[j] == MoveMark(old(mark)[j], gone, pos, nDel, nIns)
        invariant forall j :: i <= j < NMARKS ==> mark[j] == old(mark)[j]
      {
        var m := mark[i];
        if gone && m >= pos && m < pos + nDel {
          mark := mark[i := -1];
        } else if m >= pos + nDel {
          mark := mark[i := m + nIns - nDel];
        } else if m >= pos + nIns {
          mark := mark[i := pos + nIns - 1];
        }
        i := i + 1;
      }
      mark := mark[OPEN := pos];
      mark := mark[CLOSE := pos + if nIns > 0 then nIns - 1 else 0];
    }

    /** lbuf_copy */
    method Copy(beg: nat, end: nat) returns (s: string)
      requires Rep() && beg <= end
      ensures s == Concat(S().text[Clip(beg, |ln|) .. Clip(end, |ln|)])
    {
      s := [];
      ghost var t := Texts(ln, lnLen);
      var i := beg;
      while i < end
        invariant beg <= i <= end
        invariant s == Concat(t[Clip(beg, |ln|) .. Clip(i, |ln|)])
      {
        if i < |ln| {
          ConcatPush(t[beg .. i], t[i]);
          assert t[beg .. i] + [t[i]] == t[beg .. i + 1];
          s := s + ln[i][.. lnLen[i]];
        }
        i := i + 1;
      }
    }

    /** lbuf_savemark, for the base marks on the deleted lines. */
    method SaveMarks(pos: nat, nDel: nat) returns (saved: seq<int>)
      requires |mark| == NMARKS
      ensures saved == SavedMarks(mark, pos, nDel)
    {
      saved := seq(NMARKS, _ => -1);
      var i := 0;
      while i < NBASE
        invariant i <= NBASE && |saved| == NMARKS
        invariant forall j :: 0 <= j < i ==> saved[j] == SavedMarks(mark, pos, nDel)[j]
        invariant forall j :: i <= j < NMARKS ==> saved[j] == -1
      {
        if mark[i] >= pos && mark[i] < pos + nDel {
          saved := saved[i := mark[i]];
        }
        i := i + 1;
      }
    }

    /** lbuf_opt */
    method OptEdit(t: Text, pos: nat, nDel: nat)
      requires Rep() && |mark| == NMARKS && histU <= |hist| && pos + nDel <= |ln|
      modifies this`hist, this`histU, this`mark
      ensures Rep() && S() == Opt(old(S()), t, pos, nDel)
    {
      hide Concat, Split;
      hist := hist[.. histU];
      var n := LineCount(t);
      if |hist| > 0 {
        var lo := hist[|hist| - 1];
        if lo.seqno == useq && lo.pos == pos && lo.nIns == 1 && nDel == 1 && n == 1 {
          hist := hist[|hist| - 1 := lo.(ins := t)];
          histU := |hist|;
          mark := mark[STAR := mark[CARET]];
          return;
        }
      }
      var del := Null;
      if nDel > 0 {
        var s := Copy(pos, pos + nDel);
        del := Str(s);
      }
      mark := mark[STAR := mark[CARET]];
      var saved := SaveMarks(pos, nDel);
      hist := hist + [Lopt(t, del, pos, n, nDel, useq, saved)];
      histU := |hist|;
    }

    /** lbuf_editraw, and so lbuf_edit */
    method EditRaw(t: Text, beg: nat, end: nat)
      requires Valid() && beg <= end
      modifies this
      ensures Rep() && S() == Edited(old(S()), t, beg, end)
      ensures past == Past(old(S()), old(past), t, beg, end)
      ensures Valid() <==> Restorable(old(S()), t, beg, end)
    {
      hide Inv, Opt, Replace, Past, Restorable;
      EditKeepsIff(S(), past, t, beg, end);
      InvShape(S(), past);
      var x, y := beg, end;
      if x > |ln| {
        x := |ln|;
      }
      if y > |ln| {
        y := |ln|;
      }
      past := Past(S(), past, t, beg, end);
      if x == y && t.Null? {
        PastNone(S(), old(past), t, beg, end);
        return;
      }
      OptEdit(t, x, y - x);
      ReplaceLines(t, x, y - x);
    }

    /** lbuf_undo */
    method Undo() returns (failed: bool)
      requires Valid()
      modifies this
      ensures failed <==> old(histU) == 0
      ensures Valid() && S() == Undone(old(S())) && past == old(past)
    {
      hide Inv, UndoOne, Within, Replace, LoadMarks, Leads, IsWhole, Ordered, Boundary, Texts, Shape, UndoRun;
      ghost var b := S();
      InvShape(b, past);
      UndoKeeps(b, past);
      if histU == 0 {
        return true;
      }
      var seqno := hist[histU - 1].seqno;
      InvWithin(b, past);
      while histU > 0 && hist[histU - 1].seqno == seqno
        invariant Rep() && Within(S(), past) && past == old(past)
        invariant Shape(S()) && histU <= |hist| && UndoRun(S(), seqno) == UndoRun(b, seqno)
        decreases histU
      {
        ghost var now := S();
        UndoStep(now, past);
        UndoOneIs(now, past);
        assert seqno == now.hist[now.u - 1].seqno;
        histU := histU - 1;
        var lo := hist[histU];
        assert S() == now.(u := now.u - 1);
        ReplaceLines(lo.del, lo.pos, lo.nIns);
        LoadAll(lo);
        assert S() == UndoOne(now);
      }
      UndoRunEnds(S(), seqno);
      return false;
    }

    /** lbuf_loadpos and lbuf_loadmark */
    method LoadAll(lo: Lopt)
      requires |mark| == NMARKS && |lo.saved| == NMARKS
      modifies this`mark
      ensures mark == LoadMarks(old(mark), lo)
    {
      mark := mark[CARET := lo.pos];
      mark := mark[STAR := mark[CARET]];
      ghost var m := mark;
      var i := 0;
      while i < NMARKS
        invariant i <= NMARKS == |mark|
        invariant forall j :: 0 <= j < NMARKS ==> mark[j] == if j < i && lo.saved[j] >= 0 then lo.saved[j] else m[j]
      {
        if lo.saved[i] >= 0 {
          mark := mark[i := lo.saved[i]];
        }
        i := i + 1;
      }
    }

    /** lbuf_redo */
    method Redo() returns (failed: bool)
      requires Valid()
      modifies this
      ensures failed <==> old(histU) == |old(hist)|
      ensures Valid() && S() == Redone(old(S())) && past == old(past)
    {
      hide Inv, RedoOne, Within, Replace, Leads, IsWhole, Ordered, Boundary, Texts;
      ghost var b := S();
      InvShape(b, past);
      RedoKeeps(b, past);
      if histU == |hist| {
        return true;
      }
      var seqno := hist[histU].seqno;
      InvWithin(b, past);
      while histU < |hist| && hist[histU].seqno == seqno
        invariant Rep() && Within(S(), past) && past == old(past)
        invariant Shape(S()) && RedoRun(S(), seqno) == RedoRun(b, seqno)
        decreases |hist| - histU
      {
        ghost var now := S();
        RedoStep(now, past);
        RedoOneIs(now, past);
        var lo := hist[histU];
        histU := histU + 1;
        assert S() == now.(u := now.u + 1);
        ReplaceLines(lo.ins, lo.pos, lo.nDel);
        mark := mark[CARET := lo.pos];
        mark := mark[STAR := mark[CARET]];
        assert S() == RedoOne(now);
      }
      return false;
    }

    /** lbuf_seq */
    method Seq() returns (n: nat)
      requires Rep() && histU <= |hist|
      ensures n == SeqAt(S(), histU)
    {
      n := if histU > 0 then hist[histU - 1].seqno else useqLast;
    }

    /** lbuf_saved */
    method MarkSaved(clear: bool)
      requires Valid()
      modifies this
      ensures Valid() && S() == Saved(old(S()), clear) && past == PastAfter(old(S()), old(past), Save(clear))
    {
      hide Inv;
      InvShape(S(), past);
      StepKeeps(S(), past, Save(clear));
      if clear {
        hist := [];
        histU := 0;
        useqLast := useq;
        past := [Texts(ln, lnLen)];
      }
      useqZero := Seq();
    }

    /** lbuf_modified */
    method IsModified() returns (r: bool)
      requires Valid()
      ensures r <==> Modified(S())
    {
      var n := Seq();
      r := n != useqZero;
    }

    /** lbuf_tx */
    method Tx()
      requires Valid()
      modifies this`useq
      ensures Valid() && S() == old(S()).(useq := old(useq) + 1)
    {
      hide Leads, IsWhole;
      useq := useq + 1;
    }
  }

  lemma InvShape(b: Buf, past: seq<seq<string>>)
    requires Inv(b, past)
    ensures Shape(b) && |past| == |b.hist| + 1 && b.u <= |b.hist|
  {}

  lemma InvWithin(b: Buf, past: seq<seq<string>>)
    requires Inv(b, past)
    ensures Within(b, past)
  {}

  lemma PastNone(b: Buf, past: seq<seq<string>>, t: Text, beg: nat, end: nat)
    requires Shape(b) && beg <= end && |past| == |b.hist| + 1
    requires Clip(beg, |b.text|) == Clip(end, |b.text|) && t.Null?
    ensures Past(b, past, t, beg, end) == past
  {}

  lemma UndoRunEnds(b: Buf, useq: nat)
    requires Shape(b) && !(b.u > 0 && b.hist[b.u - 1].seqno == useq)
    ensures UndoRun(b, useq) == b
  {}

  lemma UndoOneIs(b: Buf, past: seq<seq<string>>)
    requires Within(b, past) && b.u > 0
    ensures Shape(b) && b.u <= |b.hist| && |b.mark| == NMARKS
    ensures Shape(UndoOne(b)) && UndoRun(b, b.hist[b.u - 1].seqno) == UndoRun(UndoOne(b), b.hist[b.u - 1].seqno)
    ensures var lo := b.hist[b.u - 1];
            lo.pos + lo.nIns <= |b.text| && |lo.saved| == NMARKS &&
            var c := Replace(b.(u := b.u - 1), lo.del, lo.pos, lo.nIns); UndoOne(b) == c.(mark := LoadMarks(c.mark, lo))
  {
    UndoStep(b, past);
    hide AllLines;
    assert Leads(b.hist[b.u - 1], past[b.u - 1], past[b.u]);
  }

  lemma RedoOneIs(b: Buf, past: seq<seq<string>>)
    requires Within(b, past) && b.u < |b.hist|
    ensures var lo := b.hist[b.u];
            lo.pos + lo.nDel <= |b.text| &&
            var c := Replace(b.(u := b.u + 1), lo.ins, lo.pos, lo.nDel);
            RedoOne(b) == c.(mark := c.mark[CARET := lo.pos][STAR := lo.pos])
  {
    hide AllLines;
    assert Leads(b.hist[b.u], past[b.u], past[b.u + 1]);
  }
}
