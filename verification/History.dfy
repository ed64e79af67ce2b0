/** The undo history of ports/neatvi/lbuf.c: what an edit, an undo and a redo make of a buffer. */
module History {
  import opened Lines

  const NMARKS := 32
  const NBASE := 28        // marks that are saved with a deletion
  const STAR := 27         // '*'
  const OPEN := 28         // '['
  const CLOSE := 29        // ']'
  const CARET := 30        // '^'

  /** A char pointer that may be NULL. */
  datatype Text = Null | Str(s: string)

  /** struct lopt; marks that were not saved are -1. */
  datatype Lopt = Lopt(ins: Text, del: Text, pos: nat, nIns: nat, nDel: nat, seqno: nat, saved: seq<int>)

  /** struct lbuf: its lines, its marks, and its history with the current position u. */
  datatype Buf = Buf(text: seq<string>, mark: seq<int>, hist: seq<Lopt>, u: nat, useq: nat, zero: nat, last: nat)

  function LinesOf(t: Text): seq<string>
  {
    if t.Null? then [] else Split(t.s)
  }

  // ---------- the operations ----------

  /** Where the mark of a line is after nDel lines at pos have been replaced by nIns lines. */
  function MoveMark(m: int, gone: bool, pos: nat, nDel: nat, nIns: nat): int
  {
    if gone && pos <= m < pos + nDel then -1
    else if m >= pos + nDel then m + nIns - nDel
    else if m >= pos + nIns then pos + nIns - 1
    else m
  }

  function MoveMarks(mark: seq<int>, gone: bool, pos: nat, nDel: nat, nIns: nat): (r: seq<int>)
    requires |mark| == NMARKS
    ensures |r| == NMARKS
  {
    seq(NMARKS, i requires 0 <= i < NMARKS =>
      if i == OPEN then pos
      else if i == CLOSE then pos + (if nIns > 0 then nIns - 1 else 0)
      else MoveMark(mark[i], gone, pos, nDel, nIns))
  }

  /** lbuf_replace */
  function Replace(b: Buf, t: Text, pos: nat, nDel: nat): Buf
    requires |b.mark| == NMARKS
  {
    b.(text := Splice(b.text, pos, nDel, LinesOf(t)), mark := MoveMarks(b.mark, t.Null?, pos, nDel, |LinesOf(t)|))
  }

  /** lbuf_savemark, for all base marks on the lines from pos on. */
  function SavedMarks(mark: seq<int>, pos: nat, nDel: nat): (r: seq<int>)
    requires |mark| == NMARKS
    ensures |r| == NMARKS
  {
    seq(NMARKS, i requires 0 <= i < NMARKS => if i < NBASE && pos <= mark[i] < pos + nDel then mark[i] else -1)
  }

  /** The edit at pos changes the one line that the last edit of the change set made. */
  predicate Merges(b: Buf, t: Text, pos: nat, nDel: nat)
    requires b.u <= |b.hist|
  {
    && b.u > 0 && b.hist[b.u - 1].seqno == b.useq && b.hist[b.u - 1].pos == pos
    && b.hist[b.u - 1].nIns == 1 && nDel == 1 && |LinesOf(t)| == 1
  }

  function Record(b: Buf, t: Text, pos: nat, nDel: nat): Lopt
    requires |b.mark| == NMARKS
  {
    Lopt(t, if nDel > 0 && pos + nDel <= |b.text| then Str(Concat(b.text[pos .. pos + nDel])) else Null, pos,
      |LinesOf(t)|, nDel, b.useq, SavedMarks(b.mark[STAR := b.mark[CARET]], pos, nDel))
  }

  /** lbuf_opt: the redo tail is dropped, and the edit is recorded. */
  function Opt(b: Buf, t: Text, pos: nat, nDel: nat): (r: Buf)
    requires |b.mark| == NMARKS && b.u <= |b.hist|
    ensures |r.mark| == NMARKS && r.u == |r.hist| && r.text == b.text
  {
    var h := if Merges(b, t, pos, nDel) then b.hist[.. b.u][b.u - 1 := b.hist[b.u - 1].(ins := t)]
             else b.hist[.. b.u] + [Record(b, t, pos, nDel)];
    b.(hist := h, u := |h|, mark := b.mark[STAR := b.mark[CARET]])
  }

  function Clip(i: nat, n: nat): nat { if i > n then n else i }

  /** lbuf_editraw */
  function Edited(b: Buf, t: Text, beg: nat, end: nat): (r: Buf)
    requires |b.mark| == NMARKS && b.u <= |b.hist| && beg <= end
    ensures |r.mark| == NMARKS && r.u <= |r.hist|
  {
    var x, y := Clip(beg, |b.text|), Clip(end, |b.text|);
    if x == y && t.Null? then b else Replace(Opt(b, t, x, y - x), t, x, y - x)
  }

  function LoadMarks(mark: seq<int>, lo: Lopt): (r: seq<int>)
    requires |mark| == NMARKS && |lo.saved| == NMARKS
    ensures |r| == NMARKS
  {
    seq(NMARKS, i requires 0 <= i < NMARKS =>
      if lo.saved[i] >= 0 then lo.saved[i] else if i == CARET || i == STAR then lo.pos else mark[i])
  }

  /** One turn of lbuf_undo. */
  function UndoOne(b: Buf): (r: Buf)
    requires |b.mark| == NMARKS && 0 < b.u <= |b.hist| && |b.hist[b.u - 1].saved| == NMARKS
    ensures |r.mark| == NMARKS
  {
    var lo := b.hist[b.u - 1];
    var c := Replace(b.(u := b.u - 1), lo.del, lo.pos, lo.nIns);
    c.(mark := LoadMarks(c.mark, lo))
  }

  /** One turn of lbuf_redo. */
  function RedoOne(b: Buf): (r: Buf)
    requires |b.mark| == NMARKS && b.u < |b.hist|
    ensures |r.mark| == NMARKS
  {
    var lo := b.hist[b.u];
    var c := Replace(b.(u := b.u + 1), lo.ins, lo.pos, lo.nDel);
    c.(mark := c.mark[CARET := lo.pos][STAR := lo.pos])
  }

  predicate Shape(b: Buf)
  {
    |b.mark| == NMARKS && b.u <= |b.hist| && forall i :: 0 <= i < |b.hist| ==> |b.hist[i].saved| == NMARKS
  }

  function UndoRun(b: Buf, useq: nat): (r: Buf)
    requires Shape(b)
    ensures Shape(r) && r.u <= b.u && r.hist == b.hist
    decreases b.u
  {
    if b.u > 0 && b.hist[b.u - 1].seqno == useq then UndoRun(UndoOne(b), useq) else b
  }

  function RedoRun(b: Buf, useq: nat): (r: Buf)
    requires Shape(b)
    ensures Shape(r) && r.u >= b.u && r.hist == b.hist
    decreases |b.hist| - b.u
  {
    if b.u < |b.hist| && b.hist[b.u].seqno == useq then RedoRun(RedoOne(b), useq) else b
  }

  /** lbuf_undo */
  function Undone(b: Buf): (r: Buf)
    requires Shape(b)
    ensures Shape(r)
  {
    if b.u == 0 then b else UndoRun(b, b.hist[b.u - 1].seqno)
  }

  /** lbuf_redo */
  function Redone(b: Buf): (r: Buf)
    requires Shape(b)
    ensures Shape(r)
  {
    if b.u == |b.hist| then b else RedoRun(b, b.hist[b.u].seqno)
  }

  /** lbuf_seq */
  function SeqAt(b: Buf, i: nat): nat
    requires i <= |b.hist|
  {
    if i > 0 then b.hist[i - 1].seqno else b.last
  }

  /** lbuf_modified */
  predicate Modified(b: Buf)
    requires b.u <= |b.hist|
  {
    SeqAt(b, b.u) != b.zero
  }

  /** lbuf_saved */
  function Saved(b: Buf, clear: bool): (r: Buf)
    requires Shape(b)
    ensures Shape(r) && !Modified(r)
  {
    var c := if clear then b.(hist := [], u := 0, last := b.useq) else b;
    c.(zero := SeqAt(c, c.u))
  }

  /** lbuf_mark on a mark the user may set. */
  function SetMark(b: Buf, i: nat, pos: int): (r: Buf)
    requires Shape(b) && i < NMARKS
    ensures Shape(r)
  {
    b.(mark := b.mark[i := pos])
  }

  // ---------- the invariant ----------

  predicate SoundText(t: Text)
  {
    t.Str? ==> IsSound(t.s)
  }

  /** An entry of the history leads from text t to text t2 and back. */
  predicate Leads(lo: Lopt, t: seq<string>, t2: seq<string>)
  {
    && lo.pos + lo.nDel <= |t| && lo.nIns == |LinesOf(lo.ins)|
    && LinesOf(lo.del) == t[lo.pos .. lo.pos + lo.nDel]
    && t2 == Splice(t, lo.pos, lo.nDel, LinesOf(lo.ins))
  }

  /** Between the edits i - 1 and i a change set ends, or the history does. */
  predicate Boundary(hist: seq<Lopt>, i: nat)
    requires i <= |hist|
  {
    i == 0 || i == |hist| || hist[i - 1].seqno != hist[i].seqno
  }

  predicate Ordered(b: Buf)
  {
    && (forall i, j :: 0 <= i <= j < |b.hist| ==> b.hist[i].seqno <= b.hist[j].seqno)
    && (forall i :: 0 <= i < |b.hist| ==> b.last <= b.hist[i].seqno <= b.useq)
    && b.last <= b.useq && b.zero <= b.useq
  }

  /** past[i] is the text with the first i edits of the history applied; the buffer holds past[u],
      and u is where a change set ends. */
  ghost predicate Inv(b: Buf, past: seq<seq<string>>)
  {
    && Shape(b) && Ordered(b) && Boundary(b.hist, b.u)
    && |past| == |b.hist| + 1 && b.text == past[b.u]
    && (forall i :: 0 <= i < |past| ==> AllLines(past[i]))
    && (forall i :: 0 <= i < |b.hist| ==> Leads(b.hist[i], past[i], past[i + 1]))
  }

  /** The text with the first n edits applied to a base text. */
  function Played(base: seq<string>, hist: seq<Lopt>, n: nat): seq<string>
    requires n <= |hist|
  {
    if n == 0 then base
    else Splice(Played(base, hist, n - 1), hist[n - 1].pos, hist[n - 1].nDel, LinesOf(hist[n - 1].ins))
  }

  /** The text is the base text with hist[0..u) applied. */
  lemma {:induction false} PastIsPlayed(b: Buf, past: seq<seq<string>>, i: nat)
    requires Inv(b, past) && i <= |b.hist|
    ensures past[i] == Played(past[0], b.hist, i)
  {
    if i > 0 {
      PastIsPlayed(b, past, i - 1);
      assert Leads(b.hist[i - 1], past[i - 1], past[i]);
    }
  }

  // ---------- edits ----------

  function Past(b: Buf, past: seq<seq<string>>, t: Text, beg: nat, end: nat): seq<seq<string>>
    requires Shape(b) && beg <= end && |past| == |b.hist| + 1
  {
    var x, y := Clip(beg, |b.text|), Clip(end, |b.text|);
    if x == y && t.Null? then past
    else past[.. if Merges(b, t, x, y - x) then b.u else b.u + 1] + [Edited(b, t, beg, end).text]
  }

  lemma TextLines(b: Buf, past: seq<seq<string>>)
    requires Inv(b, past)
    ensures AllLines(b.text) && Shape(b) && |past| == |b.hist| + 1
  {}

  lemma EditedText(b: Buf, t: Text, pos: nat, nDel: nat)
    requires |b.mark| == NMARKS && b.u <= |b.hist|
    ensures Replace(Opt(b, t, pos, nDel), t, pos, nDel).text == Splice(b.text, pos, nDel, LinesOf(t))
    ensures |Opt(b, t, pos, nDel).hist| == if Merges(b, t, pos, nDel) then b.u else b.u + 1
  {}

  lemma LinesAre(t: Text)
    ensures AllLines(LinesOf(t))
  {
    if t.Str? { ConcatOfSplit(t.s); }
  }

  /** What the edit deletes can be put back by undo: it is taken apart into the same lines again. */
  predicate Restorable(b: Buf, t: Text, beg: nat, end: nat)
    requires b.u <= |b.hist| && beg <= end
  {
    var x, y := Clip(beg, |b.text|), Clip(end, |b.text|);
    (x == y && t.Null?) || Merges(b, t, x, y - x) || Ending(b.text[x .. y])
  }

  /** An edit keeps the invariant if and only if all but the last of the lines that it deletes end
      with a newline, or it is merged with the edit before. */
  lemma EditKeepsIff(b: Buf, past: seq<seq<string>>, t: Text, beg: nat, end: nat)
    requires Inv(b, past) && beg <= end
    ensures b.u <= |b.hist| && |past| == |b.hist| + 1 && Shape(b)
    ensures Inv(Edited(b, t, beg, end), Past(b, past, t, beg, end)) <==> Restorable(b, t, beg, end)
  {
    hide *;
    TextLines(b, past);
    var x, y := Clip(beg, |b.text|), Clip(end, |b.text|);
    EditedIs(b, past, t, beg, end, x, y);
    RestorableIs(b, t, beg, end, x, y);
    if !(x == y && t.Null?) { EditInside(b, past, t, x, y - x); }
  }

  lemma RestorableIs(b: Buf, t: Text, beg: nat, end: nat, x: nat, y: nat)
    requires Shape(b) && beg <= end && x == Clip(beg, |b.text|) && y == Clip(end, |b.text|)
    ensures b.u <= |b.hist| && x <= y <= |b.text|
    ensures Restorable(b, t, beg, end) <==> (x == y && t.Null?) || Merges(b, t, x, y - x) || Ending(b.text[x .. y])
  {}

  /** In a buffer of whole lines every edit can be undone, and text that ends with a newline leaves
      it one. */
  lemma WholeRestorable(b: Buf, past: seq<seq<string>>, t: Text, beg: nat, end: nat)
    requires Inv(b, past) && beg <= end && AllPastWhole(past)
    ensures b.u <= |b.hist| && |past| == |b.hist| + 1 && Shape(b) && Restorable(b, t, beg, end)
    ensures SoundText(t) ==> AllPastWhole(Past(b, past, t, beg, end))
  {
    hide AllWhole, Leads, Splice, Merges, LinesOf, Opt, Replace, IsSound;
    var x, y := Clip(beg, |b.text|), Clip(end, |b.text|);
    EditedIs(b, past, t, beg, end, x, y);
    WholeInside(b.text, t, x, y - x);
  }

  predicate AllPastWhole(past: seq<seq<string>>)
  {
    forall i :: 0 <= i < |past| ==> AllWhole(past[i])
  }

  lemma WholeInside(text: seq<string>, t: Text, pos: nat, nDel: nat)
    requires AllWhole(text) && pos + nDel <= |text|
    ensures Ending(text[pos .. pos + nDel])
    ensures SoundText(t) ==> AllWhole(Splice(text, pos, nDel, LinesOf(t)))
  {
    if SoundText(t) {
      if t.Str? { SplitSound(t.s); }
      SpliceWhole(text, pos, nDel, LinesOf(t));
    }
  }

  lemma EditedIs(b: Buf, past: seq<seq<string>>, t: Text, beg: nat, end: nat, x: nat, y: nat)
    requires Shape(b) && beg <= end && |past| == |b.hist| + 1 && x == Clip(beg, |b.text|) && y == Clip(end, |b.text|)
    ensures x <= y <= |b.text|
    ensures x == y && t.Null? ==> Edited(b, t, beg, end) == b && Past(b, past, t, beg, end) == past
    ensures !(x == y && t.Null?) ==>
              && Edited(b, t, beg, end) == Replace(Opt(b, t, x, y - x), t, x, y - x)
              && Past(b, past, t, beg, end) ==
                 past[.. if Merges(b, t, x, y - x) then b.u else b.u + 1] + [Splice(b.text, x, y - x, LinesOf(t))]
  {
    EditedText(b, t, x, y - x);
    hide Opt, Replace, Splice, LinesOf, Merges;
  }

  lemma EditInside(b: Buf, past: seq<seq<string>>, t: Text, pos: nat, nDel: nat)
    requires Inv(b, past) && pos + nDel <= |b.text| && Shape(b) && |past| == |b.hist| + 1
    ensures Inv(Replace(Opt(b, t, pos, nDel), t, pos, nDel),
                past[.. if Merges(b, t, pos, nDel) then b.u else b.u + 1] + [Splice(b.text, pos, nDel, LinesOf(t))])
            <==> Merges(b, t, pos, nDel) || Ending(b.text[pos .. pos + nDel])
  {
    TextLines(b, past);
    hide AllLines, Splice, Inv, Opt, Replace, LinesOf, Ending;
    LinesAre(t);
    SpliceLines(b.text, pos, nDel, LinesOf(t));
    if Merges(b, t, pos, nDel) { MergeKeeps(b, past, t, pos); } else { AppendKeepsIff(b, past, t, pos, nDel); }
  }

  lemma AppendKeepsIff(b: Buf, past: seq<seq<string>>, t: Text, pos: nat, nDel: nat)
    requires Inv(b, past) && pos + nDel <= |b.text| && !Merges(b, t, pos, nDel)
    requires AllLines(Splice(b.text, pos, nDel, LinesOf(t)))
    ensures Inv(Replace(Opt(b, t, pos, nDel), t, pos, nDel), past[.. b.u + 1] + [Splice(b.text, pos, nDel, LinesOf(t))])
            <==> Ending(b.text[pos .. pos + nDel])
  {
    hide AllLines, Splice, Ending, LinesOf, Inv, Replace, Opt, Record, Leads;
    TextLines(b, past);
    RecordLeadsIff(b, t, pos, nDel);
    RecordMark(b, t, pos, nDel);
    var r := Replace(Opt(b, t, pos, nDel), t, pos, nDel);
    var past' := past[.. b.u + 1] + [Splice(b.text, pos, nDel, LinesOf(t))];
    if Inv(r, past') { LastLeads(b, r, past, past', Record(b, t, pos, nDel)); }
    if Leads(Record(b, t, pos, nDel), b.text, Splice(b.text, pos, nDel, LinesOf(t))) { AppendKeeps(b, past, t, pos, nDel); }
  }

  lemma LastLeads(b: Buf, r: Buf, past: seq<seq<string>>, past': seq<seq<string>>, lo: Lopt)
    requires Inv(b, past) && Inv(r, past') && b.u < |past| && b.u < |past'| && past'[.. b.u + 1] == past[.. b.u + 1]
    requires b.u <= |b.hist| && r.hist == b.hist[.. b.u] + [lo]
    ensures b.u + 1 < |past'| && Leads(lo, b.text, past'[b.u + 1])
  {
    hide AllLines;
    assert past'[.. b.u + 1][b.u] == past[b.u] == b.text;
    assert Leads(r.hist[b.u], past'[b.u], past'[b.u + 1]);
  }

  lemma AppendKeeps(b: Buf, past: seq<seq<string>>, t: Text, pos: nat, nDel: nat)
    requires Inv(b, past) && pos + nDel <= |b.text| && !Merges(b, t, pos, nDel)
    requires AllLines(Splice(b.text, pos, nDel, LinesOf(t)))
    requires Leads(Record(b, t, pos, nDel), b.text, Splice(b.text, pos, nDel, LinesOf(t)))
    ensures Inv(Replace(Opt(b, t, pos, nDel), t, pos, nDel), past[.. b.u + 1] + [Splice(b.text, pos, nDel, LinesOf(t))])
  {
    hide AllLines, Splice, LinesOf, Leads;
    var r := Replace(Opt(b, t, pos, nDel), t, pos, nDel);
    var past' := past[.. b.u + 1] + [Splice(b.text, pos, nDel, LinesOf(t))];
    forall i | 0 <= i < |r.hist| ensures Leads(r.hist[i], past'[i], past'[i + 1]) {
      if i < b.u { assert Leads(b.hist[i], past[i], past[i + 1]); }
    }
  }

  lemma RecordMark(b: Buf, t: Text, pos: nat, nDel: nat)
    requires Shape(b) && !Merges(b, t, pos, nDel)
    ensures Opt(b, t, pos, nDel).hist == b.hist[.. b.u] + [Record(b, t, pos, nDel)]
    ensures Replace(Opt(b, t, pos, nDel), t, pos, nDel).hist == b.hist[.. b.u] + [Record(b, t, pos, nDel)]
  {}

  lemma RecordLeadsIff(b: Buf, t: Text, pos: nat, nDel: nat)
    requires Shape(b) && pos + nDel <= |b.text| && AllLines(b.text)
    ensures Leads(Record(b, t, pos, nDel), b.text, Splice(b.text, pos, nDel, LinesOf(t))) <==> Ending(b.text[pos .. pos + nDel])
    ensures LinesOf(Record(b, t, pos, nDel).del) == b.text[pos .. pos + nDel] <==> Ending(b.text[pos .. pos + nDel])
  {
    hide Split, Concat;
    SplitOfConcat(b.text[pos .. pos + nDel]);
  }

  /** An edit that is merged leads from before the edit it is merged with. */
  lemma MergeKeeps(b: Buf, past: seq<seq<string>>, t: Text, pos: nat)
    requires Inv(b, past) && pos + 1 <= |b.text| && Merges(b, t, pos, 1)
    requires AllLines(Splice(b.text, pos, 1, LinesOf(t)))
    ensures Inv(Replace(Opt(b, t, pos, 1), t, pos, 1), past[.. b.u] + [Splice(b.text, pos, 1, LinesOf(t))])
  {
    hide AllLines, Ending, Splice;
    var r := Replace(Opt(b, t, pos, 1), t, pos, 1);
    var past' := past[.. b.u] + [Splice(b.text, pos, 1, LinesOf(t))];
    var lo := b.hist[b.u - 1];
    assert Leads(lo, past[b.u - 1], past[b.u]);
    SpliceTwice(past[b.u - 1], lo.pos, lo.nDel, LinesOf(lo.ins), LinesOf(t));
    assert Leads(r.hist[b.u - 1], past'[b.u - 1], past'[b.u]);
    forall i | 0 <= i < |r.hist| ensures Leads(r.hist[i], past'[i], past'[i + 1]) {
      if i < b.u - 1 { assert Leads(b.hist[i], past[i], past[i + 1]); }
    }
  }

  /** Undoing an edit restores the text if and only if all but the last of the deleted lines end
      with a newline. */
  lemma UndoRestoresIff(b: Buf, t: Text, pos: nat, nDel: nat)
    requires Shape(b) && pos + nDel <= |b.text| && AllLines(b.text) && !Merges(b, t, pos, nDel)
    ensures var c := Replace(Opt(b, t, pos, nDel), t, pos, nDel);
            0 < c.u <= |c.hist| && |c.hist[c.u - 1].saved| == NMARKS && c.text == Splice(b.text, pos, nDel, LinesOf(t)) &&
            (UndoOne(c).text == b.text <==> Ending(b.text[pos .. pos + nDel]))
  {
    RecordMark(b, t, pos, nDel);
    RecordLeadsIff(b, t, pos, nDel);
    hide AllLines, Ending, Splice, LinesOf;
    SpliceBackIff(b.text, pos, nDel, LinesOf(t), LinesOf(Record(b, t, pos, nDel).del));
  }

  /** A file read in that ends without a newline, and a line appended to it: once both lines have
      been deleted, undo makes one line of them. */
  lemma UndoJoinsLines(b: Buf)
    requires Shape(b) && b.text == ["a", "b\n"] && (b.u > 0 ==> b.hist[b.u - 1].seqno < b.useq)
    ensures var c := Edited(b, Null, 0, 2); Shape(c) && c.text == [] && c.u > 0 && Undone(c).text == ["ab\n"]
  {
    hide Split, Concat, UndoRun;
    var c, lo := Edited(b, Null, 0, 2), Record(b, Null, 0, 2);
    JoinedRecord(b);
    RecordMark(b, Null, 0, 2);
    assert c.hist == b.hist[.. b.u] + [lo] && c.u == |c.hist| && c.text == [];
    UndoOneSet(c);
  }

  lemma JoinedRecord(b: Buf)
    requires Shape(b) && b.text == ["a", "b\n"]
    ensures LinesOf(Record(b, Null, 0, 2).del) == ["ab\n"]
  {
    assert ["a", "b\n"][1..] == ["b\n"];
    assert Concat(["a", "b\n"]) == "ab\n";
    assert b.text[0 .. 2] == b.text;
    SplitLine("ab\n");
  }

  /** A change set of one edit. */
  lemma UndoOneSet(c: Buf)
    requires Shape(c) && c.u > 0 && (c.u > 1 ==> c.hist[c.u - 2].seqno != c.hist[c.u - 1].seqno)
    ensures Undone(c) == UndoOne(c)
  {
    hide Split, MoveMark, Splice;
    var d := UndoOne(c);
    assert UndoRun(d, c.hist[c.u - 1].seqno) == d;
  }

  /** Such a buffer comes of reading and appending. */
  lemma UnendedLines()
    ensures var b := Edited(Made([]), Str("a"), 0, 0); Edited(b, Str("b\n"), 1, 1).text == ["a", "b\n"]
  {
    hide Split, Opt, MoveMarks;
    SplitLine("a");
    SplitLine("b\n");
    EditedText(Made([]), Str("a"), 0, 0);
    EditedText(Edited(Made([]), Str("a"), 0, 0), Str("b\n"), 1, 0);
  }

  lemma SplitLine(l: string)
    requires IsLine(l)
    ensures Split(l) == [l]
  {
    LineLengthOf(l, []);
    assert l + [] == l;
  }

  // ---------- undo and redo ----------

  /** One step back or forth in the past. Between change sets only the boundary is missing. */
  ghost predicate Within(b: Buf, past: seq<seq<string>>)
  {
    && Shape(b) && Ordered(b) && |past| == |b.hist| + 1 && b.text == past[b.u]
    && (forall i :: 0 <= i < |past| ==> AllLines(past[i]))
    && (forall i :: 0 <= i < |b.hist| ==> Leads(b.hist[i], past[i], past[i + 1]))
  }

  lemma UndoStep(b: Buf, past: seq<seq<string>>)
    requires Within(b, past) && b.u > 0
    ensures Within(UndoOne(b), past) && UndoOne(b) == b.(u := b.u - 1, text := past[b.u - 1], mark := UndoOne(b).mark)
  {
    hide AllLines, Ending;
    var lo := b.hist[b.u - 1];
    assert Leads(lo, past[b.u - 1], past[b.u]);
    SpliceBack(past[b.u - 1], lo.pos, lo.nDel, LinesOf(lo.ins));
  }

  lemma RedoStep(b: Buf, past: seq<seq<string>>)
    requires Within(b, past) && b.u < |b.hist|
    ensures Within(RedoOne(b), past) && RedoOne(b) == b.(u := b.u + 1, text := past[b.u + 1], mark := RedoOne(b).mark)
  {
    hide AllLines, Ending;
    assert Leads(b.hist[b.u], past[b.u], past[b.u + 1]);
  }

  /** Where the change set that ends at i begins. */
  function RunStart(hist: seq<Lopt>, i: nat, useq: nat): (k: nat)
    requires i <= |hist|
    ensures k <= i && (k > 0 ==> hist[k - 1].seqno != useq)
    ensures forall j :: k <= j < i ==> hist[j].seqno == useq
  {
    if i > 0 && hist[i - 1].seqno == useq then RunStart(hist, i - 1, useq) else i
  }

  /** Where the change set that begins at i ends. */
  function RunEnd(hist: seq<Lopt>, i: nat, useq: nat): (k: nat)
    requires i <= |hist|
    ensures i <= k <= |hist| && (k < |hist| ==> hist[k].seqno != useq)
    ensures forall j :: i <= j < k ==> hist[j].seqno == useq
    decreases |hist| - i
  {
    if i < |hist| && hist[i].seqno == useq then RunEnd(hist, i + 1, useq) else i
  }

  lemma {:induction false} UndoRunIs(b: Buf, past: seq<seq<string>>, useq: nat)
    requires Within(b, past)
    ensures var r, k := UndoRun(b, useq), RunStart(b.hist, b.u, useq);
            Within(r, past) && r == b.(u := k, text := past[k], mark := r.mark)
    decreases b.u
  {
    hide Leads, AllLines, UndoOne;
    if b.u > 0 && b.hist[b.u - 1].seqno == useq {
      UndoStep(b, past);
      UndoRunIs(UndoOne(b), past, useq);
    }
  }

  lemma {:induction false} RedoRunIs(b: Buf, past: seq<seq<string>>, useq: nat)
    requires Within(b, past)
    ensures var r, k := RedoRun(b, useq), RunEnd(b.hist, b.u, useq);
            Within(r, past) && r == b.(u := k, text := past[k], mark := r.mark)
    decreases |b.hist| - b.u
  {
    hide Leads, AllLines, RedoOne;
    if b.u < |b.hist| && b.hist[b.u].seqno == useq {
      RedoStep(b, past);
      RedoRunIs(RedoOne(b), past, useq);
    }
  }

  /** Undo goes back to the begin of the last change set, and keeps the invariant. */
  lemma UndoKeeps(b: Buf, past: seq<seq<string>>)
    requires Inv(b, past)
    ensures Inv(Undone(b), past)
    ensures b.u > 0 ==> Undone(b).u == RunStart(b.hist, b.u, b.hist[b.u - 1].seqno) < b.u
    ensures Undone(b) == b.(u := Undone(b).u, text := past[Undone(b).u], mark := Undone(b).mark)
  {
    hide Leads, AllLines;
    if b.u > 0 { UndoRunIs(b, past, b.hist[b.u - 1].seqno); }
  }

  lemma RedoKeeps(b: Buf, past: seq<seq<string>>)
    requires Inv(b, past)
    ensures Inv(Redone(b), past)
    ensures b.u < |b.hist| ==> Redone(b).u == RunEnd(b.hist, b.u, b.hist[b.u].seqno) > b.u
    ensures Redone(b) == b.(u := Redone(b).u, text := past[Redone(b).u], mark := Redone(b).mark)
  {
    hide Leads, AllLines;
    if b.u < |b.hist| { RedoRunIs(b, past, b.hist[b.u].seqno); }
  }

  /** Redo restores exactly what was undone. */
  lemma RedoOfUndo(b: Buf, past: seq<seq<string>>)
    requires Inv(b, past) && b.u > 0
    ensures var r := Redone(Undone(b)); r == b.(mark := r.mark)
  {
    UndoKeeps(b, past);
    var c := Undone(b);
    RedoKeeps(c, past);
    hide Leads, AllLines, Undone, Redone;
    RunEndOfStart(b, past, c.u);
  }

  lemma RunEndOfStart(b: Buf, past: seq<seq<string>>, k: nat)
    requires Inv(b, past) && b.u > 0 && k == RunStart(b.hist, b.u, b.hist[b.u - 1].seqno) < b.u
    ensures RunEnd(b.hist, k, b.hist[k].seqno) == b.u
  {
    hide Leads, AllLines;
  }

  /** Undo undoes exactly what was redone. */
  lemma UndoOfRedo(b: Buf, past: seq<seq<string>>)
    requires Inv(b, past) && b.u < |b.hist|
    ensures var r := Undone(Redone(b)); r == b.(mark := r.mark)
  {
    RedoKeeps(b, past);
    var c := Redone(b);
    UndoKeeps(c, past);
    hide Leads, AllLines, Undone, Redone;
    RunStartOfEnd(b, past, c.u);
  }

  lemma RunStartOfEnd(b: Buf, past: seq<seq<string>>, k: nat)
    requires Inv(b, past) && b.u < |b.hist| && k == RunEnd(b.hist, b.u, b.hist[b.u].seqno) > b.u
    ensures RunStart(b.hist, k, b.hist[k - 1].seqno) == b.u
  {
    hide Leads, AllLines;
  }

  // ---------- change sets ----------

  /** What edits without lbuf_tx make of a buffer: the history up to where they began, and then
      entries of the current change set. */
  ghost predicate SameSet(b: Buf, c: Buf, past: seq<seq<string>>, past2: seq<seq<string>>)
  {
    && Shape(b) && Shape(c) && |past| == |b.hist| + 1 && |past2| == |c.hist| + 1
    && b.u <= c.u && c.useq == b.useq && (c == b || c.u == |c.hist|)
    && c.hist[.. b.u] == b.hist[.. b.u] && past2[.. b.u + 1] == past[.. b.u + 1]
    && (forall i :: b.u <= i < c.u ==> c.hist[i].seqno == b.useq)
    && (c.u == b.u ==> c.text == b.text)
  }

  lemma SameSetEdit(b: Buf, c: Buf, past: seq<seq<string>>, past2: seq<seq<string>>, t: Text, beg: nat, end: nat)
    requires Inv(b, past) && Inv(c, past2) && SameSet(b, c, past, past2) && beg <= end && c.u <= |c.hist| && Restorable(c, t, beg, end)
    requires b.u > 0 ==> b.hist[b.u - 1].seqno < b.useq
    ensures SameSet(b, Edited(c, t, beg, end), past, Past(c, past2, t, beg, end))
  {
    hide *;
    var x, y := Clip(beg, |c.text|), Clip(end, |c.text|);
    SetShapes(b, c, past, past2);
    EditedIs(c, past2, t, beg, end, x, y);
    if !(x == y && t.Null?) {
      EditInSet(b, c, past, past2, t, x, y - x, Edited(c, t, beg, end), Past(c, past2, t, beg, end));
    }
  }

  lemma EditInSet(b: Buf, c: Buf, past: seq<seq<string>>, past2: seq<seq<string>>, t: Text, pos: nat, nDel: nat, d: Buf, past3: seq<seq<string>>)
    requires Shape(c) && |past2| == |c.hist| + 1 && SameSet(b, c, past, past2) && (b.u > 0 ==> b.hist[b.u - 1].seqno < b.useq)
    requires d == Replace(Opt(c, t, pos, nDel), t, pos, nDel)
    requires past3 == past2[.. if Merges(c, t, pos, nDel) then c.u else c.u + 1] + [Splice(c.text, pos, nDel, LinesOf(t))]
    ensures SameSet(b, d, past, past3)
  {
    hide *;
    NotMerged(b, c, past, past2, t, pos, nDel);
    SetHist(b, c, past, past2, t, pos, nDel);
    SetPast(b, c, past, past2, t, pos, nDel, past3);
    ShapeIs(c);
    EditedText(c, t, pos, nDel);
    SetMore(b, c, past, past2, d, past3);
  }

  lemma ShapeIs(b: Buf)
    requires Shape(b)
    ensures |b.mark| == NMARKS && b.u <= |b.hist|
  {}

  lemma SetShapes(b: Buf, c: Buf, past: seq<seq<string>>, past2: seq<seq<string>>)
    requires SameSet(b, c, past, past2)
    ensures Shape(c) && |past2| == |c.hist| + 1
  {}

  lemma SetMore(b: Buf, c: Buf, past: seq<seq<string>>, past2: seq<seq<string>>, d: Buf, past3: seq<seq<string>>)
    requires SameSet(b, c, past, past2) && Shape(d) && |past3| == |d.hist| + 1 && d.u == |d.hist| > b.u && d.useq == b.useq
    requires d.hist[.. b.u] == b.hist[.. b.u] && past3[.. b.u + 1] == past[.. b.u + 1]
    requires forall i :: b.u <= i < d.u ==> d.hist[i].seqno == b.useq
    ensures SameSet(b, d, past, past3)
  {}

  lemma NotMerged(b: Buf, c: Buf, past: seq<seq<string>>, past2: seq<seq<string>>, t: Text, x: nat, n: nat)
    requires SameSet(b, c, past, past2) && (b.u > 0 ==> b.hist[b.u - 1].seqno < b.useq)
    ensures Merges(c, t, x, n) ==> c.u > b.u
  {
    if c.u == b.u > 0 { assert c.hist[.. b.u][b.u - 1] == b.hist[.. b.u][b.u - 1]; }
  }

  lemma SetHist(b: Buf, c: Buf, past: seq<seq<string>>, past2: seq<seq<string>>, t: Text, x: nat, n: nat)
    requires SameSet(b, c, past, past2) && (Merges(c, t, x, n) ==> c.u > b.u)
    ensures var d := Opt(c, t, x, n);
            && d.u == |d.hist| > b.u && d.useq == b.useq && d.hist[.. b.u] == b.hist[.. b.u] && Shape(d)
            && (forall i :: b.u <= i < d.u ==> d.hist[i].seqno == b.useq)
            && Replace(d, t, x, n).hist == d.hist && Replace(d, t, x, n).u == d.u && Replace(d, t, x, n).useq == d.useq && Shape(Replace(d, t, x, n))
  {
    hide LinesOf, Splice;
    var d := Opt(c, t, x, n);
    assert d.hist[.. b.u] == c.hist[.. b.u];
  }

  lemma SetPast(b: Buf, c: Buf, past: seq<seq<string>>, past2: seq<seq<string>>, t: Text, pos: nat, nDel: nat, past3: seq<seq<string>>)
    requires SameSet(b, c, past, past2) && (Merges(c, t, pos, nDel) ==> c.u > b.u)
    requires past3 == past2[.. if Merges(c, t, pos, nDel) then c.u else c.u + 1] + [Splice(c.text, pos, nDel, LinesOf(t))]
    ensures past3[.. b.u + 1] == past[.. b.u + 1] && |past3| == (if Merges(c, t, pos, nDel) then c.u else c.u + 1) + 1
  {
    hide LinesOf, Splice, Merges;
    assert past3[.. b.u + 1] == past2[.. b.u + 1];
  }

  /** Undo after a change set, whatever edits it is made of, restores the text before it. */
  lemma UndoOfSet(b: Buf, c: Buf, past: seq<seq<string>>, past2: seq<seq<string>>)
    requires Inv(b, past) && Inv(c, past2) && SameSet(b, c, past, past2)
    requires b.u > 0 ==> b.hist[b.u - 1].seqno < b.useq
    ensures c.u > b.u ==> Undone(c).text == b.text && Undone(c).u == b.u
    ensures c.u == b.u ==> c.text == b.text
  {
    hide Leads, AllLines;
    if c.u > b.u {
      UndoKeeps(c, past2);
      assert b.u > 0 ==> c.hist[.. b.u][b.u - 1] == b.hist[.. b.u][b.u - 1];
      assert past2[.. b.u + 1][b.u] == past[.. b.u + 1][b.u];
    }
  }

  // ---------- marks ----------

  /** Undoing an edit puts every mark that the user may set back, on deleted lines too. */
  lemma UndoRestoresMarks(b: Buf, t: Text, pos: nat, nDel: nat, i: nat)
    requires Shape(b) && pos + nDel <= |b.text| && AllLines(b.text) && Ending(b.text[pos .. pos + nDel]) && !Merges(b, t, pos, nDel) && i < STAR
    ensures UndoOne(Replace(Opt(b, t, pos, nDel), t, pos, nDel)).mark[i] == b.mark[i]
  {
    var c := Replace(Opt(b, t, pos, nDel), t, pos, nDel);
    EditedMark(b, t, pos, nDel, i);
    UndoneMark(c, i);
    hide UndoOne, Replace, MoveMark;
    if !(pos <= b.mark[i] < pos + nDel) { MoveBack(b.mark[i], t.Null?, pos, nDel, |LinesOf(t)|); }
  }

  lemma EditedMark(b: Buf, t: Text, pos: nat, nDel: nat, i: nat)
    requires Shape(b) && pos + nDel <= |b.text| && AllLines(b.text) && Ending(b.text[pos .. pos + nDel]) && !Merges(b, t, pos, nDel) && i < STAR
    ensures var c := Replace(Opt(b, t, pos, nDel), t, pos, nDel);
            && c.mark[i] == MoveMark(b.mark[i], t.Null?, pos, nDel, |LinesOf(t)|)
            && 0 < c.u <= |c.hist| && |c.hist[c.u - 1].saved| == NMARKS && LastIs(c.hist[c.u - 1], b.mark[i], t, pos, nDel, i)
  {
    RecordLeadsIff(b, t, pos, nDel);
    hide Split, AllLines, Ending, Concat, MoveMark, Splice;
  }

  predicate LastIs(lo: Lopt, m: int, t: Text, pos: nat, nDel: nat, i: nat)
    requires |lo.saved| == NMARKS && i < NMARKS
  {
    && |LinesOf(lo.del)| == nDel && (lo.del.Null? <==> nDel == 0) && lo.pos == pos && lo.nIns == |LinesOf(t)|
    && lo.saved[i] == if pos <= m < pos + nDel then m else -1
  }

  lemma UndoneMark(c: Buf, i: nat)
    requires |c.mark| == NMARKS && 0 < c.u <= |c.hist| && |c.hist[c.u - 1].saved| == NMARKS && i < STAR
    ensures var lo := c.hist[c.u - 1];
            UndoOne(c).mark[i] == if lo.saved[i] >= 0 then lo.saved[i]
                                  else MoveMark(c.mark[i], lo.del.Null?, lo.pos, lo.nIns, |LinesOf(lo.del)|)
  {
    hide Split, MoveMark, Splice;
  }

  /** A mark on another line comes back to it. */
  lemma MoveBack(m: int, gone: bool, pos: nat, nDel: nat, nIns: nat)
    requires !(pos <= m < pos + nDel)
    ensures MoveMark(MoveMark(m, gone, pos, nDel, nIns), nDel == 0, pos, nIns, nDel) == m
  {}

  /** An edit that is merged leaves what undoing does to them as it was. */
  lemma MergeKeepsMarks(b: Buf, t: Text, pos: nat, i: nat)
    requires Shape(b) && Merges(b, t, pos, 1) && i < STAR
    ensures UndoOne(Replace(Opt(b, t, pos, 1), t, pos, 1)).mark[i] == UndoOne(b).mark[i]
  {
    hide Split;
  }

  /** A mark on a line that an edit does not replace stays on that line. */
  lemma MarkFollowsLine(b: Buf, t: Text, pos: nat, nDel: nat, i: nat)
    requires Shape(b) && pos + nDel <= |b.text| && i < OPEN && 0 <= b.mark[i] < |b.text|
    requires !(pos <= b.mark[i] < pos + nDel)
    ensures var r := Replace(b, t, pos, nDel);
            0 <= r.mark[i] < |r.text| && r.text[r.mark[i]] == b.text[b.mark[i]]
  {
    hide Split;
  }

  // ---------- runs ----------

  datatype Op = Edit(t: Text, beg: nat, end: nat) | Undo | Redo | Save(clear: bool) | NextSet | Mark(i: nat, pos: int)

  predicate Legal(op: Op)
  {
    (op.Edit? ==> op.beg <= op.end) && (op.Mark? ==> op.i < NMARKS)
  }

  /** The edits delete only what undo can put back. */
  predicate Keeps(b: Buf, op: Op)
  {
    Legal(op) && b.u <= |b.hist| && (op.Edit? ==> Restorable(b, op.t, op.beg, op.end))
  }

  function Do(b: Buf, op: Op): (r: Buf)
    requires Shape(b) && Legal(op)
  {
    match op
    case Edit(t, beg, end) => Edited(b, t, beg, end)
    case Undo => Undone(b)
    case Redo => Redone(b)
    case Save(clear) => Saved(b, clear)
    case NextSet => b.(useq := b.useq + 1)
    case Mark(i, pos) => SetMark(b, i, pos)
  }

  function PastAfter(b: Buf, past: seq<seq<string>>, op: Op): seq<seq<string>>
    requires Shape(b) && Legal(op) && |past| == |b.hist| + 1
  {
    match op
    case Edit(t, beg, end) => Past(b, past, t, beg, end)
    case Save(clear) => if clear then [b.text] else past
    case _ => past
  }

  lemma StepKeeps(b: Buf, past: seq<seq<string>>, op: Op)
    requires Inv(b, past) && Keeps(b, op)
    ensures Inv(Do(b, op), PastAfter(b, past, op))
  {
    match op
    case Edit(t, beg, end) => EditKeepsIff(b, past, t, beg, end);
    case Undo => UndoKeeps(b, past);
    case Redo => RedoKeeps(b, past);
    case Save(clear) => hide Leads, IsWhole;
    case NextSet => hide Leads, IsWhole;
    case Mark(i, pos) => hide Leads, IsWhole;
  }

  /** The text at every position of the history that was saved under the number zero is the text
      that was saved. */
  ghost predicate SavedAs(b: Buf, past: seq<seq<string>>, text: seq<string>)
    requires |past| == |b.hist| + 1
  {
    && b.last <= b.zero
    && (forall i :: 0 <= i < |b.hist| ==> b.last < b.hist[i].seqno)
    && (forall i :: 0 <= i <= |b.hist| && Boundary(b.hist, i) && SeqAt(b, i) == b.zero ==> past[i] == text)
  }

  /** lbuf_tx was called since the buffer was saved. */
  predicate Careful(b: Buf, op: Op)
  {
    op.Edit? ==> b.zero < b.useq
  }

  lemma StepSaved(b: Buf, past: seq<seq<string>>, op: Op, text: seq<string>)
    requires Inv(b, past) && Keeps(b, op) && SavedAs(b, past, text) && Careful(b, op)
    ensures Inv(Do(b, op), PastAfter(b, past, op))
    ensures SavedAs(Do(b, op), PastAfter(b, past, op), if op.Save? then b.text else text)
  {
    StepKeeps(b, past, op);
    match op
    case Edit(t, beg, end) => EditSaved(b, past, t, beg, end, text);
    case Undo => UndoKeeps(b, past); SavedAlike(b, Undone(b), past, text);
    case Redo => RedoKeeps(b, past); SavedAlike(b, Redone(b), past, text);
    case Save(clear) => SaveSaved(b, past, clear, text);
    case NextSet => SavedAlike(b, Do(b, op), past, text);
    case Mark(i, pos) => SavedAlike(b, Do(b, op), past, text);
  }

  lemma SavedAlike(b: Buf, c: Buf, past: seq<seq<string>>, text: seq<string>)
    requires |past| == |b.hist| + 1 && SavedAs(b, past, text) && c.hist == b.hist && c.last == b.last && c.zero == b.zero
    ensures SavedAs(c, past, text)
  {}

  /** Two ends of change sets have different numbers. */
  lemma BoundariesDiffer(b: Buf, i: nat, j: nat)
    requires Ordered(b) && i < j <= |b.hist| && Boundary(b.hist, i) && Boundary(b.hist, j)
    requires forall k :: 0 <= k < |b.hist| ==> b.last < b.hist[k].seqno
    ensures SeqAt(b, i) < SeqAt(b, j)
  {}

  lemma SameBoundary(b: Buf, i: nat, j: nat)
    requires Ordered(b) && i <= |b.hist| && j <= |b.hist| && Boundary(b.hist, i) && Boundary(b.hist, j)
    requires forall k :: 0 <= k < |b.hist| ==> b.last < b.hist[k].seqno
    requires SeqAt(b, i) == SeqAt(b, j)
    ensures i == j
  {
    if i < j { BoundariesDiffer(b, i, j); }
    if j < i { BoundariesDiffer(b, j, i); }
  }

  lemma SaveSaved(b: Buf, past: seq<seq<string>>, clear: bool, text: seq<string>)
    requires Inv(b, past) && SavedAs(b, past, text)
    ensures SavedAs(Saved(b, clear), if clear then [b.text] else past, b.text)
  {
    hide Leads, AllLines;
    if !clear {
      forall i | 0 <= i <= |b.hist| && Boundary(b.hist, i) && SeqAt(b, i) == SeqAt(b, b.u) ensures past[i] == b.text {
        SameBoundary(b, i, b.u);
      }
    }
  }

  lemma EditSaved(b: Buf, past: seq<seq<string>>, t: Text, beg: nat, end: nat, text: seq<string>)
    requires Inv(b, past) && SavedAs(b, past, text) && beg <= end && b.zero < b.useq
    ensures |Past(b, past, t, beg, end)| == |Edited(b, t, beg, end).hist| + 1
    ensures SavedAs(Edited(b, t, beg, end), Past(b, past, t, beg, end), text)
  {
    hide Leads, AllLines, Splice, LinesOf, Opt, MoveMarks, Merges, Boundary;
    var x, y := Clip(beg, |b.text|), Clip(end, |b.text|);
    EditedIs(b, past, t, beg, end, x, y);
    EditedText(b, t, x, y - x);
    if !(x == y && t.Null?) { RecordSaved(b, past, t, x, y - x, Splice(b.text, x, y - x, LinesOf(t)), text); }
  }

  lemma RecordSaved(b: Buf, past: seq<seq<string>>, t: Text, pos: nat, nDel: nat, now: seq<string>, text: seq<string>)
    requires Inv(b, past) && SavedAs(b, past, text) && b.zero < b.useq
    ensures var r, past' := Opt(b, t, pos, nDel), past[.. if Merges(b, t, pos, nDel) then b.u else b.u + 1] + [now];
            |past'| == |r.hist| + 1 && SavedAs(r, past', text)
  {
    hide Leads, AllLines, LinesOf;
    var r, past' := Opt(b, t, pos, nDel), past[.. if Merges(b, t, pos, nDel) then b.u else b.u + 1] + [now];
    forall i | 0 <= i <= |r.hist| && Boundary(r.hist, i) && SeqAt(r, i) == r.zero ensures past'[i] == text {
      assert i < |r.hist|;
      assert Boundary(b.hist, i) && SeqAt(b, i) == b.zero;
    }
  }

  /** Every operation keeps the invariant in the buffer it comes to. */
  predicate Runs(b: Buf, ops: seq<Op>)
    requires Shape(b)
    decreases |ops|
  {
    ops == [] || (Keeps(b, ops[0]) && Runs(Do(b, ops[0]), ops[1..]))
  }

  function DoAll(b: Buf, past: seq<seq<string>>, ops: seq<Op>): (r: (Buf, seq<seq<string>>))
    requires Inv(b, past) && Runs(b, ops)
    ensures Inv(r.0, r.1)
    decreases |ops|
  {
    if ops == [] then (b, past) else
      StepKeeps(b, past, ops[0]);
      DoAll(Do(b, ops[0]), PastAfter(b, past, ops[0]), ops[1..])
  }

  /** The text when the buffer was last saved. */
  function LastSaved(b: Buf, past: seq<seq<string>>, ops: seq<Op>, text: seq<string>): seq<string>
    requires Inv(b, past) && Runs(b, ops)
    decreases |ops|
  {
    if ops == [] then text else
      StepKeeps(b, past, ops[0]);
      LastSaved(Do(b, ops[0]), PastAfter(b, past, ops[0]), ops[1..], if ops[0].Save? then b.text else text)
  }

  predicate AllCareful(b: Buf, past: seq<seq<string>>, ops: seq<Op>)
    requires Inv(b, past) && Runs(b, ops)
    decreases |ops|
  {
    ops == [] || (
      StepKeeps(b, past, ops[0]);
      Careful(b, ops[0]) && AllCareful(Do(b, ops[0]), PastAfter(b, past, ops[0]), ops[1..]))
  }

  /** After any run that calls lbuf_tx between saving and editing, a buffer that is not modified
      holds the text that was saved. */
  lemma {:induction false} UnmodifiedIsSaved(b: Buf, past: seq<seq<string>>, ops: seq<Op>, text: seq<string>)
    requires Inv(b, past) && SavedAs(b, past, text) && Runs(b, ops) && AllCareful(b, past, ops)
    ensures var r := DoAll(b, past, ops).0; !Modified(r) ==> r.text == LastSaved(b, past, ops, text)
    decreases |ops|
  {
    hide Leads, AllLines, Do, PastAfter;
    if ops == [] {
      assert Boundary(b.hist, b.u);
    } else {
      StepSaved(b, past, ops[0], text);
      UnmodifiedIsSaved(Do(b, ops[0]), PastAfter(b, past, ops[0]), ops[1..], if ops[0].Save? then b.text else text);
    }
  }

  /** An edit is seen by lbuf_modified if and only if the number of its change set is not that of
      the saved state. */
  lemma EditSeenIff(b: Buf, t: Text, beg: nat, end: nat)
    requires Shape(b) && beg <= end
    requires !(Clip(beg, |b.text|) == Clip(end, |b.text|) && t.Null?)
    ensures Modified(Edited(b, t, beg, end)) <==> b.useq != b.zero
  {}

  function Made(text: seq<string>): (b: Buf)
    ensures Shape(b)
  {
    Buf(text, seq(NMARKS, _ => -1), [], 0, 1, 0, 0)
  }

  /** Without lbuf_tx in between, an edit right after saving goes unnoticed. */
  lemma EditAfterSaveUnseen()
    ensures var b := Edited(Made([]), Str("a\n"), 0, 0);
            var c := Edited(Saved(b, false), Str("b\n"), 0, 1);
            !Modified(c) && c.text == ["b\n"] && b.text == ["a\n"]
  {
    SplitLine("a\n");
    SplitLine("b\n");
  }

  lemma MadeInv(text: seq<string>)
    requires AllLines(text)
    ensures Inv(Made(text), [text]) && SavedAs(Made(text), [text], text)
  {}
}
