/** re_rec and regexec (ports/neatvi/regex.c): the backtracking loop with its two stacks. A saved
    choice keeps only the length of the log of capture updates; taking the choice up again cuts
    the log back to that length. */
module RegexExec {
  import opened RegexTree
  import opened RegexCode
  import opened RegexMachine
  import opened RegexMatch
  import opened RegexCorrect
  import opened RegexEmit

  /** A saved choice (struct rstate_saved). */
  datatype Choice = Choice(s: nat, markPos: nat, pc: int)

  /** The captures before a match: rm_so and rm_eo of every group are -1. */
  function Unset(n: nat): (c: Caps)
    ensures |c| == n
  {
    seq(n, _ => -1)
  }

  /** The machine's stack that a stack of choices and a log stand for. */
  function AbsStack(log: seq<Mark>, saved: seq<Choice>, c: Caps): (r: seq<Saved>)
    requires forall i :: 0 <= i < |saved| ==> saved[i].markPos <= |log|
    ensures |r| == |saved|
  {
    seq(|saved|, i requires 0 <= i < |saved| =>
      Saved(saved[i].pc, saved[i].s, Apply(log[..saved[i].markPos], c)))
  }

  /** Updates behind a choice's cut do not change what the choice stands for. */
  lemma AbsStackCut(log: seq<Mark>, log': seq<Mark>, saved: seq<Choice>, c: Caps)
    requires forall i :: 0 <= i < |saved| ==>
               saved[i].markPos <= |log| && saved[i].markPos <= |log'| &&
               log[..saved[i].markPos] == log'[..saved[i].markPos]
    ensures AbsStack(log, saved, c) == AbsStack(log', saved, c)
  {}

  datatype End = GoOn | Matched | NoMatch

  /** A copy of a full array with as much room again. */
  method Twice<T>(a: array<T>, d: T) returns (b: array<T>)
    ensures fresh(b) && b.Length == 2 * a.Length && b[..a.Length] == a[..]
  {
    b := new T[2 * a.Length](_ => d);
    for i := 0 to a.Length
      invariant b[..i] == a[..i]
    {
      b[i] := a[i];
    }
  }

  /** The matching state (struct rstate), without the subject and the flags. */
  class RState {
    var s: nat
    var pc: int
    const subcnt: nat
    var mark: array<Mark>
    var markPos: nat
    var saved: array<Choice>
    var savedPos: nat

    ghost predicate Valid()
      reads this, mark, saved
    {
      && markPos <= mark.Length && 0 < mark.Length
      && savedPos <= saved.Length && 0 < saved.Length
      && (mark as object) != saved
      && (forall i :: 0 <= i < markPos ==> mark[i].num < 2 * subcnt)
      && (forall i :: 0 <= i < savedPos ==> saved[i].markPos <= markPos)
      && (forall i, j :: 0 <= i < j < savedPos ==> saved[i].markPos <= saved[j].markPos)
    }

    ghost function None(): Caps
      reads this
    {
      Unset(2 * subcnt)
    }

    /** The state of the plain machine that this state stands for. */
    ghost function Abs(): State
      requires Valid()
      reads this, mark, saved
    {
      State(pc, s, Apply(mark[..markPos], None()),
            AbsStack(mark[..markPos], saved[..savedPos], None()))
    }

    /** rstate_init */
    constructor (subcnt: nat)
      ensures Valid() && this.subcnt == subcnt && fresh(mark) && fresh(saved)
    {
      s, pc := 0, 0;
      this.subcnt := subcnt;
      mark := new Mark[128](_ => Mark(0, 0));
      markPos := 0;
      saved := new Choice[128](_ => Choice(0, 0, 0));
      savedPos := 0;
    }

    /** rstate_push */
    method Push(dst: int)
      requires Valid()
      modifies this`saved, this`savedPos, saved
      ensures Valid() && (saved == old(saved) || fresh(saved))
      ensures Abs() == old(Abs()).(stack := old(Abs()).stack + [Saved(dst, s, old(Abs()).caps)])
    {
      if savedPos >= saved.Length {
        var longer := Twice(saved, Choice(0, 0, 0));
        assert longer[..savedPos] == longer[..saved.Length][..savedPos];
        saved := longer;
      }
      ghost var was := saved[..savedPos];
      saved[savedPos] := Choice(s, markPos, dst);
      savedPos := savedPos + 1;
      assert saved[..savedPos] == was + [Choice(s, markPos, dst)];
      assert mark[..markPos][..markPos] == mark[..markPos];
    }

    /** rstate_pop; true when there is no choice left. */
    method Pop() returns (none: bool)
      requires Valid()
      modifies this`s, this`pc, this`markPos, this`savedPos
      ensures Valid()
      ensures none ==> RegexMachine.Pop(old(Abs()).stack) == Failed
      ensures !none ==> RegexMachine.Pop(old(Abs()).stack) == Running(Abs())
    {
      if savedPos == 0 {
        return true;
      }
      ghost var log, choices := mark[..markPos], saved[..savedPos];
      savedPos := savedPos - 1;
      s := saved[savedPos].s;
      markPos := saved[savedPos].markPos;
      pc := saved[savedPos].pc;
      ghost var left := saved[..savedPos];
      assert choices[..|choices| - 1] == left && choices[savedPos] == saved[savedPos];
      forall i | 0 <= i < |left| ensures log[..left[i].markPos] == mark[..markPos][..left[i].markPos] {
        assert left[i] == saved[i];
      }
      AbsStackCut(log, mark[..markPos], left, None());
      assert log[..markPos] == mark[..markPos];
      return false;
    }

    /** rstate_mark: updates to groups the caller did not ask for are not logged. */
    method MarkHere(m: nat)
      requires Valid()
      modifies this`mark, this`markPos, mark
      ensures Valid() && (mark == old(mark) || fresh(mark))
      ensures Abs() == old(Abs()).(caps := SetMark(old(Abs()).caps, Mark(m, s)))
    {
      if m >= subcnt * 2 {
        return;
      }
      ghost var log := mark[..markPos];
      if markPos >= mark.Length {
        var longer := Twice(mark, Mark(0, 0));
        assert longer[..markPos] == longer[..mark.Length][..markPos];
        mark := longer;
      }
      mark[markPos] := Mark(m, s);
      markPos := markPos + 1;
      ghost var log' := mark[..markPos];
      assert log' == log + [Mark(m, s)];
      assert log'[..|log'| - 1] == log;
      ghost var choices := saved[..savedPos];
      forall i | 0 <= i < |choices| ensures log[..choices[i].markPos] == log'[..choices[i].markPos] {
        assert choices[i] == saved[i];
      }
      AbsStackCut(log, log', choices, None());
    }

    /** One turn of the loop of re_rec. */
    method Turn(re: Regex, x: Subject) returns (end: End)
      requires Valid() && re.Valid() && 0 <= pc < re.n
      modifies this, mark, saved
      ensures Valid() && (mark == old(mark) || fresh(mark)) && (saved == old(saved) || fresh(saved))
      ensures re.Valid() && re.Emitted() == old(re.Emitted())
      ensures var o := Step(re.Emitted(), x, old(Abs()));
              match end
              case GoOn => o == Running(Abs())
              case Matched => o == Accepted(s, Abs().caps)
              case NoMatch => o == Failed
    {
      hide Apply, AbsStack, RegexMachine.Pop, SetMark;
      assert re.Emitted()[pc] == re.p[pc];
      match re.p[pc] {
        case IAtom(ra) =>
          var q := Advance(x, ra, s);
          if q.Some? {
            s := q.value;
            pc := pc + 1;
          } else {
            var none := Pop();
            if none { return NoMatch; }
          }
        case IMark(m) =>
          MarkHere(m);
          pc := pc + 1;
        case IJump(d) =>
          pc := d;
        case IFork(d) =>
          Push(d);
          pc := pc + 1;
        case IMatch =>
          return Matched;
      }
      return GoOn;
    }

    /** re_rec, for a run of the plain machine that is known to stop within n steps. */
    method ReRec(re: Regex, x: Subject, ghost n: nat) returns (fail: bool)
      requires Valid() && re.Valid()
      requires var o := Run(re.Emitted(), x, Abs(), n); o.Accepted? || o.Failed?
      modifies this, mark, saved
      ensures Valid() && (mark == old(mark) || fresh(mark)) && (saved == old(saved) || fresh(saved))
      ensures !fail ==> Run(re.Emitted(), x, old(Abs()), n) == Accepted(Abs().s, Abs().caps)
      ensures fail ==> Run(re.Emitted(), x, old(Abs()), n) == Failed
    {
      ghost var prog := re.Emitted();
      ghost var end := Run(prog, x, Abs(), n);
      ghost var left := n;
      while true
        invariant Valid() && re.Valid() && re.Emitted() == prog
        invariant (mark == old(mark) || fresh(mark)) && (saved == old(saved) || fresh(saved))
        invariant Run(prog, x, Abs(), left) == end
        decreases left
      {
        assert Step(prog, x, Abs()) != Lost;
        var e := Turn(re, x);
        match e {
          case GoOn => left := left - 1;
          case Matched => return false;
          case NoMatch => return true;
        }
      }
    }

    /** re_recmatch: a fresh run from the current position. */
    method RecMatch(re: Regex, x: Subject, ghost t: Tree) returns (fail: bool)
      requires Valid() && re.Valid() && re.Emitted() == Program(t)
      requires s <= x.len && !Match(t, x, s).Stuck?
      modifies this, mark, saved
      ensures Valid() && (mark == old(mark) || fresh(mark)) && (saved == old(saved) || fresh(saved))
      ensures fail <==> Match(t, x, old(s)).NoMore?
      ensures !fail ==>
                var h := Match(t, x, old(s));
                s == h.pos && Apply(mark[..markPos], None()) == Captures(old(s), h, None())
    {
      pc := 0;
      markPos := 0;
      savedPos := 0;
      ghost var st := Abs();
      ghost var h := Match(t, x, s);
      assert st == State(0, s, None(), []);
      ProgramCorrect(t, x, s, None());
      ghost var n: nat;
      if h.Hit? {
        n :| Run(Program(t), x, st, n) == Accepted(h.pos, Captures(s, h, None()));
      } else {
        n :| Run(Program(t), x, st, n) == Failed;
      }
      fail := ReRec(re, x, n);
    }

    /** rstate_marks: replay the log into the caller's array. */
    method Marks(sub: array<int>)
      requires Valid() && sub.Length >= 2 * subcnt
      requires sub != mark as object && sub != saved as object
      modifies sub
      ensures sub[..] == Apply(mark[..markPos], old(sub[..]))
    {
      for i := 0 to markPos
        invariant sub[..] == Apply(mark[..i], old(sub[..]))
      {
        assert mark[..i + 1][..i] == mark[..i];
        sub[mark[i].num] := mark[i].val;
      }
    }
  }

  // ---------- where regexec starts ----------

  /** A byte of a subject, which ends at its first NUL. */
  type Byte = b: int | 0 < b < 256 witness 1

  /** uc_len: the length of the character at i; 0 at the end of the text. */
  function UcLen(text: seq<Byte>, i: nat): (n: nat)
    ensures i < |text| ==> 1 <= n && i + n <= |text|
    ensures i >= |text| ==> n == 0
  {
    if i >= |text| then 0
    else if text[i] < 0xc0 || i + 1 == |text| then 1
    else if text[i] < 0xe0 || i + 2 == |text| then 2
    else if text[i] < 0xf0 || i + 3 == |text| then 3
    else if text[i] < 0xf8 then 4
    else 1
  }

  /** Whether the loop of regexec goes on after the start o. */
  predicate GoesOn(text: seq<Byte>, eolStop: bool, o: nat)
  {
    o < |text| && !(eolStop && o != 0 && text[o] == '\n' as int)
  }

  /** The starts that the loop of regexec tries, when o was the last one and s comes next. */
  function Starts(text: seq<Byte>, eolStop: bool, o: nat, s: nat): (r: seq<nat>)
    requires o <= s <= |text|
    ensures forall i :: 0 <= i < |r| ==> s <= r[i] <= |text|
    decreases |text| - s, if o < |text| then 1 else 0
  {
    if GoesOn(text, eolStop, o) then [s] + Starts(text, eolStop, s, s + UcLen(text, s)) else []
  }

  /** Without REG_EOLSTOP the starts of a subject that is not empty are the beginning of every
      character, from the left, and the end of the text; an empty subject has none. */
  lemma {:induction false} StartsAll(text: seq<Byte>, o: nat, s: nat)
    requires o < |text| && o <= s <= |text|
    ensures var r := Starts(text, false, o, s);
            && |r| > 0 && r[0] == s && r[|r| - 1] == |text|
            && (forall i :: 0 <= i < |r| - 1 ==> r[i] < |text| && r[i + 1] == r[i] + UcLen(text, r[i]))
    decreases |text| - s
  {
    if s < |text| {
      StartsAll(text, s, s + UcLen(text, s));
      var rest := Starts(text, false, s, s + UcLen(text, s));
      assert Starts(text, false, o, s) == [s] + rest;
    } else {
      assert Starts(text, false, s, s) == [];
    }
  }

  /** No match at the first i starts. */
  ghost predicate NoneBefore(t: Tree, x: Subject, starts: seq<nat>, i: nat)
    requires i <= |starts|
  {
    forall j :: 0 <= j < i ==> Match(t, x, starts[j]).NoMore?
  }

  /** What regexec leaves in the caller's array for a match h at start s, when only the first n
      of its fields are asked for. */
  ghost predicate Reports(s: nat, h: Hits, n: nat, sub: seq<int>)
  {
    h.Hit? && n <= |sub| && sub[..n] == Captures(s, h, Unset(n)) && sub[n..] == Unset(|sub| - n)
  }

  /** regexec reports the first of its starts where the pattern has a match, and that start's
      first match; it fails exactly when no start has one. */
  method RegExec(re: Regex, x: Subject, ghost t: Tree, text: seq<Byte>, nsub: nat,
                 psub: array<int>, noSub: bool, eolStop: bool)
    returns (fail: bool, ghost at: nat)
    requires re.Valid() && re.Emitted() == Program(t) && x.len == |text|
    requires psub.Length == 2 * nsub
    requires var starts := Starts(text, eolStop, 0, 0);
             forall i :: 0 <= i < |starts| && NoneBefore(t, x, starts, i)
               ==> !Match(t, x, starts[i]).Stuck?
    modifies psub
    ensures var starts := Starts(text, eolStop, 0, 0);
            if fail then NoneBefore(t, x, starts, |starts|) && psub[..] == Unset(2 * nsub)
            else
              && at < |starts| && NoneBefore(t, x, starts, at)
              && Reports(starts[at], Match(t, x, starts[at]), if noSub then 0 else 2 * nsub, psub[..])
  {
    hide Match, Program, Captures, Apply, Reports, Starts, GoesOn;
    ghost var starts := Starts(text, eolStop, 0, 0);
    var rs := new RState(if noSub then 0 else nsub);
    Clear(psub);
    var o: nat, s: nat := 0, 0;
    at := 0;
    while GoesOn(text, eolStop, o)
      invariant rs.Valid() && fresh(rs) && fresh(rs.mark) && fresh(rs.saved)
      invariant re.Valid() && re.Emitted() == Program(t)
      invariant psub[..] == Unset(2 * nsub)
      invariant o <= s <= |text| && at <= |starts|
      invariant starts[at..] == Starts(text, eolStop, o, s)
      invariant NoneBefore(t, x, starts, at)
      decreases |text| - s, if o < |text| then 1 else 0
    {
      StartsStep(text, eolStop, starts, at, o, s);
      o := s;
      s := s + UcLen(text, s);
      var none := TryStart(rs, re, x, t, psub, o);
      if !none {
        return false, at;
      }
      at := at + 1;
    }
    StartsOver(text, eolStop, starts, at, o, s);
    return true, at;
  }

  /** One start: a run from s, and the report if it matched. */
  method TryStart(rs: RState, re: Regex, x: Subject, ghost t: Tree, psub: array<int>, s: nat) returns (none: bool)
    requires rs.Valid() && re.Valid() && re.Emitted() == Program(t) && s <= x.len && !Match(t, x, s).Stuck?
    requires 2 * rs.subcnt <= psub.Length && psub[..] == Unset(psub.Length)
    requires psub != rs.mark as object && psub != rs.saved as object
    modifies rs, rs.mark, rs.saved, psub
    ensures rs.Valid()
    ensures (rs.mark == old(rs.mark) || fresh(rs.mark)) && (rs.saved == old(rs.saved) || fresh(rs.saved))
    ensures none <==> Match(t, x, s).NoMore?
    ensures none ==> psub[..] == old(psub[..])
    ensures !none ==> Reports(s, Match(t, x, s), 2 * rs.subcnt, psub[..])
  {
    hide Match, Program, Captures, Apply, Reports;
    rs.s := s;
    none := rs.RecMatch(re, x, t);
    if !none {
      Report(rs, psub, s, Match(t, x, s));
    }
  }

  lemma StartsStep(text: seq<Byte>, eolStop: bool, starts: seq<nat>, k: nat, o: nat, s: nat)
    requires o <= s <= |text| && k <= |starts|
    requires starts[k..] == Starts(text, eolStop, o, s) && GoesOn(text, eolStop, o)
    ensures k < |starts| && starts[k] == s
    ensures starts[k + 1..] == Starts(text, eolStop, s, s + UcLen(text, s))
  {
    assert starts[k] == starts[k..][0];
    assert starts[k + 1..] == starts[k..][1..];
  }

  lemma StartsOver(text: seq<Byte>, eolStop: bool, starts: seq<nat>, k: nat, o: nat, s: nat)
    requires o <= s <= |text| && k <= |starts|
    requires starts[k..] == Starts(text, eolStop, o, s) && !GoesOn(text, eolStop, o)
    ensures k == |starts|
  {}

  method Clear(psub: array<int>)
    modifies psub
    ensures psub[..] == Unset(psub.Length)
  {
    for i := 0 to psub.Length
      invariant forall j :: 0 <= j < i ==> psub[j] == -1
    {
      psub[i] := -1;
    }
  }

  method Report(rs: RState, psub: array<int>, ghost s: nat, ghost h: Hits)
    requires rs.Valid() && 2 * rs.subcnt <= psub.Length && psub[..] == Unset(psub.Length)
    requires psub != rs.mark as object && psub != rs.saved as object
    requires h.Hit? && Apply(rs.mark[..rs.markPos], rs.None()) == Captures(s, h, rs.None())
    modifies psub
    ensures Reports(s, h, 2 * rs.subcnt, psub[..])
  {
    hide Captures;
    rs.Marks(psub);
    ghost var n := 2 * rs.subcnt;
    MarksPrefix(rs.mark[..rs.markPos], Unset(psub.Length), n);
    assert Unset(psub.Length)[..n] == Unset(n);
    assert Unset(psub.Length)[n..] == Unset(psub.Length - n);
  }

  /** Updates below n leave the rest of an array alone. */
  lemma {:induction false} MarksPrefix(w: seq<Mark>, c: Caps, n: nat)
    requires n <= |c| && forall i :: 0 <= i < |w| ==> w[i].num < n
    ensures Apply(w, c)[..n] == Apply(w, c[..n]) && Apply(w, c)[n..] == c[n..]
    decreases |w|
  {
    if w != [] { MarksPrefix(w[..|w| - 1], c, n); }
  }
}
