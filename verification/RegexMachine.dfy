/** The backtracking machine of ports/neatvi/regex.c in its plain form: every fork saves a copy
    of the whole capture array. RegexExec shows that re_rec, which saves only the length of a log
    of capture updates, does the same. */
module RegexMachine {
  import opened RegexTree
  import opened RegexCode

  datatype Option<+T> = None | Some(value: T)

  /** The subject as the machine sees it: its length and what an atom does at a position.
      step stands for ratom_match; an answer that leaves the subject counts as a mismatch. */
  datatype Subject = Subject(len: nat, step: (Ratom, nat) -> Option<nat>)

  function Advance(x: Subject, a: Ratom, p: nat): (r: Option<nat>)
    ensures r.Some? ==> p <= r.value <= x.len
  {
    var q := x.step(a, p);
    if q.Some? && p <= q.value <= x.len then q else None
  }

  /** One capture update: mark number 2g is the start of group g, 2g + 1 its end. */
  datatype Mark = Mark(num: nat, val: nat)

  /** The captures, laid out as the psub array: start and end of each group in turn. */
  type Caps = seq<int>

  function SetMark(c: Caps, m: Mark): (r: Caps)
    ensures |r| == |c|
  {
    if m.num < |c| then c[m.num := m.val] else c
  }

  function Apply(w: seq<Mark>, c: Caps): (r: Caps)
    ensures |r| == |c|
  {
    if w == [] then c else SetMark(Apply(w[..|w| - 1], c), w[|w| - 1])
  }

  lemma {:induction false} ApplyConcat(v: seq<Mark>, w: seq<Mark>, c: Caps)
    ensures Apply(v + w, c) == Apply(w, Apply(v, c))
    decreases |w|
  {
    if w == [] {
      assert v + w == v;
    } else {
      assert (v + w)[..|v + w| - 1] == v + w[..|w| - 1];
      ApplyConcat(v, w[..|w| - 1], c);
    }
  }

  datatype Saved = Saved(pc: int, s: nat, caps: Caps)

  datatype State = State(pc: int, s: nat, caps: Caps, stack: seq<Saved>)

  /** Lost is a program counter outside the program, which no compiled program reaches. */
  datatype Outcome = Running(st: State) | Accepted(s: nat, caps: Caps) | Failed | Lost

  /** Backtrack to the last saved choice. */
  function Pop(stack: seq<Saved>): Outcome
  {
    if stack == [] then Failed
    else
      var top := stack[|stack| - 1];
      Running(State(top.pc, top.s, top.caps, stack[..|stack| - 1]))
  }

  function Step(prog: seq<Inst>, x: Subject, st: State): Outcome
  {
    if !(0 <= st.pc < |prog|) then Lost
    else
      match prog[st.pc]
      case IAtom(ra) =>
        var q := Advance(x, ra, st.s);
        if q.Some? then Running(st.(pc := st.pc + 1, s := q.value)) else Pop(st.stack)
      case IMark(m) => Running(st.(pc := st.pc + 1, caps := SetMark(st.caps, Mark(m, st.s))))
      case IJump(d) => Running(st.(pc := d))
      case IFork(d) => Running(st.(pc := st.pc + 1, stack := st.stack + [Saved(d, st.s, st.caps)]))
      case IMatch => Accepted(st.s, st.caps)
  }

  /** n steps, or fewer when the machine stops. */
  function Run(prog: seq<Inst>, x: Subject, st: State, n: nat): Outcome
    decreases n
  {
    if n == 0 then Running(st)
    else
      var o := Step(prog, x, st);
      if o.Running? then Run(prog, x, o.st, n - 1) else o
  }

  ghost predicate Reaches(prog: seq<Inst>, x: Subject, st: State, o: Outcome)
  {
    exists n: nat :: Run(prog, x, st, n) == o
  }

  ghost predicate Halts(prog: seq<Inst>, x: Subject, st: State)
  {
    exists n: nat :: !Run(prog, x, st, n).Running?
  }

  lemma {:induction false} RunConcat(prog: seq<Inst>, x: Subject, st: State, m: nat, n: nat)
    ensures Run(prog, x, st, m + n) ==
            (var o := Run(prog, x, st, m); if o.Running? then Run(prog, x, o.st, n) else o)
    decreases m
  {
    if m > 0 {
      var o := Step(prog, x, st);
      if o.Running? { RunConcat(prog, x, o.st, m - 1, n); }
    }
  }

  /** A run that reaches another state inherits what that state reaches. */
  lemma ReachesThrough(prog: seq<Inst>, x: Subject, st: State, mid: State, o: Outcome)
    requires Reaches(prog, x, st, Running(mid)) && Reaches(prog, x, mid, o)
    ensures Reaches(prog, x, st, o)
  {
    var m: nat :| Run(prog, x, st, m) == Running(mid);
    var n: nat :| Run(prog, x, mid, n) == o;
    RunConcat(prog, x, st, m, n);
  }

  lemma StepReaches(prog: seq<Inst>, x: Subject, st: State)
    ensures Reaches(prog, x, st, Step(prog, x, st))
  {
    var o := Step(prog, x, st);
    if o.Running? { assert Run(prog, x, o.st, 0) == o; }
    assert Run(prog, x, st, 1) == o;
  }

  /** Still running after n steps from a state that was reached means still running from the
      start after those n steps, too. */
  lemma RunningThrough(prog: seq<Inst>, x: Subject, st: State, mid: State, n: nat)
    requires Reaches(prog, x, st, Running(mid)) && Run(prog, x, mid, n).Running?
    ensures Run(prog, x, st, n).Running?
  {
    var m: nat :| Run(prog, x, st, m) == Running(mid);
    RunConcat(prog, x, st, m, n);
    RunConcat(prog, x, st, n, m);
  }

  /** Two runs from one state that both stop stop with the same outcome. */
  lemma StopsOnce(prog: seq<Inst>, x: Subject, st: State, m: nat, n: nat)
    requires !Run(prog, x, st, m).Running? && !Run(prog, x, st, n).Running?
    ensures Run(prog, x, st, m) == Run(prog, x, st, n)
  {
    if m <= n {
      RunConcat(prog, x, st, m, n - m);
    } else {
      RunConcat(prog, x, st, n, m - n);
    }
  }
}
