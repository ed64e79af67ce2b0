/** Compiler correctness for ports/neatvi/regex.c: the code rnode_emit writes for a tree makes
    the machine try exactly the tree's ordered matches, and run forever exactly when that search
    comes to a Stuck before it finds one. */
module RegexCorrect {
  import opened RegexTree
  import opened RegexCode
  import opened RegexMachine
  import opened RegexMatch

  // ---------- what the machine does from a state ----------

  /** The run from st ends as v says; a run that diverges is seen running after n steps. */
  ghost predicate Holds(prog: seq<Inst>, x: Subject, st: State, v: Verdict, n: nat)
  {
    match v
    case Accept(s, w) => Reaches(prog, x, st, Accepted(s, Apply(w, st.caps)))
    case Reject => Reaches(prog, x, st, Pop(st.stack))
    case Diverge => Run(prog, x, st, n).Running?
  }

  /** The same, whatever the captures and the saved choices are. */
  ghost predicate Behaves(prog: seq<Inst>, x: Subject, pc: int, q: nat, v: Verdict, n: nat)
  {
    forall caps: Caps, stack: seq<Saved> :: Holds(prog, x, State(pc, q, caps, stack), v, n)
  }

  /** The machine at b behaves as k for every match of h that the search gets to. */
  ghost predicate Visited(prog: seq<Inst>, x: Subject, h: Hits, b: int, k: nat -> Verdict, n: nat)
  {
    match h
    case NoMore => true
    case Stuck => true
    case Hit(p, _, r) =>
      Behaves(prog, x, b, p, k(p), n) && (k(p) == Reject ==> Visited(prog, x, r, b, k, n))
  }

  lemma HoldsThrough(prog: seq<Inst>, x: Subject, st: State, mid: State, v: Verdict, n: nat)
    requires Step(prog, x, st) == Running(mid) && mid.caps == st.caps && mid.stack == st.stack
    requires Holds(prog, x, mid, v, n)
    ensures Holds(prog, x, st, v, n)
  {
    StepReaches(prog, x, st);
    match v
    case Accept(s, w) => ReachesThrough(prog, x, st, mid, Accepted(s, Apply(w, st.caps)));
    case Reject => ReachesThrough(prog, x, st, mid, Pop(st.stack));
    case Diverge => RunningThrough(prog, x, st, mid, n);
  }

  // ---------- one instruction ----------

  lemma AtomBehaves(prog: seq<Inst>, x: Subject, pc: nat, ra: Ratom, q: nat, v: Verdict, n: nat)
    requires pc < |prog| && prog[pc] == IAtom(ra)
    requires var r := Advance(x, ra, q);
             if r.Some? then Behaves(prog, x, pc + 1, r.value, v, n) else v == Reject
    ensures Behaves(prog, x, pc, q, v, n)
  {
    forall caps: Caps, stack: seq<Saved> ensures Holds(prog, x, State(pc, q, caps, stack), v, n) {
      var st := State(pc, q, caps, stack);
      var r := Advance(x, ra, q);
      if r.Some? {
        HoldsThrough(prog, x, st, State(pc + 1, r.value, caps, stack), v, n);
      } else {
        StepReaches(prog, x, st);
      }
    }
  }

  lemma MarkBehaves(prog: seq<Inst>, x: Subject, pc: nat, m: nat, q: nat, v: Verdict, n: nat)
    requires pc < |prog| && prog[pc] == IMark(m)
    requires Behaves(prog, x, pc + 1, q, v, n)
    ensures Behaves(prog, x, pc, q, Prepend([Mark(m, q)], v), n)
  {
    forall caps: Caps, stack: seq<Saved>
      ensures Holds(prog, x, State(pc, q, caps, stack), Prepend([Mark(m, q)], v), n)
    {
      var st := State(pc, q, caps, stack);
      var mid := State(pc + 1, q, SetMark(caps, Mark(m, q)), stack);
      StepReaches(prog, x, st);
      assert Holds(prog, x, mid, v, n);
      match v
      case Accept(s, w) =>
        assert Apply([], caps) == caps;
        assert Apply([Mark(m, q)], caps) == mid.caps by { assert [Mark(m, q)][..0] == []; }
        ApplyConcat([Mark(m, q)], w, caps);
        ReachesThrough(prog, x, st, mid, Accepted(s, Apply(w, mid.caps)));
      case Reject => ReachesThrough(prog, x, st, mid, Pop(stack));
      case Diverge => RunningThrough(prog, x, st, mid, n);
    }
  }

  lemma JumpBehaves(prog: seq<Inst>, x: Subject, pc: nat, d: int, q: nat, v: Verdict, n: nat)
    requires pc < |prog| && prog[pc] == IJump(d)
    requires Behaves(prog, x, d, q, v, n)
    ensures Behaves(prog, x, pc, q, v, n)
  {
    forall caps: Caps, stack: seq<Saved> ensures Holds(prog, x, State(pc, q, caps, stack), v, n) {
      HoldsThrough(prog, x, State(pc, q, caps, stack), State(d, q, caps, stack), v, n);
    }
  }

  /** A jump takes a step, so it stays running for one step more than its target does. */
  lemma JumpDiverges(prog: seq<Inst>, x: Subject, pc: nat, d: int, q: nat, n: nat)
    requires pc < |prog| && prog[pc] == IJump(d)
    requires n > 0 ==> Behaves(prog, x, d, q, Diverge, n - 1)
    ensures Behaves(prog, x, pc, q, Diverge, n)
  {
    forall caps: Caps, stack: seq<Saved>
      ensures Holds(prog, x, State(pc, q, caps, stack), Diverge, n)
    {
      if n > 0 { assert Holds(prog, x, State(d, q, caps, stack), Diverge, n - 1); }
    }
  }

  function Else(v: Verdict, w: Verdict): Verdict
  {
    if v == Reject then w else v
  }

  lemma ForkBehaves(prog: seq<Inst>, x: Subject, pc: nat, d: int, q: nat,
                    v: Verdict, w: Verdict, n: nat)
    requires pc < |prog| && prog[pc] == IFork(d)
    requires Behaves(prog, x, pc + 1, q, v, n)
    requires v == Reject ==> Behaves(prog, x, d, q, w, n)
    ensures Behaves(prog, x, pc, q, Else(v, w), n)
  {
    forall caps: Caps, stack: seq<Saved>
      ensures Holds(prog, x, State(pc, q, caps, stack), Else(v, w), n)
    {
      var st := State(pc, q, caps, stack);
      var push := stack + [Saved(d, q, caps)];
      var mid := State(pc + 1, q, caps, push);
      StepReaches(prog, x, st);
      assert Holds(prog, x, mid, v, n);
      match v
      case Accept(s, m) => ReachesThrough(prog, x, st, mid, Accepted(s, Apply(m, caps)));
      case Diverge => RunningThrough(prog, x, st, mid, n);
      case Reject =>
        var back := State(d, q, caps, stack);
        assert push[..|push| - 1] == stack;
        ReachesThrough(prog, x, st, mid, Running(back));
        assert Holds(prog, x, back, w, n);
        match w
        case Accept(s, m) => ReachesThrough(prog, x, st, back, Accepted(s, Apply(m, caps)));
        case Diverge => RunningThrough(prog, x, st, back, n);
        case Reject => ReachesThrough(prog, x, st, back, Pop(stack));
    }
  }

  // ---------- lists of matches ----------

  lemma {:induction false} VisitedAppend(prog: seq<Inst>, x: Subject, h: Hits, g: Hits, b: int,
                                         k: nat -> Verdict, n: nat)
    requires Visited(prog, x, Append(h, g), b, k, n)
    ensures Visited(prog, x, h, b, k, n)
    ensures FirstOf(h, k) == Reject ==> Visited(prog, x, g, b, k, n)
  {
    if h.Hit? && k(h.pos) == Reject { VisitedAppend(prog, x, h.rest, g, b, k, n); }
  }

  lemma {:induction false} VisitedPrefix(prog: seq<Inst>, x: Subject, w: seq<Mark>, h: Hits, b: int,
                                         k: nat -> Verdict, n: nat)
    requires Visited(prog, x, Prefix(w, h), b, k, n)
    ensures Visited(prog, x, h, b, k, n)
  {
    if h.Hit? && k(h.pos) == Reject { VisitedPrefix(prog, x, w, h.rest, b, k, n); }
  }

  /** If the code at mid runs f and then goes on at b, it behaves as f followed by k at every
      match of h that the search gets to. */
  lemma {:induction false} VisitedBind(prog: seq<Inst>, x: Subject, h: Hits, f: nat -> Hits,
                                       mid: int, b: int, k: nat -> Verdict, p: nat, n: nat)
    requires Within(h, p, x.len) && Visited(prog, x, Bind(h, f), b, k, n)
    requires forall q | p <= q <= x.len && Visited(prog, x, f(q), b, k, n) ::
               Behaves(prog, x, mid, q, FirstOf(f(q), k), n)
    ensures Visited(prog, x, h, mid, Through(f, k), n)
  {
    if h.Hit? {
      var g := Prefix(h.marks, f(h.pos));
      VisitedAppend(prog, x, g, Bind(h.rest, f), b, k, n);
      VisitedPrefix(prog, x, h.marks, f(h.pos), b, k, n);
      FirstOfPrefix(h.marks, f(h.pos), k);
      if Through(f, k)(h.pos) == Reject { VisitedBind(prog, x, h.rest, f, mid, b, k, p, n); }
    }
  }

  // ---------- the emitted code ----------

  predicate CodeAt(prog: seq<Inst>, at: nat, c: seq<Inst>)
  {
    at + |c| <= |prog| && prog[at..at + |c|] == c
  }

  lemma CodeAtSplit(prog: seq<Inst>, at: nat, c: seq<Inst>, d: seq<Inst>)
    requires CodeAt(prog, at, c + d)
    ensures CodeAt(prog, at, c) && CodeAt(prog, at + |c|, d)
  {
    assert prog[at..at + |c + d|][..|c|] == prog[at..at + |c|];
    assert prog[at..at + |c + d|][|c|..] == prog[at + |c|..at + |c| + |d|];
  }

  lemma CodeAtHead(prog: seq<Inst>, at: nat, i: Inst, d: seq<Inst>)
    requires CodeAt(prog, at, [i] + d)
    ensures at < |prog| && prog[at] == i && CodeAt(prog, at + 1, d)
  {
    CodeAtSplit(prog, at, [i], d);
    assert prog[at..at + 1][0] == i;
  }

  lemma CopiesCodeAt(prog: seq<Inst>, kd: Kind, m: nat, at: nat)
    requires m > 0 && CodeAt(prog, at, Copies(kd, m, at))
    ensures CodeAt(prog, at, KindCode(kd, at)) && CodeAt(prog, at + KindLen(kd), Copies(kd, m - 1, at + KindLen(kd)))
  {
    hide KindCode, KindLen, Code, Len;
    CodeAtSplit(prog, at, KindCode(kd, at), Copies(kd, m - 1, at + KindLen(kd)));
  }

  /** The code of a tree, entered at position p, behaves as the first of the tree's matches
      that what follows the code does not turn down. */
  lemma {:induction false} Runs(prog: seq<Inst>, x: Subject, t: Tree, at: nat, k: nat -> Verdict,
                                p: nat, n: nat)
    requires p <= x.len && CodeAt(prog, at, Code(t, at))
    requires Visited(prog, x, Match(t, x, p), at + Len(t), k, n)
    ensures Behaves(prog, x, at, p, FirstOf(Match(t, x, p), k), n)
    decreases t, 0, 0, 0, n
  {
    hide Behaves, KindCode, KindLen, MatchKind;
    if t.Null? || (t.mincnt == 0 && t.maxcnt == 0) {
      FirstOfHere(p, k);
    } else if t.mincnt == 1 && t.maxcnt == 1 {
      KindRuns(prog, x, t.kind, at, k, p, n);
    } else {
      var tail, b := at + Times(t.mincnt, KindLen(t.kind)), at + Len(t);
      var copies, f := MatchCopies(t.kind, x, t.mincnt, p), Tail(t, x);
      CodeAtSplit(prog, at, Copies(t.kind, t.mincnt, at), TailCode(t, tail, b));
      CopiesWithin(t.kind, x, t.mincnt, p);
      forall q | p <= q <= x.len && Visited(prog, x, f(q), b, k, n)
        ensures Behaves(prog, x, tail, q, FirstOf(f(q), k), n)
      {
        TailRuns(prog, x, t, tail, b, k, q, n);
      }
      VisitedBind(prog, x, copies, f, tail, b, k, p, n);
      FirstOfBind(copies, f, k);
      CopiesRun(prog, x, t.kind, t.mincnt, at, Through(f, k), p, n);
    }
  }

  lemma {:induction false} TailRuns(prog: seq<Inst>, x: Subject, t: Tree, tail: nat, b: nat,
                                    k: nat -> Verdict, q: nat, n: nat)
    requires t.Node? && q <= x.len && CodeAt(prog, tail, TailCode(t, tail, b))
    requires b == tail + |TailCode(t, tail, b)|
    requires Visited(prog, x, Tail(t, x)(q), b, k, n)
    ensures Behaves(prog, x, tail, q, FirstOf(Tail(t, x)(q), k), n)
    decreases t.kind, 1, x.len + Optional(t), 1, n
  {
    if t.maxcnt < 0 {
      StarRuns(prog, x, t.kind, tail, k, q, n);
    } else {
      assert Tail(t, x)(q) == MatchOpt(t.kind, x, Optional(t), q);
      OptRuns(prog, x, t.kind, Optional(t), tail, b, k, q, n);
    }
  }

  lemma {:induction false} KindRuns(prog: seq<Inst>, x: Subject, kd: Kind, at: nat,
                                    k: nat -> Verdict, p: nat, n: nat)
    requires p <= x.len && CodeAt(prog, at, KindCode(kd, at))
    requires Visited(prog, x, MatchKind(kd, x, p), at + KindLen(kd), k, n)
    ensures Behaves(prog, x, at, p, FirstOf(MatchKind(kd, x, p), k), n)
    decreases kd, 0, 0, 1, n
  {
    match kd
    case Atom(ra) =>
      assert prog[at..at + 1][0] == IAtom(ra);
      var r := Advance(x, ra, p);
      var v := if r.Some? then k(r.value) else Reject;
      if v.Accept? { assert [] + v.marks == v.marks; }
      AtomBehaves(prog, x, at, ra, p, v, n);
    case Cat(_, _) => CatRuns(prog, x, kd, at, k, p, n);
    case Alt(_, _) => AltRuns(prog, x, kd, at, k, p, n);
    case Grp(_, _) => GrpRuns(prog, x, kd, at, k, p, n);
  }

  lemma CatCodeAt(prog: seq<Inst>, kd: Kind, at: nat)
    requires kd.Cat? && CodeAt(prog, at, KindCode(kd, at))
    ensures CodeAt(prog, at, Code(kd.c1, at))
    ensures CodeAt(prog, at + Len(kd.c1), Code(kd.c2, at + Len(kd.c1)))
  {
    hide Code, Len;
    CodeAtSplit(prog, at, Code(kd.c1, at), Code(kd.c2, at + Len(kd.c1)));
  }

  lemma {:induction false} CatRuns(prog: seq<Inst>, x: Subject, kd: Kind, at: nat,
                                   k: nat -> Verdict, p: nat, n: nat)
    requires kd.Cat? && p <= x.len && CodeAt(prog, at, KindCode(kd, at))
    requires Visited(prog, x, MatchKind(kd, x, p), at + KindLen(kd), k, n)
    ensures Behaves(prog, x, at, p, FirstOf(MatchKind(kd, x, p), k), n)
    decreases kd, 0, 0, 0, 0
  {
    hide Behaves, FirstOf, Match, Code, KindCode;
    var mid, b := at + Len(kd.c1), at + KindLen(kd);
    CatCodeAt(prog, kd, at);
    var h, f := Match(kd.c1, x, p), Rest(kd.c2, x);
    assert MatchKind(kd, x, p) == Bind(h, f);
    MatchWithin(kd.c1, x, p);
    forall q | p <= q <= x.len && Visited(prog, x, f(q), b, k, n)
      ensures Behaves(prog, x, mid, q, FirstOf(f(q), k), n)
    {
      Runs(prog, x, kd.c2, mid, k, q, n);
    }
    VisitedBind(prog, x, h, f, mid, b, k, p, n);
    FirstOfBind(h, f, k);
    Runs(prog, x, kd.c1, at, Through(f, k), p, n);
  }

  lemma AltCodeAt(prog: seq<Inst>, kd: Kind, at: nat)
    requires kd.Alt? && CodeAt(prog, at, KindCode(kd, at))
    ensures at + 1 + Len(kd.c1) < |prog|
    ensures prog[at] == IFork(at + Len(kd.c1) + 2) && CodeAt(prog, at + 1, Code(kd.c1, at + 1))
    ensures prog[at + 1 + Len(kd.c1)] == IJump(at + KindLen(kd))
    ensures CodeAt(prog, at + Len(kd.c1) + 2, Code(kd.c2, at + Len(kd.c1) + 2))
  {
    hide Code, Len;
    var b, other := at + KindLen(kd), at + Len(kd.c1) + 2;
    var code1, code2 := Code(kd.c1, at + 1), Code(kd.c2, other);
    assert KindCode(kd, at) == [IFork(other)] + (code1 + ([IJump(b)] + code2));
    CodeAtHead(prog, at, IFork(other), code1 + ([IJump(b)] + code2));
    CodeAtSplit(prog, at + 1, code1, [IJump(b)] + code2);
    CodeAtHead(prog, at + 1 + Len(kd.c1), IJump(b), code2);
  }

  lemma {:induction false} AltRuns(prog: seq<Inst>, x: Subject, kd: Kind, at: nat,
                                   k: nat -> Verdict, p: nat, n: nat)
    requires kd.Alt? && p <= x.len && CodeAt(prog, at, KindCode(kd, at))
    requires Visited(prog, x, MatchKind(kd, x, p), at + KindLen(kd), k, n)
    ensures Behaves(prog, x, at, p, FirstOf(MatchKind(kd, x, p), k), n)
    decreases kd, 0, 0, 0, 0
  {
    hide Behaves, FirstOf, Match, Code, KindCode;
    var b, other := at + KindLen(kd), at + Len(kd.c1) + 2;
    var h, g := Match(kd.c1, x, p), Match(kd.c2, x, p);
    AltCodeAt(prog, kd, at);
    VisitedAppend(prog, x, h, g, b, k, n);
    VisitedJump(prog, x, h, at + 1 + Len(kd.c1), b, k, n);
    Runs(prog, x, kd.c1, at + 1, k, p, n);
    if FirstOf(h, k) == Reject { Runs(prog, x, kd.c2, other, k, p, n); }
    ForkBehaves(prog, x, at, other, p, FirstOf(h, k), FirstOf(g, k), n);
    FirstOfAppend(h, g, k);
  }

  lemma {:induction false} VisitedJump(prog: seq<Inst>, x: Subject, h: Hits, pc: nat, b: int,
                                       k: nat -> Verdict, n: nat)
    requires pc < |prog| && prog[pc] == IJump(b) && Visited(prog, x, h, b, k, n)
    ensures Visited(prog, x, h, pc, k, n)
  {
    if h.Hit? {
      JumpBehaves(prog, x, pc, b, h.pos, k(h.pos), n);
      if k(h.pos) == Reject { VisitedJump(prog, x, h.rest, pc, b, k, n); }
    }
  }

  lemma GrpCodeAt(prog: seq<Inst>, kd: Kind, at: nat)
    requires kd.Grp? && CodeAt(prog, at, KindCode(kd, at))
    ensures at + 1 + Len(kd.c1) < |prog|
    ensures prog[at] == IMark(2 * kd.grp) && prog[at + 1 + Len(kd.c1)] == IMark(2 * kd.grp + 1)
    ensures CodeAt(prog, at + 1, Code(kd.c1, at + 1))
  {
    hide Code, Len;
    var code := Code(kd.c1, at + 1);
    var end := [IMark(2 * kd.grp + 1)];
    assert KindCode(kd, at) == [IMark(2 * kd.grp)] + (code + end);
    CodeAtHead(prog, at, IMark(2 * kd.grp), code + end);
    CodeAtSplit(prog, at + 1, code, end);
    assert end == end + [];
    CodeAtHead(prog, at + 1 + Len(kd.c1), end[0], []);
  }

  lemma {:induction false} GrpRuns(prog: seq<Inst>, x: Subject, kd: Kind, at: nat,
                                   k: nat -> Verdict, p: nat, n: nat)
    requires kd.Grp? && p <= x.len && CodeAt(prog, at, KindCode(kd, at))
    requires Visited(prog, x, MatchKind(kd, x, p), at + KindLen(kd), k, n)
    ensures Behaves(prog, x, at, p, FirstOf(MatchKind(kd, x, p), k), n)
    decreases kd, 0, 0, 0, 0
  {
    hide Behaves, Match, Code, KindCode, FirstOf, Visited, Bind, Prefix, Len, CodeAt;
    var c1, g := kd.c1, kd.grp;
    var mid := at + 1 + Len(c1);
    var h, f := Match(c1, x, p), Closed(g);
    GrpCodeAt(prog, kd, at);
    assert MatchKind(kd, x, p) == Prefix([Mark(2 * g, p)], Bind(h, f));
    VisitedPrefix(prog, x, [Mark(2 * g, p)], Bind(h, f), mid + 1, k, n);
    GrpVisited(prog, x, c1, g, mid, k, p, n);
    Runs(prog, x, c1, at + 1, Through(f, k), p, n);
    FirstOfBind(h, f, k);
    FirstOfPrefix([Mark(2 * g, p)], Bind(h, f), k);
    MarkBehaves(prog, x, at, 2 * g, p, FirstOf(h, Through(f, k)), n);
  }

  lemma GrpVisited(prog: seq<Inst>, x: Subject, c1: Tree, g: nat, mid: nat,
                   k: nat -> Verdict, p: nat, n: nat)
    requires p <= x.len && mid < |prog| && prog[mid] == IMark(2 * g + 1)
    requires Visited(prog, x, Bind(Match(c1, x, p), Closed(g)), mid + 1, k, n)
    ensures Visited(prog, x, Match(c1, x, p), mid, Through(Closed(g), k), n)
  {
    hide Behaves, Match, FirstOf, Visited, Bind, Prefix;
    var f := Closed(g);
    MatchWithin(c1, x, p);
    forall q | p <= q <= x.len && Visited(prog, x, f(q), mid + 1, k, n)
      ensures Behaves(prog, x, mid, q, FirstOf(f(q), k), n)
    {
      VisitedClosed(prog, x, g, q, mid + 1, k, n);
      MarkBehaves(prog, x, mid, 2 * g + 1, q, k(q), n);
      FirstOfClosed(g, q, k);
    }
    VisitedBind(prog, x, Match(c1, x, p), f, mid, mid + 1, k, p, n);
  }

  lemma VisitedClosed(prog: seq<Inst>, x: Subject, g: nat, q: nat, b: int, k: nat -> Verdict, n: nat)
    requires Visited(prog, x, Closed(g)(q), b, k, n)
    ensures Behaves(prog, x, b, q, k(q), n)
  {}

  lemma FirstOfClosed(g: nat, q: nat, k: nat -> Verdict)
    ensures FirstOf(Closed(g)(q), k) == Prepend([Mark(2 * g + 1, q)], k(q))
  {}

  lemma {:induction false} CopiesRun(prog: seq<Inst>, x: Subject, kd: Kind, m: nat, at: nat,
                                     k: nat -> Verdict, p: nat, n: nat)
    requires p <= x.len && CodeAt(prog, at, Copies(kd, m, at))
    requires Visited(prog, x, MatchCopies(kd, x, m, p), at + Times(m, KindLen(kd)), k, n)
    ensures Behaves(prog, x, at, p, FirstOf(MatchCopies(kd, x, m, p), k), n)
    decreases kd, 1, m, 0, n
  {
    hide Behaves, FirstOf, Code, Len, KindCode, KindLen, MatchKind, CodeAt;
    if m == 0 {
      FirstOfHere(p, k);
    } else {
      var mid, b := at + KindLen(kd), at + Times(m, KindLen(kd));
      assert b == mid + Times(m - 1, KindLen(kd));
      CopiesCodeAt(prog, kd, m, at);
      hide Copies, Times;
      var h, f := MatchKind(kd, x, p), MoreCopies(kd, x, m - 1);
      KindWithin(kd, x, p);
      forall q | p <= q <= x.len && Visited(prog, x, f(q), b, k, n)
        ensures Behaves(prog, x, mid, q, FirstOf(f(q), k), n)
      {
        CopiesRun(prog, x, kd, m - 1, mid, k, q, n);
      }
      VisitedBind(prog, x, h, f, mid, b, k, p, n);
      FirstOfBind(h, f, k);
      KindRuns(prog, x, kd, at, Through(f, k), p, n);
    }
  }

  lemma OptCodeAt(prog: seq<Inst>, kd: Kind, m: nat, at: nat, b: nat)
    requires m > 0 && CodeAt(prog, at, OptCode(kd, m, at, b))
    ensures at < |prog| && prog[at] == IFork(b) && CodeAt(prog, at + 1, KindCode(kd, at + 1))
    ensures CodeAt(prog, at + 1 + KindLen(kd), OptCode(kd, m - 1, at + 1 + KindLen(kd), b))
  {
    var code, more := KindCode(kd, at + 1), OptCode(kd, m - 1, at + 1 + KindLen(kd), b);
    assert OptCode(kd, m, at, b) == [IFork(b)] + (code + more);
    CodeAtHead(prog, at, IFork(b), code + more);
    CodeAtSplit(prog, at + 1, code, more);
  }

  lemma {:induction false} OptRuns(prog: seq<Inst>, x: Subject, kd: Kind, m: nat, at: nat, b: nat,
                                   k: nat -> Verdict, p: nat, n: nat)
    requires p <= x.len && CodeAt(prog, at, OptCode(kd, m, at, b))
    requires b == at + Times(m, KindLen(kd) + 1)
    requires Visited(prog, x, MatchOpt(kd, x, m, p), b, k, n)
    ensures Behaves(prog, x, at, p, FirstOf(MatchOpt(kd, x, m, p), k), n)
    decreases kd, 1, m, 0, n
  {
    hide Behaves, Code, Len, KindCode, KindLen, MatchKind, CodeAt, FirstOf, Append;
    if m == 0 {
      FirstOfHere(p, k);
    } else {
      var mid := at + 1 + KindLen(kd);
      OptCodeAt(prog, kd, m, at, b);
      var h, f := MatchKind(kd, x, p), MoreOpt(kd, x, m - 1);
      VisitedAppend(prog, x, Bind(h, f), Here(p), b, k, n);
      KindWithin(kd, x, p);
      forall q | p <= q <= x.len && Visited(prog, x, f(q), b, k, n)
        ensures Behaves(prog, x, mid, q, FirstOf(f(q), k), n)
      {
        OptRuns(prog, x, kd, m - 1, mid, b, k, q, n);
      }
      VisitedBind(prog, x, h, f, mid, b, k, p, n);
      FirstOfBind(h, f, k);
      KindRuns(prog, x, kd, at + 1, Through(f, k), p, n);
      LeaveBehaves(prog, x, at, b, p, Bind(h, f), k, n);
    }
  }

  lemma FirstOfHere(p: nat, k: nat -> Verdict)
    ensures FirstOf(Here(p), k) == k(p)
  {
    if k(p).Accept? { assert [] + k(p).marks == k(p).marks; }
  }

  /** A fork whose second choice is to leave the repetition here. */
  lemma LeaveBehaves(prog: seq<Inst>, x: Subject, at: nat, b: int, p: nat, h: Hits,
                     k: nat -> Verdict, n: nat)
    requires at < |prog| && prog[at] == IFork(b)
    requires Behaves(prog, x, at + 1, p, FirstOf(h, k), n)
    requires FirstOf(h, k) == Reject ==> Visited(prog, x, Here(p), b, k, n)
    ensures Behaves(prog, x, at, p, FirstOf(Append(h, Here(p)), k), n)
  {
    FirstOfHere(p, k);
    FirstOfAppend(h, Here(p), k);
    ForkBehaves(prog, x, at, b, p, FirstOf(h, k), k(p), n);
  }

  /** An unbounded repetition, by induction on the text left and on the steps watched: an
      iteration that moved on behaves as the repetition does further right; one that did not
      move is back where it started, and if the search gets there it never stops. */
  lemma {:induction false} StarRuns(prog: seq<Inst>, x: Subject, kd: Kind, at: nat,
                                    k: nat -> Verdict, p: nat, n: nat)
    requires p <= x.len && CodeAt(prog, at, StarCode(kd, at))
    requires Visited(prog, x, MatchStar(kd, x, p), at + KindLen(kd) + 2, k, n)
    ensures Behaves(prog, x, at, p, FirstOf(MatchStar(kd, x, p), k), n)
    decreases kd, 1, x.len - p, 0, n
  {
    hide Behaves, Code, Len, KindCode, KindLen, MatchKind, CodeAt, Visited, FirstOf, Append;
    var jump, b := at + 1 + KindLen(kd), at + KindLen(kd) + 2;
    StarCodeAt(prog, kd, at);
    var h, f := MatchKind(kd, x, p), MoreStar(kd, x, p);
    var v := FirstOf(MatchStar(kd, x, p), k);
    if n > 0 {
      VisitedEarlier(prog, x, MatchStar(kd, x, p), b, k, n, n - 1);
      StarRuns(prog, x, kd, at, k, p, n - 1);
    }
    if v == Diverge { JumpDiverges(prog, x, jump, at, p, n); }
    KindWithin(kd, x, p);
    forall q | p < q <= x.len && Visited(prog, x, f(q), b, k, n)
      ensures Behaves(prog, x, jump, q, FirstOf(f(q), k), n)
    {
      StarRuns(prog, x, kd, at, k, q, n);
      JumpBehaves(prog, x, jump, at, q, FirstOf(f(q), k), n);
    }
    VisitedAppend(prog, x, Bind(h, f), Here(p), b, k, n);
    FirstOfAppend(Bind(h, f), Here(p), k);
    StarVisited(prog, x, h, f, jump, b, k, p, v, n);
    FirstOfBind(h, f, k);
    KindRuns(prog, x, kd, at + 1, Through(f, k), p, n);
    LeaveBehaves(prog, x, at, b, p, Bind(h, f), k, n);
  }

  lemma StarCodeAt(prog: seq<Inst>, kd: Kind, at: nat)
    requires CodeAt(prog, at, StarCode(kd, at))
    ensures at + 1 + KindLen(kd) < |prog| && prog[at] == IFork(at + KindLen(kd) + 2)
    ensures prog[at + 1 + KindLen(kd)] == IJump(at) && CodeAt(prog, at + 1, KindCode(kd, at + 1))
  {
    hide KindCode, KindLen, Code, Len;
    var jump, b, code := at + 1 + KindLen(kd), at + KindLen(kd) + 2, KindCode(kd, at + 1);
    assert StarCode(kd, at) == [IFork(b)] + (code + [IJump(at)]);
    CodeAtHead(prog, at, IFork(b), code + [IJump(at)]);
    CodeAtSplit(prog, at + 1, code, [IJump(at)]);
    assert [IJump(at)] == [IJump(at)] + [];
    CodeAtHead(prog, jump, IJump(at), []);
  }

  /** VisitedBind for the body of an unbounded repetition: the search gets to an iteration that
      did not move only if its verdict is to diverge. */
  lemma {:induction false} StarVisited(prog: seq<Inst>, x: Subject, h: Hits, f: nat -> Hits,
                                       jump: int, b: int, k: nat -> Verdict, p: nat, v: Verdict, n: nat)
    requires Within(h, p, x.len) && f(p) == Stuck
    requires Visited(prog, x, Bind(h, f), b, k, n)
    requires FirstOf(Bind(h, f), k) == Diverge ==> v == Diverge
    requires v == Diverge ==> Behaves(prog, x, jump, p, Diverge, n)
    requires forall q | p < q <= x.len && Visited(prog, x, f(q), b, k, n) ::
               Behaves(prog, x, jump, q, FirstOf(f(q), k), n)
    ensures Visited(prog, x, h, jump, Through(f, k), n)
  {
    if h.Hit? {
      var g := Prefix(h.marks, f(h.pos));
      VisitedAppend(prog, x, g, Bind(h.rest, f), b, k, n);
      VisitedPrefix(prog, x, h.marks, f(h.pos), b, k, n);
      FirstOfPrefix(h.marks, f(h.pos), k);
      FirstOfAppend(g, Bind(h.rest, f), k);
      if Through(f, k)(h.pos) == Reject { StarVisited(prog, x, h.rest, f, jump, b, k, p, v, n); }
    }
  }

  lemma {:induction false} VisitedEarlier(prog: seq<Inst>, x: Subject, h: Hits, b: int,
                                          k: nat -> Verdict, n: nat, m: nat)
    requires Visited(prog, x, h, b, k, n) && m <= n
    ensures Visited(prog, x, h, b, k, m)
  {
    if h.Hit? {
      forall caps: Caps, stack: seq<Saved>
        ensures Holds(prog, x, State(b, h.pos, caps, stack), k(h.pos), m)
      {
        assert Holds(prog, x, State(b, h.pos, caps, stack), k(h.pos), n);
        RunConcat(prog, x, State(b, h.pos, caps, stack), m, n - m);
      }
      if k(h.pos) == Reject { VisitedEarlier(prog, x, h.rest, b, k, n, m); }
    }
  }

  // ---------- whole programs ----------

  /** Behind the code of the tree, regcomp puts the end mark of the whole match, and MATCH. */
  function Finish(): nat -> Verdict
  {
    (q: nat) => Accept(q, [Mark(1, q)])
  }

  lemma FinishBehaves(t: Tree, x: Subject, q: nat, n: nat)
    ensures Behaves(Program(t), x, 1 + Len(t), q, Finish()(q), n)
  {
    hide Code, Len;
    var prog, pc := Program(t), 1 + Len(t);
    assert prog[pc] == IMark(1) && prog[pc + 1] == IMatch;
    var last, v := pc + 1, Accept(q, []);
    forall caps: Caps, stack: seq<Saved>
      ensures Holds(prog, x, State(last, q, caps, stack), v, n)
    {
      StepReaches(prog, x, State(last, q, caps, stack));
    }
    MarkBehaves(prog, x, pc, 1, q, Accept(q, []), n);
    assert [Mark(1, q)] + [] == [Mark(1, q)];
  }

  lemma {:induction false} FinishVisited(t: Tree, x: Subject, h: Hits, n: nat)
    ensures Visited(Program(t), x, h, 1 + Len(t), Finish(), n)
    ensures FirstOf(h, Finish()) ==
            if h.Hit? then Accept(h.pos, h.marks + [Mark(1, h.pos)])
            else if h.Stuck? then Diverge else Reject
  {
    hide Behaves;
    if h.Hit? { FinishBehaves(t, x, h.pos, n); }
  }

  /** All the captures of a match: the whole match is group 0. */
  function Captures(p: nat, h: Hits, caps: Caps): Caps
    requires h.Hit?
  {
    Apply([Mark(0, p)] + (h.marks + [Mark(1, h.pos)]), caps)
  }

  lemma ProgramBehaves(t: Tree, x: Subject, p: nat, n: nat)
    requires p <= x.len
    ensures Behaves(Program(t), x, 0, p,
                    Prepend([Mark(0, p)], FirstOf(Match(t, x, p), Finish())), n)
  {
    hide Behaves, Code, Match;
    var prog := Program(t);
    assert prog == [IMark(0)] + Code(t, 1) + [IMark(1), IMatch];
    assert prog[1..1 + |Code(t, 1)|] == Code(t, 1);
    FinishVisited(t, x, Match(t, x, p), n);
    Runs(prog, x, t, 1, Finish(), p, n);
    MarkBehaves(prog, x, 0, 0, p, FirstOf(Match(t, x, p), Finish()), n);
  }

  /** The compiled program succeeds exactly when the list of matches has a first element, and
      then ends with that element's position and captures; it fails exactly when the list is
      empty; and it runs forever exactly when the search comes to a Stuck first. */
  lemma ProgramCorrect(t: Tree, x: Subject, p: nat, caps: Caps)
    requires p <= x.len
    ensures var h := Match(t, x, p);
            var prog, st := Program(t), State(0, p, caps, []);
            && (h.Hit? ==> Reaches(prog, x, st, Accepted(h.pos, Captures(p, h, caps))))
            && (h.NoMore? ==> Reaches(prog, x, st, Failed))
            && (h.Stuck? ==> !Halts(prog, x, st))
  {
    hide Match, Code, Len;
    var h := Match(t, x, p);
    var prog, st := Program(t), State(0, p, caps, []);
    forall n: nat
      ensures Holds(prog, x, st, Prepend([Mark(0, p)], FirstOf(h, Finish())), n)
    {
      ProgramBehaves(t, x, p, n);
    }
    FinishVisited(t, x, h, 0);
    assert Holds(prog, x, st, Prepend([Mark(0, p)], FirstOf(h, Finish())), 0);
    if h.Stuck? {
      forall n: nat ensures Run(prog, x, st, n).Running? {
        assert Holds(prog, x, st, Prepend([Mark(0, p)], FirstOf(h, Finish())), n);
      }
    }
  }

  /** The exact condition under which re_rec comes to an end. */
  lemma HaltsIff(t: Tree, x: Subject, p: nat, caps: Caps)
    requires p <= x.len
    ensures Halts(Program(t), x, State(0, p, caps, [])) <==> !Match(t, x, p).Stuck?
  {
    hide Match, Code, Len, Run;
    ProgramCorrect(t, x, p, caps);
  }

  /** No run leaves the program: whatever state it comes to, the next step is inside. */
  lemma NeverLost(t: Tree, x: Subject, p: nat, caps: Caps, n: nat)
    requires p <= x.len
    ensures Run(Program(t), x, State(0, p, caps, []), n) != Lost
  {
    hide Match, Code, Len, Run;
    ProgramCorrect(t, x, p, caps);
    var h := Match(t, x, p);
    var prog, st := Program(t), State(0, p, caps, []);
    if Run(prog, x, st, n) == Lost {
      assert Halts(prog, x, st);
      if h.Hit? {
        var m: nat :| Run(prog, x, st, m) == Accepted(h.pos, Captures(p, h, caps));
        StopsOnce(prog, x, st, m, n);
      } else {
        var m: nat :| Run(prog, x, st, m) == Failed;
        StopsOnce(prog, x, st, m, n);
      }
    }
  }
}
