/** What a pattern tree matches: its ordered list of matches, and the proof that the program
    rnode_emit writes searches exactly that list (ports/neatvi/regex.c). */
module RegexMatch {
  import opened RegexTree
  import opened RegexCode
  import opened RegexMachine

  // ---------- the reference semantics ----------

  /** The ways a pattern matches from a position, best first: where the match ends and which
      captures it set on its way. The list may end in Stuck: after those matches the search
      would enter an unbounded repetition again at the position where it already is. */
  datatype Hits = NoMore | Stuck | Hit(pos: nat, marks: seq<Mark>, rest: Hits)

  function Append(h: Hits, g: Hits): Hits
  {
    match h
    case NoMore => g
    case Stuck => Stuck
    case Hit(p, m, r) => Hit(p, m, Append(r, g))
  }

  function Prefix(w: seq<Mark>, h: Hits): Hits
  {
    match h
    case NoMore => NoMore
    case Stuck => Stuck
    case Hit(p, m, r) => Hit(p, w + m, Prefix(w, r))
  }

  /** For every way of h in turn, all the ways f goes on from there. */
  function Bind(h: Hits, f: nat -> Hits): Hits
  {
    match h
    case NoMore => NoMore
    case Stuck => Stuck
    case Hit(p, m, r) => Append(Prefix(m, f(p)), Bind(r, f))
  }

  function Here(p: nat): Hits
  {
    Hit(p, [], NoMore)
  }

  function Match(t: Tree, x: Subject, p: nat): Hits
    decreases t, 0, 0, 1
  {
    if t.Null? || (t.mincnt == 0 && t.maxcnt == 0) then Here(p)
    else if t.mincnt == 1 && t.maxcnt == 1 then MatchKind(t.kind, x, p)
    else Bind(MatchCopies(t.kind, x, t.mincnt, p), Tail(t, x))
  }

  function MatchKind(k: Kind, x: Subject, p: nat): Hits
    decreases k, 0, 0, 0
  {
    match k
    case Atom(ra) =>
      var q := Advance(x, ra, p);
      if q.Some? then Here(q.value) else NoMore
    case Cat(c1, c2) => Bind(Match(c1, x, p), Rest(c2, x))
    case Alt(c1, c2) => Append(Match(c1, x, p), Match(c2, x, p))
    case Grp(c1, g) => Prefix([Mark(2 * g, p)], Bind(Match(c1, x, p), Closed(g)))
  }

  function MatchCopies(k: Kind, x: Subject, m: nat, p: nat): Hits
    decreases k, 1, m, 0
  {
    if m == 0 then Here(p) else Bind(MatchKind(k, x, p), MoreCopies(k, x, m - 1))
  }

  /** At most m more, as many as possible first. */
  function MatchOpt(k: Kind, x: Subject, m: nat, p: nat): Hits
    decreases k, 1, m, 0
  {
    if m == 0 then Here(p)
    else Append(Bind(MatchKind(k, x, p), MoreOpt(k, x, m - 1)), Here(p))
  }

  /** Any number more, as many as possible first. */
  function MatchStar(k: Kind, x: Subject, p: nat): Hits
    decreases k, 1, (if p <= x.len then x.len - p else 0), 1
  {
    Append(Bind(MatchKind(k, x, p), MoreStar(k, x, p)), Here(p))
  }

  // What follows the first part, as a function of where that part ended.

  function Rest(t: Tree, x: Subject): nat -> Hits
    decreases t, 0, 0, 2
  {
    (q: nat) => Match(t, x, q)
  }

  function Closed(g: nat): nat -> Hits
  {
    (q: nat) => Hit(q, [Mark(2 * g + 1, q)], NoMore)
  }

  function Tail(t: Tree, x: Subject): nat -> Hits
    requires t.Node?
    decreases t, 0, 0, 0
  {
    if t.maxcnt < 0 then (q: nat) => MatchStar(t.kind, x, q) else MoreOpt(t.kind, x, Optional(t))
  }

  function MoreCopies(k: Kind, x: Subject, m: nat): nat -> Hits
    decreases k, 1, m, 1
  {
    (q: nat) => MatchCopies(k, x, m, q)
  }

  function MoreOpt(k: Kind, x: Subject, m: nat): nat -> Hits
    decreases k, 1, m, 1
  {
    (q: nat) => MatchOpt(k, x, m, q)
  }

  function MoreStar(k: Kind, x: Subject, p: nat): nat -> Hits
    decreases k, 1, (if p <= x.len then x.len - p else 0), 0
  {
    (q: nat) => if p < q <= x.len then MatchStar(k, x, q) else Stuck
  }

  // ---------- all matches lie inside the subject ----------

  predicate Within(h: Hits, p: nat, len: nat)
  {
    h.Hit? ==> p <= h.pos <= len && Within(h.rest, p, len)
  }

  lemma {:induction false} WithinAppend(h: Hits, g: Hits, p: nat, len: nat)
    requires Within(h, p, len) && Within(g, p, len)
    ensures Within(Append(h, g), p, len)
  {
    if h.Hit? { WithinAppend(h.rest, g, p, len); }
  }

  lemma {:induction false} WithinPrefix(w: seq<Mark>, h: Hits, q: nat, p: nat, len: nat)
    requires Within(h, q, len) && p <= q
    ensures Within(Prefix(w, h), p, len)
  {
    if h.Hit? { WithinPrefix(w, h.rest, q, p, len); }
  }

  lemma {:induction false} WithinBind(h: Hits, f: nat -> Hits, p: nat, len: nat)
    requires Within(h, p, len)
    requires forall q | p <= q <= len :: Within(f(q), q, len)
    ensures Within(Bind(h, f), p, len)
  {
    if h.Hit? {
      WithinPrefix(h.marks, f(h.pos), h.pos, p, len);
      WithinBind(h.rest, f, p, len);
      WithinAppend(Prefix(h.marks, f(h.pos)), Bind(h.rest, f), p, len);
    }
  }

  lemma {:induction false} MatchWithin(t: Tree, x: Subject, p: nat)
    requires p <= x.len
    ensures Within(Match(t, x, p), p, x.len)
    decreases t, 0, 0
  {
    if t.Null? || (t.mincnt == 0 && t.maxcnt == 0) {
    } else if t.mincnt == 1 && t.maxcnt == 1 {
      KindWithin(t.kind, x, p);
    } else {
      CopiesWithin(t.kind, x, t.mincnt, p);
      forall q | p <= q <= x.len ensures Within(Tail(t, x)(q), q, x.len) {
        if t.maxcnt < 0 { StarWithin(t.kind, x, q); } else { OptWithin(t.kind, x, Optional(t), q); }
      }
      WithinBind(MatchCopies(t.kind, x, t.mincnt, p), Tail(t, x), p, x.len);
    }
  }

  lemma {:induction false} KindWithin(k: Kind, x: Subject, p: nat)
    requires p <= x.len
    ensures Within(MatchKind(k, x, p), p, x.len)
    decreases k, 0, 0
  {
    match k
    case Atom(_) =>
    case Cat(c1, c2) =>
      MatchWithin(c1, x, p);
      forall q | p <= q <= x.len ensures Within(Rest(c2, x)(q), q, x.len) { MatchWithin(c2, x, q); }
      WithinBind(Match(c1, x, p), Rest(c2, x), p, x.len);
    case Alt(c1, c2) =>
      MatchWithin(c1, x, p);
      MatchWithin(c2, x, p);
      WithinAppend(Match(c1, x, p), Match(c2, x, p), p, x.len);
    case Grp(c1, g) =>
      MatchWithin(c1, x, p);
      WithinBind(Match(c1, x, p), Closed(g), p, x.len);
      WithinPrefix([Mark(2 * g, p)], Bind(Match(c1, x, p), Closed(g)), p, p, x.len);
  }

  lemma {:induction false} CopiesWithin(k: Kind, x: Subject, m: nat, p: nat)
    requires p <= x.len
    ensures Within(MatchCopies(k, x, m, p), p, x.len)
    decreases k, 1, m
  {
    if m > 0 {
      KindWithin(k, x, p);
      var f := MoreCopies(k, x, m - 1);
      forall q | p <= q <= x.len ensures Within(f(q), q, x.len) {
        CopiesWithin(k, x, m - 1, q);
      }
      WithinBind(MatchKind(k, x, p), f, p, x.len);
    }
  }

  lemma {:induction false} OptWithin(k: Kind, x: Subject, m: nat, p: nat)
    requires p <= x.len
    ensures Within(MatchOpt(k, x, m, p), p, x.len)
    decreases k, 1, m
  {
    if m > 0 {
      KindWithin(k, x, p);
      var f := MoreOpt(k, x, m - 1);
      forall q | p <= q <= x.len ensures Within(f(q), q, x.len) {
        OptWithin(k, x, m - 1, q);
      }
      WithinBind(MatchKind(k, x, p), f, p, x.len);
      WithinAppend(Bind(MatchKind(k, x, p), f), Here(p), p, x.len);
    }
  }

  lemma {:induction false} StarWithin(k: Kind, x: Subject, p: nat)
    requires p <= x.len
    ensures Within(MatchStar(k, x, p), p, x.len)
    decreases k, 1, x.len - p
  {
    KindWithin(k, x, p);
    forall q | p <= q <= x.len ensures Within(MoreStar(k, x, p)(q), q, x.len) {
      if p < q { StarWithin(k, x, q); }
    }
    WithinBind(MatchKind(k, x, p), MoreStar(k, x, p), p, x.len);
    WithinAppend(Bind(MatchKind(k, x, p), MoreStar(k, x, p)), Here(p), p, x.len);
  }

  // ---------- trying a list of matches in order ----------

  /** What the rest of the program makes of a position. */
  datatype Verdict = Accept(s: nat, marks: seq<Mark>) | Reject | Diverge

  function Prepend(w: seq<Mark>, v: Verdict): Verdict
  {
    if v.Accept? then Accept(v.s, w + v.marks) else v
  }

  /** The first match that the rest of the program does not turn down. */
  function FirstOf(h: Hits, k: nat -> Verdict): Verdict
  {
    match h
    case NoMore => Reject
    case Stuck => Diverge
    case Hit(p, m, r) => if k(p) == Reject then FirstOf(r, k) else Prepend(m, k(p))
  }

  lemma {:induction false} FirstOfAppend(h: Hits, g: Hits, k: nat -> Verdict)
    ensures FirstOf(Append(h, g), k) == if FirstOf(h, k) == Reject then FirstOf(g, k) else FirstOf(h, k)
  {
    if h.Hit? { FirstOfAppend(h.rest, g, k); }
  }

  lemma {:induction false} FirstOfPrefix(w: seq<Mark>, h: Hits, k: nat -> Verdict)
    ensures FirstOf(Prefix(w, h), k) == Prepend(w, FirstOf(h, k))
  {
    if h.Hit? {
      FirstOfPrefix(w, h.rest, k);
      if k(h.pos).Accept? { assert (w + h.marks) + k(h.pos).marks == w + (h.marks + k(h.pos).marks); }
    }
  }

  /** The verdict on a position after which f goes on, and then k. */
  function Through(f: nat -> Hits, k: nat -> Verdict): nat -> Verdict
  {
    (q: nat) => FirstOf(f(q), k)
  }

  /** Matching in two stages tries the same matches in the same order as trying, for each match
      of the first stage, the second stage and what follows it. */
  lemma {:induction false} FirstOfBind(h: Hits, f: nat -> Hits, k: nat -> Verdict)
    ensures FirstOf(Bind(h, f), k) == FirstOf(h, Through(f, k))
  {
    if h.Hit? {
      FirstOfBind(h.rest, f, k);
      FirstOfAppend(Prefix(h.marks, f(h.pos)), Bind(h.rest, f), k);
      FirstOfPrefix(h.marks, f(h.pos), k);
    }
  }
}
