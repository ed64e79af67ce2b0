/** A check on the pattern alone that keeps re_rec (ports/neatvi/regex.c) from running forever:
    the body of every unbounded repetition uses up text. */
module RegexMoves {
  import opened RegexTree
  import opened RegexCode
  import opened RegexMachine
  import opened RegexMatch
  import opened RegexCorrect

  /** The atoms that ratom_match lets match only by moving on: a literal, any character, and a
      bracket expression. The others test the place. */
  predicate Eats(a: Ratom)
  {
    (a.ra == '\0' && a.arg != "") || a.ra == '.' || a.ra == '['
  }

  ghost predicate Moves(x: Subject)
  {
    forall a: Ratom, p: nat :: Eats(a) && Advance(x, a, p).Some? ==> p < Advance(x, a, p).value
  }

  predicate CanBeEmpty(t: Tree)
  {
    t.Null? || t.mincnt == 0 || KindCanBeEmpty(t.kind)
  }

  predicate KindCanBeEmpty(k: Kind)
  {
    match k
    case Atom(ra) => !Eats(ra)
    case Cat(c1, c2) => CanBeEmpty(c1) && CanBeEmpty(c2)
    case Alt(c1, c2) => CanBeEmpty(c1) || CanBeEmpty(c2)
    case Grp(c1, _) => CanBeEmpty(c1)
  }

  predicate LoopsMove(t: Tree)
  {
    t.Node? ==> (t.maxcnt < 0 ==> !KindCanBeEmpty(t.kind)) && KindLoopsMove(t.kind)
  }

  predicate KindLoopsMove(k: Kind)
  {
    match k
    case Atom(_) => true
    case Cat(c1, c2) => LoopsMove(c1) && LoopsMove(c2)
    case Alt(c1, c2) => LoopsMove(c1) && LoopsMove(c2)
    case Grp(c1, _) => LoopsMove(c1)
  }

  // ---------- what cannot be empty moves on ----------

  lemma {:induction false} WithinFrom(h: Hits, p: nat, q: nat, len: nat)
    requires Within(h, q, len) && p <= q
    ensures Within(h, p, len)
  {
    if h.Hit? { WithinFrom(h.rest, p, q, len); }
  }

  lemma {:induction false} WithinBindAt(h: Hits, f: nat -> Hits, p: nat, lo: nat, len: nat)
    requires Within(h, p, len)
    requires forall q | p <= q <= len :: Within(f(q), lo, len)
    ensures Within(Bind(h, f), lo, len)
  {
    if h.Hit? {
      WithinPrefix(h.marks, f(h.pos), lo, lo, len);
      WithinBindAt(h.rest, f, p, lo, len);
      WithinAppend(Prefix(h.marks, f(h.pos)), Bind(h.rest, f), lo, len);
    }
  }

  lemma {:induction false} MatchMoves(t: Tree, x: Subject, p: nat)
    requires Moves(x) && p <= x.len && !CanBeEmpty(t)
    ensures Within(Match(t, x, p), p + 1, x.len)
    decreases t
  {
    hide Within, Bind, KindCanBeEmpty;
    if t.mincnt == 1 && t.maxcnt == 1 {
      KindMoves(t.kind, x, p);
    } else {
      CopiesMove(t.kind, x, t.mincnt, p);
      forall q | p + 1 <= q <= x.len ensures Within(Tail(t, x)(q), q, x.len) {
        if t.maxcnt < 0 {
          StarWithin(t.kind, x, q);
        } else {
          OptWithin(t.kind, x, Optional(t), q);
          assert Tail(t, x)(q) == MatchOpt(t.kind, x, Optional(t), q);
        }
      }
      WithinBind(MatchCopies(t.kind, x, t.mincnt, p), Tail(t, x), p + 1, x.len);
    }
  }

  lemma {:induction false} CopiesMove(k: Kind, x: Subject, m: nat, p: nat)
    requires Moves(x) && p <= x.len && !KindCanBeEmpty(k) && m > 0
    ensures Within(MatchCopies(k, x, m, p), p + 1, x.len)
    decreases k, 2
  {
    hide Within, Bind, KindCanBeEmpty;
    KindMoves(k, x, p);
    var f := MoreCopies(k, x, m - 1);
    forall q | p + 1 <= q <= x.len ensures Within(f(q), q, x.len) {
      CopiesWithin(k, x, m - 1, q);
    }
    WithinBind(MatchKind(k, x, p), f, p + 1, x.len);
  }

  lemma {:induction false} KindMoves(k: Kind, x: Subject, p: nat)
    requires Moves(x) && p <= x.len && !KindCanBeEmpty(k)
    ensures Within(MatchKind(k, x, p), p + 1, x.len)
    decreases k, 1
  {
    hide Bind, Match, CanBeEmpty;
    match k
    case Atom(_) =>
    case Cat(_, _) => CatMoves(k, x, p);
    case Alt(c1, c2) =>
      MatchMoves(c1, x, p);
      MatchMoves(c2, x, p);
      WithinAppend(Match(c1, x, p), Match(c2, x, p), p + 1, x.len);
    case Grp(c1, g) =>
      MatchMoves(c1, x, p);
      WithinBind(Match(c1, x, p), Closed(g), p + 1, x.len);
      WithinPrefix([Mark(2 * g, p)], Bind(Match(c1, x, p), Closed(g)), p + 1, p + 1, x.len);
  }

  lemma {:induction false} CatMoves(k: Kind, x: Subject, p: nat)
    requires k.Cat? && Moves(x) && p <= x.len && !KindCanBeEmpty(k)
    ensures Within(MatchKind(k, x, p), p + 1, x.len)
    decreases k, 0
  {
    hide Bind, CanBeEmpty, Within;
    var c1, c2 := k.c1, k.c2;
    var f := Rest(c2, x);
    if CanBeEmpty(c1) {
      MatchWithin(c1, x, p);
      forall q | p <= q <= x.len ensures Within(f(q), p + 1, x.len) {
        MatchMoves(c2, x, q);
        WithinFrom(f(q), p + 1, q + 1, x.len);
      }
      WithinBindAt(Match(c1, x, p), f, p, p + 1, x.len);
    } else {
      MatchMoves(c1, x, p);
      forall q | p + 1 <= q <= x.len ensures Within(f(q), q, x.len) { MatchWithin(c2, x, q); }
      WithinBind(Match(c1, x, p), f, p + 1, x.len);
    }
  }

  // ---------- so no search gets stuck ----------

  predicate Ends(h: Hits)
  {
    match h
    case NoMore => true
    case Stuck => false
    case Hit(_, _, r) => Ends(r)
  }

  lemma {:induction false} EndsAppend(h: Hits, g: Hits)
    requires Ends(h) && Ends(g)
    ensures Ends(Append(h, g))
  {
    if h.Hit? { EndsAppend(h.rest, g); }
  }

  lemma {:induction false} EndsPrefix(w: seq<Mark>, h: Hits)
    requires Ends(h)
    ensures Ends(Prefix(w, h))
  {
    if h.Hit? { EndsPrefix(w, h.rest); }
  }

  lemma {:induction false} EndsBind(h: Hits, f: nat -> Hits, p: nat, len: nat)
    requires Ends(h) && Within(h, p, len)
    requires forall q | p <= q <= len :: Ends(f(q))
    ensures Ends(Bind(h, f))
  {
    if h.Hit? {
      EndsPrefix(h.marks, f(h.pos));
      EndsBind(h.rest, f, p, len);
      EndsAppend(Prefix(h.marks, f(h.pos)), Bind(h.rest, f));
    }
  }

  /** If the body of every unbounded repetition uses up text, the list of matches is finite at
      every position: together with HaltsIff, re_rec then always comes to an end. */
  lemma {:induction false} LoopsThatMoveEnd(t: Tree, x: Subject, p: nat)
    requires Moves(x) && LoopsMove(t) && p <= x.len
    ensures Ends(Match(t, x, p))
    decreases t, 0, 0
  {
    hide Bind, KindLoopsMove, KindCanBeEmpty;
    if t.Null? || (t.mincnt == 0 && t.maxcnt == 0) {
    } else if t.mincnt == 1 && t.maxcnt == 1 {
      KindEnds(t.kind, x, p);
    } else {
      CopiesEnd(t.kind, x, t.mincnt, p);
      CopiesWithin(t.kind, x, t.mincnt, p);
      forall q | p <= q <= x.len ensures Ends(Tail(t, x)(q)) {
        if t.maxcnt < 0 {
          StarEnds(t.kind, x, q);
        } else {
          OptEnds(t.kind, x, Optional(t), q);
          assert Tail(t, x)(q) == MatchOpt(t.kind, x, Optional(t), q);
        }
      }
      EndsBind(MatchCopies(t.kind, x, t.mincnt, p), Tail(t, x), p, x.len);
    }
  }

  lemma {:induction false} KindEnds(k: Kind, x: Subject, p: nat)
    requires Moves(x) && KindLoopsMove(k) && p <= x.len
    ensures Ends(MatchKind(k, x, p))
    decreases k, 0, 0
  {
    hide Bind, Match, LoopsMove, Within;
    match k
    case Atom(_) =>
    case Cat(c1, c2) =>
      LoopsThatMoveEnd(c1, x, p);
      MatchWithin(c1, x, p);
      var f := Rest(c2, x);
      forall q | p <= q <= x.len ensures Ends(f(q)) { LoopsThatMoveEnd(c2, x, q); }
      EndsBind(Match(c1, x, p), f, p, x.len);
    case Alt(c1, c2) =>
      LoopsThatMoveEnd(c1, x, p);
      LoopsThatMoveEnd(c2, x, p);
      EndsAppend(Match(c1, x, p), Match(c2, x, p));
    case Grp(c1, g) =>
      LoopsThatMoveEnd(c1, x, p);
      MatchWithin(c1, x, p);
      EndsBind(Match(c1, x, p), Closed(g), p, x.len);
      EndsPrefix([Mark(2 * g, p)], Bind(Match(c1, x, p), Closed(g)));
  }

  lemma {:induction false} CopiesEnd(k: Kind, x: Subject, m: nat, p: nat)
    requires Moves(x) && KindLoopsMove(k) && p <= x.len
    ensures Ends(MatchCopies(k, x, m, p))
    decreases k, 1, m
  {
    if m > 0 {
      hide Bind, KindLoopsMove, Within, MatchKind;
      KindEnds(k, x, p);
      KindWithin(k, x, p);
      var f := MoreCopies(k, x, m - 1);
      forall q | p <= q <= x.len ensures Ends(f(q)) { CopiesEnd(k, x, m - 1, q); }
      EndsBind(MatchKind(k, x, p), f, p, x.len);
    }
  }

  lemma {:induction false} OptEnds(k: Kind, x: Subject, m: nat, p: nat)
    requires Moves(x) && KindLoopsMove(k) && p <= x.len
    ensures Ends(MatchOpt(k, x, m, p))
    decreases k, 1, m
  {
    if m > 0 {
      hide Bind, KindLoopsMove, Within, MatchKind;
      KindEnds(k, x, p);
      KindWithin(k, x, p);
      var f := MoreOpt(k, x, m - 1);
      forall q | p <= q <= x.len ensures Ends(f(q)) { OptEnds(k, x, m - 1, q); }
      EndsBind(MatchKind(k, x, p), f, p, x.len);
      EndsAppend(Bind(MatchKind(k, x, p), f), Here(p));
    }
  }

  lemma {:induction false} StarEnds(k: Kind, x: Subject, p: nat)
    requires Moves(x) && KindLoopsMove(k) && !KindCanBeEmpty(k) && p <= x.len
    ensures Ends(MatchStar(k, x, p))
    decreases k, 1, x.len - p
  {
    hide Bind, KindLoopsMove, KindCanBeEmpty, Within, MatchKind;
    KindEnds(k, x, p);
    KindMoves(k, x, p);
    var f := MoreStar(k, x, p);
    forall q | p + 1 <= q <= x.len ensures Ends(f(q)) { StarEnds(k, x, q); }
    EndsBind(MatchKind(k, x, p), f, p + 1, x.len);
    EndsAppend(Bind(MatchKind(k, x, p), f), Here(p));
  }

  // ---------- regexec on patterns whose loops move ----------

  /** Such a pattern never keeps regexec from returning, wherever it starts. */
  lemma LoopsThatMoveReturn(t: Tree, x: Subject)
    requires Moves(x) && LoopsMove(t)
    ensures forall s: nat :: s <= x.len ==> !Match(Number(t, 1).0, x, s).Stuck?
  {
    NumberKeepsLoops(t, 1);
    forall s: nat | s <= x.len ensures !Match(Number(t, 1).0, x, s).Stuck? { LoopsThatMoveEnd(Number(t, 1).0, x, s); }
  }

  lemma {:induction false} NumberKeepsLoops(t: Tree, num: nat)
    ensures LoopsMove(Number(t, num).0) == LoopsMove(t) && CanBeEmpty(Number(t, num).0) == CanBeEmpty(t)
  {
    if t.Node? {
      match t.kind
      case Atom(_) =>
      case Cat(c1, c2) =>
        NumberKeepsLoops(c1, num);
        NumberKeepsLoops(c2, num + Number(c1, num).1);
      case Alt(c1, c2) =>
        NumberKeepsLoops(c1, num);
        NumberKeepsLoops(c2, num + Number(c1, num).1);
      case Grp(c1, _) =>
        NumberKeepsLoops(c1, num + 1);
    }
  }

  // ---------- loops that do not ----------

  /** The first choices of the body, iteration after iteration, come to one that does not move. */
  predicate Circles(k: Kind, x: Subject, p: nat)
    requires p <= x.len
    decreases x.len - p
  {
    var h := MatchKind(k, x, p);
    h.Stuck? || (h.Hit? && (h.pos <= p || h.pos > x.len || Circles(k, x, h.pos)))
  }

  /** An unbounded repetition runs forever if and only if they do. */
  lemma {:induction false} StarDivergesIff(k: Kind, x: Subject, p: nat)
    requires p <= x.len
    ensures MatchStar(k, x, p).Stuck? <==> Circles(k, x, p)
    ensures !MatchStar(k, x, p).NoMore?
    decreases x.len - p
  {
    var h, f := MatchKind(k, x, p), MoreStar(k, x, p);
    hide MatchKind;
    if h.Hit? {
      if p < h.pos <= x.len { StarDivergesIff(k, x, h.pos); }
      assert Bind(h, f) == Append(Prefix(h.marks, f(h.pos)), Bind(h.rest, f));
    }
  }

  /** The converse fails at its simplest: ()* never stops, at any position of any subject. */
  lemma EmptyLoopDiverges(x: Subject, p: nat, caps: Caps)
    requires p <= x.len
    ensures var t := Node(Grp(Null, 1), 0, -1);
            !LoopsMove(t) && !Halts(Program(t), x, State(0, p, caps, []))
  {
    hide Run, Program;
    var t := Node(Grp(Null, 1), 0, -1);
    assert MatchKind(t.kind, x, p).pos == p;
    assert MatchStar(t.kind, x, p) == Stuck;
    assert MatchCopies(t.kind, x, 0, p) == Here(p);
    HaltsIff(t, x, p, caps);
  }
}
