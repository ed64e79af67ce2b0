/** rnode_emit and regcomp (ports/neatvi/regex.c), writing into the program array in place. */
module RegexEmit {
  import opened Ints
  import opened RegexTree
  import opened RegexCode

  // ---------- the room regcomp makes ----------

  /** Instructions counted for a tree beyond those emitted, from the repetition bounds alone. */
  function Slack(t: Tree): int
  {
    if t.Null? || (t.mincnt == 0 && t.maxcnt == 0) then 0
    else
      var d := KindSlack(t.kind);
      if t.mincnt == 1 && t.maxcnt == 1 then d
      else if t.maxcnt < 0 then (t.mincnt + 1) * d + (if t.mincnt == 0 then 1 else 0)
      else if t.mincnt <= t.maxcnt then
        t.mincnt * CountKind(t.kind) + t.maxcnt * d + (if t.mincnt == 0 then 1 else 0)
      else t.maxcnt * (CountKind(t.kind) + 1) - t.mincnt + t.mincnt * d
  }

  function KindSlack(k: Kind): int
  {
    match k
    case Atom(_) => 0
    case Cat(c1, c2) => Slack(c1) + Slack(c2)
    case Alt(c1, c2) => Slack(c1) + Slack(c2)
    case Grp(c1, _) => Slack(c1)
  }

  /** Without wrapping around, rnode_count and rnode_emit would disagree by exactly Slack. */
  lemma {:induction false} CountIsLenPlusSlack(t: Tree)
    ensures Count(t) == Len(t) + Slack(t)
  {
    if t.Node? {
      KindCountIsLenPlusSlack(t.kind);
      var n := KindLen(t.kind);
      TimesIsProduct(t.mincnt, n);
      TimesIsProduct(Optional(t), n + 1);
      Expand(t.mincnt, t.maxcnt, n, KindSlack(t.kind));
    }
  }

  lemma Expand(lo: int, hi: int, n: int, d: int)
    ensures (lo + 1) * (n + d) == lo * n + n + (lo + 1) * d
    ensures (lo + hi) * (n + d) == lo * (n + d) + hi * n + hi * d
    ensures (lo + hi) * (n + d) == lo * n + lo * d + hi * (n + d)
    ensures lo * n + (hi - lo) * (n + 1) == hi * n + hi - lo
    ensures hi * (n + d + 1) == hi * (n + d) + hi
  {}

  lemma {:induction false} KindCountIsLenPlusSlack(k: Kind)
    ensures CountKind(k) == KindLen(k) + KindSlack(k)
  {
    match k
    case Atom(_) =>
    case Cat(c1, c2) => CountIsLenPlusSlack(c1); CountIsLenPlusSlack(c2);
    case Alt(c1, c2) => CountIsLenPlusSlack(c1); CountIsLenPlusSlack(c2);
    case Grp(c1, _) => CountIsLenPlusSlack(c1);
  }

  /** The instructions that regcomp makes room for; a negative number is no room. */
  function Room(t: Tree): int
  {
    Int32(CountInt(t) + 3)
  }

  predicate RoomSuffices(t: Tree)
  {
    |Program(t)| <= Room(t)
  }

  /** How often that number has wrapped around. */
  function Laps(t: Tree): int
  {
    (Count(t) + 3 + 0x8000_0000) / 0x1_0000_0000
  }

  /** The array of regcomp is large enough if and only if the instructions counted too many make
      up for those that were lost by wrapping around. */
  lemma RoomSufficesIff(t: Tree)
    ensures RoomSuffices(t) <==> Slack(t) >= 0x1_0000_0000 * Laps(t)
  {
    RoomIs(t);
    CountIsLenPlusSlack(t);
  }

  lemma RoomIs(t: Tree)
    ensures Room(t) == Count(t) + 3 - 0x1_0000_0000 * Laps(t)
  {
    CountIntIs(t);
    hide Count, CountInt;
    Int32Linear(1, Count(t), 3);
  }

  /** As long as the count fits an int, Slack alone decides. */
  lemma RoomOfSmall(t: Tree)
    requires -0x8000_0000 <= Count(t) + 3 < 0x8000_0000
    ensures Room(t) == Count(t) + 3 && (RoomSuffices(t) <==> Slack(t) >= 0)
  {
    RoomIs(t);
    CountIsLenPlusSlack(t);
  }

  /** (x{m}){m} */
  function Nested(ra: Ratom, m: nat): Tree
  {
    Node(Grp(Node(Atom(ra), m, m), 1), m, m)
  }

  /** (x{46341}){46341}: more than 2^31 instructions into room for 203899, with bounds in order. */
  lemma LargeCountOverflows(ra: Ratom)
    ensures var t := Nested(ra, 46341);
            BoundsFit(t) && Slack(t) >= 0 && |Program(t)| == 2147580966 && Room(t) == 203899
  {
    NestedIs(ra, 46341);
    RoomIs(Nested(ra, 46341));
  }

  /** A count that wraps may still be enough: (x{40000}){40000}. */
  lemma LargeCountMayFit(ra: Ratom)
    ensures var t := Nested(ra, 40000); Count(t) > 0x8000_0000 && Laps(t) == 1 && RoomSuffices(t)
  {
    NestedIs(ra, 40000);
    RoomIs(Nested(ra, 40000));
  }

  lemma NestedIs(ra: Ratom, m: nat)
    requires m > 1
    ensures Len(Nested(ra, m)) == m * (m + 2) && Count(Nested(ra, m)) == 2 * m * (2 * m + 2)
    ensures BoundsFit(Nested(ra, m)) && Slack(Nested(ra, m)) >= 0
  {
    var inner := Node(Atom(ra), m, m);
    TimesIsProduct(m, 1);
    assert Len(inner) == m && Count(inner) == 2 * m;
    TimesIsProduct(m, m + 2);
    assert BoundsFit(Nested(ra, m));
    BoundsFitIsEnough(Nested(ra, m));
  }

  /** No repetition has its bounds so much reversed, as in x{3,0}, that the copies emitted
      outnumber those counted. */
  predicate BoundsFit(t: Tree)
  {
    t.Node? ==>
      && (t.maxcnt < 0 || t.mincnt <= t.maxcnt || t.mincnt <= t.maxcnt * (CountKind(t.kind) + 1))
      && match t.kind
         case Atom(_) => true
         case Cat(c1, c2) => BoundsFit(c1) && BoundsFit(c2)
         case Alt(c1, c2) => BoundsFit(c1) && BoundsFit(c2)
         case Grp(c1, _) => BoundsFit(c1)
  }

  lemma BoundsFitIsEnough(t: Tree)
    requires BoundsFit(t)
    ensures Slack(t) >= 0 && Len(t) <= Count(t)
    ensures Count(t) + 3 < 0x8000_0000 ==> RoomSuffices(t)
  {
    SlackOfFitting(t);
    CountIsLenPlusSlack(t);
    RoomIs(t);
    hide Count, Len, Slack, CountInt;
  }

  lemma {:induction false} SlackOfFitting(t: Tree)
    requires BoundsFit(t)
    ensures Slack(t) >= 0
  {
    if t.Node? {
      match t.kind {
        case Atom(_) =>
        case Cat(c1, c2) => SlackOfFitting(c1); SlackOfFitting(c2);
        case Alt(c1, c2) => SlackOfFitting(c1); SlackOfFitting(c2);
        case Grp(c1, _) => SlackOfFitting(c1);
      }
      KindCountIsLenPlusSlack(t.kind);
      Products(t.mincnt, t.maxcnt, KindSlack(t.kind), CountKind(t.kind));
    }
  }

  lemma Products(lo: nat, hi: int, d: nat, n: nat)
    ensures lo * d >= 0 && (lo + 1) * d >= 0 && lo * n >= 0
    ensures hi >= 0 ==> hi * d >= 0 && hi * (n + 1) >= 0
  {}

  /** For one repeated atom the room suffices if and only if the count fits an int and the bounds
      are in order, or the repetition is open, or its lower bound is at most twice its upper. */
  lemma AtomFitsIff(ra: Ratom, lo: nat, hi: int)
    requires lo < 0x8000_0000 && hi < 0x8000_0000
    ensures var t := Node(Atom(ra), lo, hi);
            RoomSuffices(t) <==> Count(t) + 3 < 0x8000_0000 && (hi < 0 || lo <= 2 * hi)
  {
    var t := Node(Atom(ra), lo, hi);
    AtomLen(ra, lo, hi);
    RoomIs(t);
  }

  lemma AtomLen(ra: Ratom, lo: nat, hi: int)
    ensures var t := Node(Atom(ra), lo, hi);
            && Len(t) == (if hi < 0 then lo + 3 else if lo <= hi then 2 * hi - lo else lo)
            && Count(t) == (if hi < 0 then lo + 3 else if lo == 1 == hi then 1 else 2 * hi) +
                           (if lo == 0 && hi != 0 then 1 else 0)
  {
    TimesIsProduct(lo, 1);
    TimesIsProduct(Optional(Node(Atom(ra), lo, hi)), 2);
  }

  /** x{3,0}: three instructions are emitted into room for none. */
  lemma ReversedBoundsOverflow(ra: Ratom)
    ensures var t := Node(Atom(ra), 3, 0);
            Count(t) == CountInt(t) == 0 && Len(t) == 3 && !RoomSuffices(t)
  {}

  lemma {:induction false} CopyInside(l: nat, m: nat, i: nat)
    requires i < m
    ensures Times(i, l) + l <= Times(m, l)
  {
    if i < m - 1 { CopyInside(l, m - 1, i); }
  }

  // ---------- the copies a loop emits, one after the other ----------

  lemma {:induction false} CopiesSnoc(k: Kind, m: nat, at: nat)
    ensures Copies(k, m + 1, at) == Copies(k, m, at) + KindCode(k, at + Times(m, KindLen(k)))
    decreases m
  {
    hide KindCode, KindLen;
    if m > 0 {
      CopiesSnoc(k, m - 1, at + KindLen(k));
      calc {
        Copies(k, m + 1, at);
        KindCode(k, at) + Copies(k, m, at + KindLen(k));
        KindCode(k, at) + (Copies(k, m - 1, at + KindLen(k)) + KindCode(k, at + Times(m, KindLen(k))));
        Copies(k, m, at) + KindCode(k, at + Times(m, KindLen(k)));
      }
    }
  }

  /** Where the i-th optional copy starts. */
  function ForkAt(k: Kind, at: nat, i: nat): nat
  {
    at + Times(i, KindLen(k) + 1)
  }

  /** m optional copies whose forks from the i-th on leave for end, while the earlier ones still
      hold the list that rnode_emit threads through them: each names the fork before it. */
  function Threaded(k: Kind, m: nat, at: nat, i: nat, end: int): (r: seq<Inst>)
    ensures |r| == Times(m, KindLen(k) + 1)
  {
    if m == 0 then []
    else
      Threaded(k, m - 1, at, i, end) +
      [IFork(if m - 1 >= i then end else Before(k, at, m - 1))] +
      KindCode(k, ForkAt(k, at, m - 1) + 1)
  }

  function Before(k: Kind, at: nat, i: nat): int
  {
    if i == 0 then -1 else ForkAt(k, at, i - 1)
  }

  lemma {:induction false} ThreadedAny(k: Kind, m: nat, at: nat, i: nat, j: nat, end: int, end': int)
    requires m <= i && m <= j
    ensures Threaded(k, m, at, i, end) == Threaded(k, m, at, j, end')
  {
    hide KindCode, KindLen;
    if m > 0 { ThreadedAny(k, m - 1, at, i, j, end, end'); }
  }

  lemma Around(init: seq<Inst>, f: Inst, code: seq<Inst>, i: nat, g: Inst)
    requires i <= |init|
    ensures (init + [f] + code)[i] == if i < |init| then init[i] else f
    ensures (init + [f] + code)[i := g] ==
            if i < |init| then init[i := g] + [f] + code else init + [g] + code
  {}

  /** The last copy of Threaded apart from those before it. */
  lemma ThreadedLast(k: Kind, m: nat, at: nat, i: nat, end: int)
    returns (init: seq<Inst>, f: Inst, code: seq<Inst>)
    requires m > 0
    ensures init == Threaded(k, m - 1, at, i, end) && |init| == Times(m - 1, KindLen(k) + 1)
    ensures f == IFork(if m - 1 >= i then end else Before(k, at, m - 1))
    ensures code == KindCode(k, ForkAt(k, at, m - 1) + 1)
    ensures Threaded(k, m, at, i, end) == init + [f] + code
  {
    hide KindCode, KindLen;
    init, code := Threaded(k, m - 1, at, i, end), KindCode(k, ForkAt(k, at, m - 1) + 1);
    f := IFork(if m - 1 >= i then end else Before(k, at, m - 1));
  }

  lemma {:induction false} ThreadedFork(k: Kind, m: nat, at: nat, i: nat, end: int, j: nat)
    requires j < i <= m
    ensures Times(j, KindLen(k) + 1) < |Threaded(k, m, at, i, end)|
    ensures Threaded(k, m, at, i, end)[Times(j, KindLen(k) + 1)] == IFork(Before(k, at, j))
    decreases m
  {
    hide KindCode, KindLen, Threaded;
    CopyInside(KindLen(k) + 1, m, j);
    var init, f, code := ThreadedLast(k, m, at, i, end);
    if j < m - 1 {
      CopyInside(KindLen(k) + 1, m - 1, j);
      var i' := if i < m then i else m - 1;
      if i == m { ThreadedAny(k, m - 1, at, m, m - 1, end, end); }
      ThreadedFork(k, m - 1, at, i', end, j);
    }
    Around(init, f, code, Times(j, KindLen(k) + 1), f);
  }

  /** Pointing the fork before the i-th at end moves the list one fork back. */
  lemma {:induction false} ThreadedPatch(k: Kind, m: nat, at: nat, i: nat, end: int)
    requires 0 < i <= m
    ensures Times(i - 1, KindLen(k) + 1) < |Threaded(k, m, at, i, end)|
    ensures Threaded(k, m, at, i, end)[Times(i - 1, KindLen(k) + 1) := IFork(end)] ==
            Threaded(k, m, at, i - 1, end)
    decreases m
  {
    hide KindCode, KindLen, Threaded;
    CopyInside(KindLen(k) + 1, m, i - 1);
    var init, f, code := ThreadedLast(k, m, at, i, end);
    var init', f', code' := ThreadedLast(k, m, at, i - 1, end);
    if i < m {
      CopyInside(KindLen(k) + 1, m - 1, i - 1);
      ThreadedPatch(k, m - 1, at, i, end);
    } else {
      ThreadedAny(k, m - 1, at, i, i - 1, end, end);
    }
    Around(init, f, code, Times(i - 1, KindLen(k) + 1), IFork(end));
  }

  lemma {:induction false} OptSnoc(k: Kind, m: nat, at: nat, end: int)
    ensures OptCode(k, m + 1, at, end) ==
            OptCode(k, m, at, end) + [IFork(end)] + KindCode(k, ForkAt(k, at, m) + 1)
    decreases m
  {
    hide KindCode, KindLen;
    if m > 0 {
      var next := at + 1 + KindLen(k);
      OptSnoc(k, m - 1, next, end);
      assert ForkAt(k, next, m - 1) == ForkAt(k, at, m);
      var last := KindCode(k, ForkAt(k, at, m) + 1);
      calc {
        OptCode(k, m + 1, at, end);
        [IFork(end)] + KindCode(k, at + 1) + OptCode(k, m, next, end);
        [IFork(end)] + KindCode(k, at + 1) + (OptCode(k, m - 1, next, end) + [IFork(end)] + last);
        ([IFork(end)] + KindCode(k, at + 1) + OptCode(k, m - 1, next, end)) + [IFork(end)] + last;
        OptCode(k, m, at, end) + [IFork(end)] + last;
      }
    }
  }

  /** Once the list is used up, the optional copies are as OptCode has them. */
  lemma {:induction false} ThreadedDone(k: Kind, m: nat, at: nat, end: int)
    ensures Threaded(k, m, at, 0, end) == OptCode(k, m, at, end)
  {
    hide KindCode, KindLen;
    if m > 0 {
      ThreadedDone(k, m - 1, at, end);
      OptSnoc(k, m - 1, at, end);
    }
  }

  lemma ThreadedNone(k: Kind, at: nat, i: nat, end: int)
    ensures Threaded(k, 0, at, i, end) == []
  {}

  /** The code of a repetition in its two parts. */
  lemma CodeParts(t: Tree, at: nat)
    requires t.Node? && !(t.mincnt == 0 && t.maxcnt == 0) && !(t.mincnt == 1 && t.maxcnt == 1)
    ensures var tail := at + Times(t.mincnt, KindLen(t.kind));
            && Code(t, at) == Copies(t.kind, t.mincnt, at) + TailCode(t, tail, at + Len(t))
            && at + Len(t) == tail + |TailCode(t, tail, at + Len(t))|
    ensures |TailCode(t, 0, 0)| == Len(t) - Times(t.mincnt, KindLen(t.kind))
  {
    hide KindCode, KindLen, Copies, OptCode, StarCode;
  }

  lemma AltCode(k: Kind, at: nat, c: seq<Inst>, d: seq<Inst>, f: Inst, j: Inst)
    requires k.Alt? && c == Code(k.c1, at + 1) && d == Code(k.c2, at + Len(k.c1) + 2)
    requires f == IFork(at + Len(k.c1) + 2) && j == IJump(at + KindLen(k))
    ensures KindCode(k, at) == [f] + c + [j] + d
  {
    hide Code, Len, KindLen;
  }

  lemma AltLen(k: Kind)
    requires k.Alt?
    ensures KindLen(k) == Len(k.c1) + Len(k.c2) + 2
  {
    hide Len;
  }

  /** The program after each step of emitting an alternation. */
  lemma PatchedTwice(e: seq<Inst>, f0: Inst, f: Inst, c: seq<Inst>, j0: Inst, j: Inst, d: seq<Inst>,
                     s1: seq<Inst>, s2: seq<Inst>, s3: seq<Inst>, s4: seq<Inst>, s5: seq<Inst>)
    requires s1 == e + [f0] && s2 == s1 + c && s3 == s2 + [j0] && s4 == s3[|e| := f] && s5 == s4 + d
    ensures |e| + 1 + |c| < |s5| && s5[|e| + 1 + |c| := j] == e + ([f] + c + [j] + d)
  {
    PatchedOnce(e, f0, f, c + [j0]);
    assert s3 == e + [f0] + (c + [j0]);
    PatchedOnce(e + [f] + c, j0, j, d);
    assert s5 == e + [f] + c + [j0] + d;
    assert e + [f] + c + [j] + d == e + ([f] + c + [j] + d);
  }

  lemma PatchedOnce(e: seq<Inst>, i0: Inst, i: Inst, d: seq<Inst>)
    ensures (e + [i0] + d)[|e| := i] == e + [i] + d
  {}

  // ---------- the program under construction (struct regex) ----------

  class Regex {
    const p: array<Inst>
    var n: nat

    ghost predicate Valid()
      reads this
    {
      n <= p.Length
    }

    ghost function Emitted(): seq<Inst>
      requires Valid()
      reads this, p
    {
      p[..n]
    }

    constructor (room: nat)
      ensures Valid() && fresh(p) && p.Length == room && n == 0
    {
      p := new Inst[room](_ => IMatch);
      n := 0;
    }

    /** re_insert */
    method Insert(i: Inst) returns (at: nat)
      requires Valid() && n < p.Length
      modifies p, this`n
      ensures Valid() && at == old(n) && Emitted() == old(Emitted()) + [i]
    {
      p[n] := i;
      n := n + 1;
      at := n - 1;
    }

    /** Set the operand of an instruction emitted earlier. */
    method Patch(at: nat, i: Inst)
      requires Valid() && at < n
      modifies p
      ensures Valid() && Emitted() == old(Emitted())[at := i]
    {
      p[at] := i;
    }

    /** rnode_emitnorep: a node without its repetition. */
    method EmitNoRep(k: Kind)
      requires Valid() && n + KindLen(k) <= p.Length
      modifies p, this`n
      ensures Valid() && Emitted() == old(Emitted()) + KindCode(k, old(n))
      decreases k, 0
    {
      hide Code, Len;
      match k {
        case Alt(c1, c2) => EmitAlt(k);
        case Cat(c1, c2) =>
          Emit(c1);
          Emit(c2);
        case Grp(c1, g) => EmitGrp(k);
        case Atom(ra) => var atom := Insert(IAtom(ra));
      }
    }

    method EmitAlt(k: Kind)
      requires k.Alt? && Valid() && n + KindLen(k) <= p.Length
      modifies p, this`n
      ensures Valid() && Emitted() == old(Emitted()) + KindCode(k, old(n))
      decreases k, 0, 0
    {
      hide Code, Len, KindCode, KindLen;
      AltLen(k);
      ghost var e, n0 := Emitted(), n;
      var fork := Insert(IFork(0));
      ghost var s1 := Emitted();
      Emit(k.c1);
      ghost var s2 := Emitted();
      var done := Insert(IJump(0));
      ghost var s3 := Emitted();
      Patch(fork, IFork(n));
      ghost var s4 := Emitted();
      Emit(k.c2);
      ghost var s5 := Emitted();
      ghost var c, d, f, j := Code(k.c1, n0 + 1), Code(k.c2, n0 + Len(k.c1) + 2), IFork(n0 + Len(k.c1) + 2), IJump(n);
      PatchedTwice(e, IFork(0), f, c, IJump(0), j, d, s1, s2, s3, s4, s5);
      AltCode(k, n0, c, d, f, j);
      Patch(done, IJump(n));
    }

    method EmitGrp(k: Kind)
      requires k.Grp? && Valid() && n + KindLen(k) <= p.Length
      modifies p, this`n
      ensures Valid() && Emitted() == old(Emitted()) + KindCode(k, old(n))
      decreases k, 0, 0
    {
      hide Code, Len;
      ghost var e, n0 := Emitted(), n;
      var mark := Insert(IMark(2 * k.grp));
      Emit(k.c1);
      mark := Insert(IMark(2 * k.grp + 1));
      assert Emitted() == e + ([IMark(2 * k.grp)] + Code(k.c1, n0 + 1) + [IMark(2 * k.grp + 1)]);
    }

    /** rnode_emit */
    method Emit(t: Tree)
      requires Valid() && n + Len(t) <= p.Length
      modifies p, this`n
      ensures Valid() && Emitted() == old(Emitted()) + Code(t, old(n))
      decreases t, 0
    {
      hide KindCode, KindLen, Copies, OptCode, StarCode, Times;
      if t.Null? || (t.mincnt == 0 && t.maxcnt == 0) {
        return;
      }
      if t.mincnt == 1 && t.maxcnt == 1 {
        EmitNoRep(t.kind);
        return;
      }
      CodeParts(t, n);
      hide Code, Len;
      ghost var e := Emitted();
      EmitCopies(t.kind, t.mincnt);
      ghost var tail, copies := n, Copies(t.kind, t.mincnt, |e|);
      if t.maxcnt < 0 {
        EmitStar(t.kind);
      } else {
        EmitOptional(t.kind, Optional(t));
      }
      assert Emitted() == e + copies + TailCode(t, tail, |e| + Len(t));
      assert Emitted() == e + (copies + TailCode(t, tail, |e| + Len(t)));
    }

    /** The loop of rnode_emit over the mandatory copies. */
    method EmitCopies(k: Kind, m: nat)
      requires Valid() && n + Times(m, KindLen(k)) <= p.Length
      modifies p, this`n
      ensures Valid() && Emitted() == old(Emitted()) + Copies(k, m, old(n))
      decreases k, 1
    {
      hide KindCode, KindLen;
      for i := 0 to m
        invariant Valid() && Emitted() == old(Emitted()) + Copies(k, i, old(n))
      {
        CopyInside(KindLen(k), m, i);
        CopiesSnoc(k, i, old(n));
        EmitNoRep(k);
      }
    }

    /** The end of rnode_emit: the code of an unbounded tail. */
    method EmitStar(k: Kind)
      requires Valid() && n + KindLen(k) + 2 <= p.Length
      modifies p, this`n
      ensures Valid() && Emitted() == old(Emitted()) + StarCode(k, old(n))
      decreases k, 1
    {
      hide KindCode, KindLen;
      ghost var e, code := Emitted(), KindCode(k, n + 1);
      var fork := Insert(IFork(0));
      EmitNoRep(k);
      var jump := Insert(IJump(fork));
      assert Emitted() == e + [IFork(0)] + code + [IJump(fork)];
      Patch(fork, IFork(n));
      assert Emitted() == e + [IFork(n)] + code + [IJump(fork)];
      assert Emitted() == e + ([IFork(n)] + code + [IJump(fork)]);
    }

    /** The two loops of rnode_emit over the optional copies: the first threads a list through
        their forks, the second follows it and sends each fork to the end. */
    method EmitOptional(k: Kind, m: nat)
      requires Valid() && n + Times(m, KindLen(k) + 1) <= p.Length
      modifies p, this`n
      ensures Valid()
      ensures Emitted() == old(Emitted()) + OptCode(k, m, old(n), old(n) + Times(m, KindLen(k) + 1))
      decreases k, 1
    {
      hide KindCode, KindLen, OptCode, Threaded, Times;
      ghost var n0, e := n, Emitted();
      ghost var end := n0 + Times(m, KindLen(k) + 1);
      var jump: int := -1;
      ThreadedNone(k, n0, 0, end);
      for i := 0 to m
        invariant Valid() && jump == Before(k, n0, i)
        invariant Emitted() == e + Threaded(k, i, n0, i, end)
      {
        CopyInside(KindLen(k) + 1, m, i);
        ThreadedAny(k, i, n0, i, i + 1, end, end);
        ghost var init, f, code := ThreadedLast(k, i + 1, n0, i + 1, end);
        var fork := Insert(IFork(jump));
        jump := fork;
        EmitNoRep(k);
        assert Emitted() == e + init + [f] + code;
        assert Emitted() == e + (init + [f] + code);
      }
      SendToEnd(k, m, n0, jump, e);
    }

    /** The second loop: from the last fork of the list back to the first. */
    method SendToEnd(ghost k: Kind, ghost m: nat, ghost n0: nat, last: int, ghost e: seq<Inst>)
      requires Valid() && |e| == n0 && last == Before(k, n0, m)
      requires Emitted() == e + Threaded(k, m, n0, m, n)
      modifies p
      ensures Valid() && Emitted() == e + OptCode(k, m, n0, n)
    {
      hide KindCode, KindLen, OptCode, Threaded;
      var jump := last;
      ghost var i: nat := m;
      while jump >= 0
        invariant Valid() && i <= m && jump == Before(k, n0, i)
        invariant Emitted() == e + Threaded(k, m, n0, i, n)
        decreases i
      {
        assert i > 0;
        ghost var th := Threaded(k, m, n0, i, n);
        ThreadedFork(k, m, n0, i, n, i - 1);
        ThreadedPatch(k, m, n0, i, n);
        assert (e + th)[jump] == th[jump - n0];
        assert p[jump] == Emitted()[jump];
        var prev := p[jump].dst;
        assert (e + th)[jump := IFork(n)] == e + th[jump - n0 := IFork(n)];
        Patch(jump, IFork(n));
        jump := prev;
        i := i - 1;
      }
      ThreadedDone(k, m, n0, n);
    }
  }

  lemma ProgramParts(t: Tree)
    ensures Program(t) == [] + [IMark(0)] + Code(t, 1) + [IMark(1)] + [IMatch]
  {
    hide Code;
  }

  /** regcomp, from the parsed tree on, where the array it allocates suffices (RoomSufficesIff). */
  method RegComp(t: Tree) returns (re: Regex)
    requires RoomSuffices(t)
    ensures fresh(re) && fresh(re.p) && re.Valid() && re.Emitted() == Program(Number(t, 1).0)
  {
    hide Code, Len, KindLen, Count, CountInt, Int32, Number, Program;
    NumberKeepsCount(t, 1);
    NumberKeepsLen(t, 1);
    var (numbered, _) := Number(t, 1);
    ProgramParts(numbered);
    re := new Regex(Room(t));
    var mark := re.Insert(IMark(0));
    assert re.Emitted() == [] + [IMark(0)];
    re.Emit(numbered);
    mark := re.Insert(IMark(1));
    mark := re.Insert(IMatch);
  }

  lemma {:induction false} NumberKeepsLen(t: Tree, num: nat)
    ensures Len(Number(t, num).0) == Len(t)
  {
    if t.Node? {
      match t.kind
      case Atom(_) =>
      case Cat(c1, c2) =>
        NumberKeepsLen(c1, num);
        NumberKeepsLen(c2, num + Number(c1, num).1);
      case Alt(c1, c2) =>
        NumberKeepsLen(c1, num);
        NumberKeepsLen(c2, num + Number(c1, num).1);
      case Grp(c1, _) =>
        NumberKeepsLen(c1, num + 1);
    }
  }
}
