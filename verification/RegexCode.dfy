/** The program rnode_emit writes for a pattern tree (ports/neatvi/regex.c). */
module RegexCode {
  import opened RegexTree

  /** An instruction (struct rinst), with only the operand its type uses. */
  datatype Inst =
    | IAtom(ra: Ratom)
    | IFork(dst: int)
    | IJump(dst: int)
    | IMark(mark: nat)
    | IMatch

  // ---------- length of the emitted code ----------

  /** m pieces of length l, one after the other. */
  function Times(m: nat, l: nat): nat
  {
    if m == 0 then 0 else Times(m - 1, l) + l
  }

  lemma {:induction false} TimesIsProduct(m: nat, l: nat)
    ensures Times(m, l) == m * l
  {
    if m > 0 {
      TimesIsProduct(m - 1, l);
      assert m * l == (m - 1) * l + l;
    }
  }

  function Len(t: Tree): nat
  {
    if t.Null? || (t.mincnt == 0 && t.maxcnt == 0) then 0
    else
      var n := KindLen(t.kind);
      if t.mincnt == 1 && t.maxcnt == 1 then n
      else if t.maxcnt < 0 then Times(t.mincnt, n) + (n + 2)
      else Times(t.mincnt, n) + Times(Optional(t), n + 1)
  }

  function KindLen(k: Kind): nat
  {
    match k
    case Atom(_) => 1
    case Cat(c1, c2) => Len(c1) + Len(c2)
    case Alt(c1, c2) => Len(c1) + Len(c2) + 2
    case Grp(c1, _) => Len(c1) + 2
  }

  /** How many optional copies follow the mandatory ones of a bounded repetition. */
  function Optional(t: Tree): nat
    requires t.Node?
  {
    if t.maxcnt > t.mincnt then t.maxcnt - t.mincnt else 0
  }

  // ---------- the code, placed at a given address ----------

  function Code(t: Tree, at: nat): (r: seq<Inst>)
    ensures |r| == Len(t)
    decreases t, 0, 0
  {
    if t.Null? || (t.mincnt == 0 && t.maxcnt == 0) then []
    else if t.mincnt == 1 && t.maxcnt == 1 then KindCode(t.kind, at)
    else
      var tail := at + Times(t.mincnt, KindLen(t.kind));
      Copies(t.kind, t.mincnt, at) + TailCode(t, tail, at + Len(t))
  }

  /** What follows the mandatory copies of a repetition that ends at end. */
  function TailCode(t: Tree, at: nat, end: nat): (r: seq<Inst>)
    requires t.Node?
    ensures |r| == if t.maxcnt < 0 then KindLen(t.kind) + 2 else Times(Optional(t), KindLen(t.kind) + 1)
    decreases t.kind, 2, 0
  {
    if t.maxcnt < 0 then StarCode(t.kind, at) else OptCode(t.kind, Optional(t), at, end)
  }

  function KindCode(k: Kind, at: nat): (r: seq<Inst>)
    ensures |r| == KindLen(k)
    decreases k, 0, 0
  {
    match k
    case Atom(ra) => [IAtom(ra)]
    case Cat(c1, c2) => Code(c1, at) + Code(c2, at + Len(c1))
    case Alt(c1, c2) =>
      [IFork(at + Len(c1) + 2)] + Code(c1, at + 1) +
      [IJump(at + KindLen(k))] + Code(c2, at + Len(c1) + 2)
    case Grp(c1, g) => [IMark(2 * g)] + Code(c1, at + 1) + [IMark(2 * g + 1)]
  }

  /** m mandatory copies of a node. */
  function Copies(k: Kind, m: nat, at: nat): (r: seq<Inst>)
    ensures |r| == Times(m, KindLen(k))
    decreases k, 1, m
  {
    if m == 0 then [] else KindCode(k, at) + Copies(k, m - 1, at + KindLen(k))
  }

  /** m optional copies; every fork leaves the whole repetition. */
  function OptCode(k: Kind, m: nat, at: nat, end: int): (r: seq<Inst>)
    ensures |r| == Times(m, KindLen(k) + 1)
    decreases k, 1, m
  {
    if m == 0 then []
    else [IFork(end)] + KindCode(k, at + 1) + OptCode(k, m - 1, at + 1 + KindLen(k), end)
  }

  /** An unbounded tail. */
  function StarCode(k: Kind, at: nat): (r: seq<Inst>)
    ensures |r| == KindLen(k) + 2
    decreases k, 1, 0
  {
    [IFork(at + KindLen(k) + 2)] + KindCode(k, at + 1) + [IJump(at)]
  }

  /** The whole program of regcomp. */
  function Program(t: Tree): (r: seq<Inst>)
    ensures |r| == Len(t) + 3
  {
    [IMark(0)] + Code(t, 1) + [IMark(1), IMatch]
  }
}
