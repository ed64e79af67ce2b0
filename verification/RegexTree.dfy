/** The pattern tree of ports/neatvi/regex.c: node counting and group numbering. */
module RegexTree {
  import opened Ints

  /** An atom of a pattern (struct ratom): its type and its argument. */
  datatype Ratom = Ratom(ra: char, arg: string)

  /** A tree node (struct rnode); Null is the null pointer, which a group without body holds. */
  datatype Tree = Null | Node(kind: Kind, mincnt: nat, maxcnt: int)

  datatype Kind =
    | Atom(ra: Ratom)
    | Cat(c1: Tree, c2: Tree)
    | Alt(c1: Tree, c2: Tree)
    | Grp(c1: Tree, grp: nat)

  /** rnode_count: the number of instructions regcomp makes room for. */
  function CountInt(t: Tree): int
  {
    if t.Null? then 0
    else
      var n := CountKindInt(t.kind);
      if t.mincnt == 0 && t.maxcnt == 0 then 0
      else if t.mincnt == 1 && t.maxcnt == 1 then n
      else
        var m := if t.maxcnt < 0 then Int32((t.mincnt + 1) * n + 2)
                 else Int32((t.mincnt + t.maxcnt) * n + t.maxcnt - t.mincnt);
        if t.mincnt == 0 then Int32(m + 1) else m
  }

  function CountKindInt(k: Kind): int
  {
    match k
    case Atom(_) => 1
    case Cat(c1, c2) => Int32(CountInt(c1) + CountInt(c2))
    case Alt(c1, c2) => Int32(CountInt(c1) + CountInt(c2) + 2)
    case Grp(c1, _) => Int32(CountInt(c1) + 2)
  }

  /** rnode_count, if ints were unbounded. */
  function Count(t: Tree): int
  {
    if t.Null? then 0
    else
      var n := CountKind(t.kind);
      if t.mincnt == 0 && t.maxcnt == 0 then 0
      else if t.mincnt == 1 && t.maxcnt == 1 then n
      else
        var m := if t.maxcnt < 0 then (t.mincnt + 1) * n + 2
                 else (t.mincnt + t.maxcnt) * n + t.maxcnt - t.mincnt;
        if t.mincnt == 0 then m + 1 else m
  }

  function CountKind(k: Kind): int
  {
    match k
    case Atom(_) => 1
    case Cat(c1, c2) => Count(c1) + Count(c2)
    case Alt(c1, c2) => Count(c1) + Count(c2) + 2
    case Grp(c1, _) => Count(c1) + 2
  }

  /** Wrapping around at every node comes to wrapping around once. */
  lemma {:induction false} CountIntIs(t: Tree)
    ensures CountInt(t) == Int32(Count(t))
  {
    hide Int32, CountKind, CountKindInt;
    Int32Small(0);
    if t.Node? {
      var n := CountKind(t.kind);
      CountKindIntIs(t.kind);
      if t.maxcnt < 0 {
        Int32Linear(t.mincnt + 1, n, 2);
        Int32Linear(1, (t.mincnt + 1) * n + 2, 1);
      } else {
        Int32Linear(t.mincnt + t.maxcnt, n, t.maxcnt - t.mincnt);
        Int32Linear(1, (t.mincnt + t.maxcnt) * n + t.maxcnt - t.mincnt, 1);
      }
    }
  }

  lemma {:induction false} CountKindIntIs(k: Kind)
    ensures CountKindInt(k) == Int32(CountKind(k))
  {
    hide Int32, Count, CountInt;
    match k
    case Atom(_) => Int32Small(1);
    case Cat(c1, c2) => CountIntIs(c1); CountIntIs(c2); Int32Sum(Count(c1), Count(c2), 0);
    case Alt(c1, c2) => CountIntIs(c1); CountIntIs(c2); Int32Sum(Count(c1), Count(c2), 2);
    case Grp(c1, _) => CountIntIs(c1); Int32Linear(1, Count(c1), 2);
  }

  /** rnode_grpnum: numbers the groups from num on, and returns how many there are. */
  function Number(t: Tree, num: nat): (r: (Tree, nat))
  {
    if t.Null? then (Null, 0)
    else
      var (k, n) := NumberKind(t.kind, num);
      (Node(k, t.mincnt, t.maxcnt), n)
  }

  function NumberKind(k: Kind, num: nat): (r: (Kind, nat))
  {
    match k
    case Atom(_) => (k, 0)
    case Cat(c1, c2) =>
      var (d1, n1) := Number(c1, num);
      var (d2, n2) := Number(c2, num + n1);
      (Cat(d1, d2), n1 + n2)
    case Alt(c1, c2) =>
      var (d1, n1) := Number(c1, num);
      var (d2, n2) := Number(c2, num + n1);
      (Alt(d1, d2), n1 + n2)
    case Grp(c1, _) =>
      var (d1, n1) := Number(c1, num + 1);
      (Grp(d1, num), 1 + n1)
  }

  /** The group numbers of a tree, in the order their opening parentheses occur. */
  function Groups(t: Tree): seq<nat>
  {
    if t.Null? then [] else KindGroups(t.kind)
  }

  function KindGroups(k: Kind): seq<nat>
  {
    match k
    case Atom(_) => []
    case Cat(c1, c2) => Groups(c1) + Groups(c2)
    case Alt(c1, c2) => Groups(c1) + Groups(c2)
    case Grp(c1, g) => [g] + Groups(c1)
  }

  function Range(lo: nat, n: nat): (r: seq<nat>)
    ensures |r| == n && forall i :: 0 <= i < n ==> r[i] == lo + i
  {
    seq(n, i => lo + i)
  }

  /** A numbering pass gives the groups the consecutive numbers num, num + 1, ... in the order
      of their opening parentheses, so no two groups write the same capture. */
  lemma {:induction false} NumberIsPreorder(t: Tree, num: nat)
    ensures Groups(Number(t, num).0) == Range(num, Number(t, num).1)
  {
    if t.Node? {
      match t.kind
      case Atom(_) =>
      case Cat(c1, c2) =>
        NumberIsPreorder(c1, num);
        NumberIsPreorder(c2, num + Number(c1, num).1);
      case Alt(c1, c2) =>
        NumberIsPreorder(c1, num);
        NumberIsPreorder(c2, num + Number(c1, num).1);
      case Grp(c1, _) =>
        NumberIsPreorder(c1, num + 1);
    }
  }

  /** Numbering changes nothing the instruction count depends on. */
  lemma {:induction false} NumberKeepsCount(t: Tree, num: nat)
    ensures Count(Number(t, num).0) == Count(t)
  {
    if t.Node? {
      match t.kind
      case Atom(_) =>
      case Cat(c1, c2) =>
        NumberKeepsCount(c1, num);
        NumberKeepsCount(c2, num + Number(c1, num).1);
      case Alt(c1, c2) =>
        NumberKeepsCount(c1, num);
        NumberKeepsCount(c2, num + Number(c1, num).1);
      case Grp(c1, _) =>
        NumberKeepsCount(c1, num + 1);
    }
  }
}
