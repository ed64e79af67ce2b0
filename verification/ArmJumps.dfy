/** Jumps whose target is not known yet, linked through their offset fields
    (ports/tinycc/arm-gen.c:371-408 and 1553-1596). The code buffer is a sequence of words. */
module ArmJumps {

  const OFFSETS := 0x100_0000       // 2^24
  const HALF := 0x80_0000
  const NOP := 0xE1A0_0000

  datatype Option<+T> = None | Some(value: T)

  /** Division of C: it rounds towards zero. */
  function Quotient(d: int): int
  {
    if d >= 0 then d / 4 else -((-d) / 4)
  }

  /** encbranch: the branch at pos to addr, without its condition; None is its error. */
  function EncBranch(pos: int, addr: int): (w: Option<nat>)
  {
    var q := Quotient(addr - (pos + 8));
    if q >= OFFSETS || q < -OFFSETS then None else Some(0x0A00_0000 + q % OFFSETS)
  }

  /** decbranch: where the branch w at pos goes. */
  function DecBranch(w: nat, pos: int): int
  {
    var x := w % OFFSETS;
    (if x >= HALF then x - OFFSETS else x) * 4 + pos + 8
  }

  /** The offset is one of words, and fits the field of 24 bits. */
  predicate Near(pos: int, addr: int)
  {
    (addr - pos) % 4 == 0 && -HALF <= (addr - pos - 8) / 4 < HALF
  }

  /** A branch that encbranch made goes where it should if and only if the offset fits. The check
      in encbranch lets twice as many pass. */
  lemma BranchRoundTripIff(pos: int, addr: int)
    requires EncBranch(pos, addr).Some?
    ensures DecBranch(EncBranch(pos, addr).value, pos) == addr <==> Near(pos, addr)
  {
    var d := addr - (pos + 8);
    var q := Quotient(d);
    SignExtend(q);
    assert d % 4 == 0 ==> q * 4 == d;
    assert q * 4 == d ==> d % 4 == 0;
  }

  /** The field holds the offset if and only if it has 24 bits with its sign. */
  lemma SignExtend(q: int)
    requires -OFFSETS <= q < OFFSETS
    ensures var x := q % OFFSETS; (if x >= HALF then x - OFFSETS else x) == q <==> -HALF <= q < HALF
    ensures (0x0A00_0000 + q % OFFSETS) % OFFSETS == q % OFFSETS
  {}

  /** A jump over 32 MB passes the check and goes back instead. */
  lemma FarBranchGoesAstray()
    ensures EncBranch(0, 0x200_0008).Some? && DecBranch(EncBranch(0, 0x200_0008).value, 0) == -0x200_0000 + 8
  {}

  /** A top byte with the bits of a branch set in it. */
  function AsBranch(top: nat): nat
    requires top < 256
  {
    top + (if top / 2 % 2 == 0 then 2 else 0) + (if top / 8 % 2 == 0 then 8 else 0)
  }

  /** (w & 0xff000000) | enc */
  function WithOffset(w: nat, enc: nat): nat
    requires w < 256 * OFFSETS && 0x0A00_0000 <= enc < 0x0B00_0000
  {
    AsBranch(w / OFFSETS) * OFFSETS + enc % OFFSETS
  }

  predicate IsBranch(w: nat)
  {
    w / OFFSETS % 16 == 10
  }

  lemma WithOffsetIs(w: nat, enc: nat)
    requires w < 256 * OFFSETS && 0x0A00_0000 <= enc < 0x0B00_0000
    ensures WithOffset(w, enc) % OFFSETS == enc % OFFSETS && WithOffset(w, enc) / OFFSETS == AsBranch(w / OFFSETS)
    ensures IsBranch(w) ==> IsBranch(WithOffset(w, enc)) && WithOffset(w, enc) / OFFSETS == w / OFFSETS
    ensures WithOffset(w, enc) < 256 * OFFSETS
  {
    var top, low := AsBranch(w / OFFSETS), enc % OFFSETS;
    assert top < 256;
    assert (top * 0x100_0000 + low) / 0x100_0000 == top && (top * 0x100_0000 + low) % 0x100_0000 == low;
  }

  // ---------- lists ----------

  predicate Words(code: seq<nat>)
  {
    forall i :: 0 <= i < |code| ==> code[i] < 256 * OFFSETS
  }

  predicate IsPos(code: seq<nat>, p: int)
  {
    0 < p && p % 4 == 0 && p / 4 < |code|
  }

  /** From t on the branches at the positions l are linked, and the last one ends the list. */
  predicate IsList(code: seq<nat>, t: int, l: seq<int>)
    decreases |l|
  {
    if l == [] then t == 0
    else t == l[0] && IsPos(code, t) && IsBranch(code[t / 4]) && IsList(code, DecBranch(code[t / 4], t), l[1..])
  }

  /** A list has no other positions than these. */
  lemma {:induction false} ListOnce(code: seq<nat>, t: int, l: seq<int>, m: seq<int>)
    requires IsList(code, t, l) && IsList(code, t, m)
    ensures l == m
    decreases |l|
  {
    if l != [] && m != [] { ListOnce(code, DecBranch(code[t / 4], t), l[1..], m[1..]); }
  }

  lemma {:induction false} ListTail(code: seq<nat>, t: int, l: seq<int>, k: nat)
    requires IsList(code, t, l) && k < |l|
    ensures IsPos(code, l[k]) && IsBranch(code[l[k] / 4]) && IsList(code, l[k], l[k..])
    ensures IsList(code, DecBranch(code[l[k] / 4], l[k]), l[k + 1..])
    decreases |l|
  {
    if k > 0 {
      ListTail(code, DecBranch(code[t / 4], t), l[1..], k - 1);
      assert l[1..][k - 1..] == l[k..] && l[1..][k..] == l[k + 1..];
    }
  }

  /** A list comes to no position twice. */
  lemma ListDistinct(code: seq<nat>, t: int, l: seq<int>, i: nat, j: nat)
    requires IsList(code, t, l) && i < j < |l|
    ensures l[i] != l[j]
  {
    ListTail(code, t, l, i);
    ListTail(code, t, l, j);
    if l[i] == l[j] { ListOnce(code, l[i], l[i..], l[j..]); }
  }

  /** Words that are not on a list do not matter to it. */
  lemma {:induction false} ListSame(code: seq<nat>, code': seq<nat>, t: int, l: seq<int>)
    requires IsList(code, t, l) && |code| <= |code'|
    requires forall k :: 0 <= k < |l| && IsPos(code, l[k]) ==> code'[l[k] / 4] == code[l[k] / 4]
    ensures IsList(code', t, l)
    decreases |l|
  {
    if l != [] {
      forall k | 0 <= k < |l[1..]| && IsPos(code, l[1..][k]) ensures code'[l[1..][k] / 4] == code[l[1..][k] / 4] {
        assert l[1..][k] == l[k + 1];
      }
      ListSame(code, code', DecBranch(code[t / 4], t), l[1..]);
    }
  }

  /** Two lists, the last branch of the first now leading to the second. */
  lemma {:induction false} ListJoin(code: seq<nat>, code': seq<nat>, n: int, l: seq<int>, t: int, m: seq<int>)
    requires IsList(code, n, l) && l != [] && IsList(code', t, m) && |code'| == |code|
    requires forall k :: 0 <= k < |l| - 1 && IsPos(code, l[k]) ==> code'[l[k] / 4] == code[l[k] / 4]
    requires IsPos(code, l[|l| - 1]) && IsBranch(code'[l[|l| - 1] / 4]) && DecBranch(code'[l[|l| - 1] / 4], l[|l| - 1]) == t
    ensures IsList(code', n, l + m)
    decreases |l|
  {
    if |l| == 1 {
      assert (l + m)[1..] == m;
    } else {
      assert (l + m)[1..] == l[1..] + m;
      forall k | 0 <= k < |l[1..]| - 1 && IsPos(code, l[1..][k]) ensures code'[l[1..][k] / 4] == code[l[1..][k] / 4] {
        assert l[1..][k] == l[k + 1];
      }
      assert l[0] == n;
      ListJoin(code, code', DecBranch(code[n / 4], n), l[1..], t, m);
    }
  }

  predicate Disjoint(l: seq<int>, m: seq<int>)
  {
    forall i, j :: 0 <= i < |l| && 0 <= j < |m| ==> l[i] != m[j]
  }

  lemma SlotsDiffer(p: int, q: int)
    requires 0 < p && 0 < q && p % 4 == 0 && q % 4 == 0 && p != q
    ensures p / 4 != q / 4
  {}

  // ---------- patching ----------

  /** What gsym_addr makes of the branch w at p; None is the error of encbranch. */
  function Patched(w: nat, p: int, a: int): Option<nat>
    requires w < 256 * OFFSETS
  {
    if a == p + 4 then Some(NOP)
    else match EncBranch(p, a)
      case None => None
      case Some(enc) => Some(WithOffset(w, enc))
  }

  /** After the instruction at p the instruction at a is next, if p branches at all. */
  predicate GoesTo(w: nat, p: int, a: int)
  {
    if w == NOP then a == p + 4 else IsBranch(w) && DecBranch(w, p) == a
  }

  /** A patched branch goes to the target, under the condition it had, if and only if the target is
      next or near. */
  lemma PatchedGoesIff(w: nat, p: int, a: int)
    requires w < 256 * OFFSETS && IsBranch(w) && Patched(w, p, a).Some?
    ensures var w' := Patched(w, p, a).value;
            && (GoesTo(w', p, a) <==> a == p + 4 || Near(p, a))
            && (a != p + 4 ==> w' / OFFSETS == w / OFFSETS)
  {
    if a != p + 4 {
      BranchRoundTripIff(p, a);
      WithOffsetIs(w, EncBranch(p, a).value);
      NopIsNoBranch();
    }
  }

  lemma NopIsNoBranch()
    ensures !IsBranch(NOP)
  {}

  /** A jump to t at the end of the code, in front of the list t. */
  lemma JumpIs(code: seq<nat>, t: int, l: seq<int>, enc: nat)
    requires Words(code) && IsList(code, t, l) && EncBranch(4 * |code|, t) == Some(enc)
    ensures enc < 256 * OFFSETS
    ensures var r, w := 4 * |code|, WithOffset(0xE000_0000, enc);
            && Words(code + [w]) && GoesTo(w, r, t) == Near(r, t) && w / OFFSETS == 0xEA
            && (r > 0 && Near(r, t) ==> IsList(code + [w], r, [r] + l))
  {
    var r, w := 4 * |code|, WithOffset(0xE000_0000, enc);
    WithOffsetIs(0xE000_0000, enc);
    BranchRoundTripIff(r, t);
    NopIsNoBranch();
    if r > 0 && Near(r, t) {
      ListSame(code, code + [w], t, l);
      assert ([r] + l)[1..] == l;
    }
  }

  class CodeBuffer {
    var code: seq<nat>
    var nocodeWanted: bool

    ghost predicate Valid()
      reads this
    {
      Words(code)
    }

    constructor ()
      ensures Valid() && code == [] && !nocodeWanted
    {
      code, nocodeWanted := [], false;
    }

    /** gjmp: a jump to what is to follow, in front of the list t; r is the new list, which is t
        when no code is wanted. */
    method Gjmp(t: int, ghost l: seq<int>) returns (ok: bool, r: int)
      requires Valid() && IsList(code, t, l)
      modifies this`code
      ensures Valid()
      ensures nocodeWanted ==> ok && r == t && code == old(code)
      ensures !nocodeWanted ==> r == 4 * |old(code)| && (ok <==> EncBranch(r, t).Some?)
      ensures ok && !nocodeWanted ==> |code| == |old(code)| + 1 && code[.. |old(code)|] == old(code)
      ensures ok && r > 0 && (nocodeWanted || Near(r, t)) ==> IsList(code, r, if nocodeWanted then l else [r] + l)
      ensures ok && !nocodeWanted ==> GoesTo(code[r / 4], r, t) == Near(r, t) && code[r / 4] / OFFSETS == 0xEA
    {
      if nocodeWanted {
        return true, t;
      }
      r := 4 * |code|;
      var enc := EncBranch(r, t);
      if enc.None? {
        return false, r;
      }
      JumpIs(code, t, l, enc.value);
      code := code + [WithOffset(0xE000_0000, enc.value)];
      return true, r;
    }

    /** gjmp_append: list t behind list n. */
    method GjmpAppend(n: int, t: int, ghost l: seq<int>, ghost m: seq<int>) returns (ok: bool, r: int)
      requires Valid() && IsList(code, n, l) && IsList(code, t, m) && Disjoint(l, m)
      modifies this
      ensures Valid() && |code| == |old(code)|
      ensures n == 0 ==> ok && r == t && code == old(code)
      ensures n != 0 ==> l != [] && (ok <==> EncBranch(l[|l| - 1], t).Some?)
      ensures n != 0 && ok ==> r == n && forall i :: 0 <= i < |code| && i != l[|l| - 1] / 4 ==> code[i] == old(code)[i]
      ensures n != 0 && ok ==> (IsList(code, r, l + m) <==> Near(l[|l| - 1], t))
    {
      ok, r := true, t;
      if n != 0 {
        var p, lp := n, n;
        ghost var k := 0;
        ListTail(code, n, l, 0);
        lp := p;
        p := DecBranch(code[lp / 4], lp);
        while p != 0
          invariant k < |l| && lp == l[k] && IsPos(code, lp) && p == DecBranch(code[lp / 4], lp) && IsList(code, p, l[k + 1..])
          invariant code == old(code)
          decreases |l| - k
        {
          k := k + 1;
          ListTail(code, n, l, k);
          lp := p;
          p := DecBranch(code[lp / 4], lp);
        }
        assert k == |l| - 1;
        ListTail(code, n, l, k);
        var enc := EncBranch(lp, t);
        if enc.None? {
          return false, r;
        }
        ghost var was := code;
        code := code[lp / 4 := WithOffset(code[lp / 4], enc.value)];
        Joined(was, code, n, l, t, m, lp, enc.value);
        r := n;
      }
    }

    /** gsym_addr: every branch on list t now goes to a, if it can. */
    method GsymAddr(t: int, a: int, ghost l: seq<int>) returns (ok: bool)
      requires Valid() && IsList(code, t, l)
      modifies this
      ensures Valid() && |code| == |old(code)|
      ensures ok <==> forall k :: 0 <= k < |l| ==> IsPos(old(code), l[k]) && Patched(old(code)[l[k] / 4], l[k], a).Some?
      ensures ok ==> forall k :: 0 <= k < |l| ==> code[l[k] / 4] == Patched(old(code)[l[k] / 4], l[k], a).value
      ensures ok ==> forall k :: 0 <= k < |l| ==> (GoesTo(code[l[k] / 4], l[k], a) <==> a == l[k] + 4 || Near(l[k], a))
      ensures forall i :: 0 <= i < |code| && (forall k :: 0 <= k < |l| ==> l[k] / 4 != i) ==> code[i] == old(code)[i]
    {
      hide Patched, GoesTo, IsBranch;
      ghost var was, k := code, 0;
      var x := t;
      while x != 0
        invariant k <= |l| && Done(was, code, l, a, k) && Words(code) && IsList(was, t, l) && IsList(was, x, l[k..])
        decreases |l| - k
      {
        ListTail(was, t, l, k);
        Untouched(was, code, t, l, a, k);
        var lt := x;
        var w := code[lt / 4];
        x := DecBranch(w, lt);
        var w' := PatchWord(w, lt, a);
        if w'.None? {
          return false;
        }
        PatchedGoesIff(w, lt, a);
        ghost var now := code;
        code := code[lt / 4 := w'.value];
        DoneMore(was, now, code, t, l, a, k);
        k := k + 1;
      }
      return true;
    }

    /** The body of the loop of gsym_addr. */
    method PatchWord(w: nat, lt: int, a: int) returns (r: Option<nat>)
      requires w < 256 * OFFSETS
      ensures r == Patched(w, lt, a)
      ensures r.Some? ==> r.value < 256 * OFFSETS
    {
      if a == lt + 4 {
        return Some(NOP);
      }
      var enc := EncBranch(lt, a);
      if enc.None? {
        return None;
      }
      WithOffsetIs(w, enc.value);
      return Some(WithOffset(w, enc.value));
    }
  }

  lemma Joined(code: seq<nat>, code': seq<nat>, n: int, l: seq<int>, t: int, m: seq<int>, lp: int, enc: nat)
    requires Words(code) && IsList(code, n, l) && IsList(code, t, m) && Disjoint(l, m) && l != [] && lp == l[|l| - 1] && IsPos(code, lp)
    requires EncBranch(lp, t) == Some(enc) && code' == code[lp / 4 := WithOffset(code[lp / 4], enc)]
    ensures Words(code') && (IsList(code', n, l + m) <==> Near(lp, t))
  {
    WithOffsetIs(code[lp / 4], enc);
    BranchRoundTripIff(lp, t);
    ListTail(code, n, l, |l| - 1);
    forall k | 0 <= k < |m| && IsPos(code, m[k]) ensures code'[m[k] / 4] == code[m[k] / 4] { SlotsDiffer(m[k], lp); }
    ListSame(code, code', t, m);
    if Near(lp, t) {
      forall k | 0 <= k < |l| - 1 && IsPos(code, l[k]) ensures code'[l[k] / 4] == code[l[k] / 4] {
        ListDistinct(code, n, l, k, |l| - 1);
        SlotsDiffer(l[k], lp);
      }
      ListJoin(code, code', n, l, t, m);
    }
    hide WithOffset, EncBranch, Near;
    if IsList(code', n, l + m) { LinkOf(code', n, l, t, m, lp); }
  }

  lemma LinkOf(code: seq<nat>, n: int, l: seq<int>, t: int, m: seq<int>, lp: int)
    requires IsList(code, n, l + m) && IsList(code, t, m) && l != [] && lp == l[|l| - 1]
    ensures IsPos(code, lp) && DecBranch(code[lp / 4], lp) == t
  {
    hide DecBranch, IsBranch;
    ListTail(code, n, l + m, |l| - 1);
    assert (l + m)[|l| - 1] == lp && (l + m)[|l|..] == m;
    ListHead(code, DecBranch(code[lp / 4], lp), m);
    ListHead(code, t, m);
  }

  lemma ListHead(code: seq<nat>, t: int, m: seq<int>)
    requires IsList(code, t, m)
    ensures t == if m == [] then 0 else m[0]
  {}

  /** The first k branches of the list have been patched, and nothing else. */
  ghost predicate Done(was: seq<nat>, code: seq<nat>, l: seq<int>, a: int, k: nat)
    requires k <= |l|
  {
    && |code| == |was| && Words(was)
    && (forall j :: 0 <= j < k ==> DoneAt(was, code, l[j], a))
    && (forall i :: 0 <= i < |code| && (forall j :: 0 <= j < k ==> l[j] / 4 != i) ==> code[i] == was[i])
  }

  predicate DoneAt(was: seq<nat>, code: seq<nat>, p: int, a: int)
    requires |code| == |was| && Words(was)
  {
    && IsPos(was, p) && Patched(was[p / 4], p, a) == Some(code[p / 4])
    && (GoesTo(code[p / 4], p, a) <==> a == p + 4 || Near(p, a))
  }

  lemma Untouched(was: seq<nat>, code: seq<nat>, t: int, l: seq<int>, a: int, k: nat)
    requires IsList(was, t, l) && k < |l| && Done(was, code, l, a, k)
    ensures IsPos(was, l[k]) && code[l[k] / 4] == was[l[k] / 4]
  {
    ListTail(was, t, l, k);
    forall j | 0 <= j < k ensures l[j] / 4 != l[k] / 4 {
      ListTail(was, t, l, j);
      ListDistinct(was, t, l, j, k);
      SlotsDiffer(l[j], l[k]);
    }
  }

  lemma DoneMore(was: seq<nat>, code: seq<nat>, code': seq<nat>, t: int, l: seq<int>, a: int, k: nat)
    requires IsList(was, t, l) && k < |l| && Done(was, code, l, a, k) && IsPos(was, l[k])
    requires Patched(was[l[k] / 4], l[k], a).Some? && code' == code[l[k] / 4 := Patched(was[l[k] / 4], l[k], a).value]
    requires GoesTo(code'[l[k] / 4], l[k], a) <==> a == l[k] + 4 || Near(l[k], a)
    ensures Done(was, code', l, a, k + 1)
  {
    hide Patched, GoesTo, Near;
    forall j | 0 <= j < k ensures DoneAt(was, code', l[j], a) {
      assert DoneAt(was, code, l[j], a);
      ListTail(was, t, l, j);
      ListTail(was, t, l, k);
      ListDistinct(was, t, l, j, k);
      SlotsDiffer(l[j], l[k]);
    }
  }
}
