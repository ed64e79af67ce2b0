/** Additions and subtractions of any constant (stuff_const_harder, ports/tinycc/arm-gen.c:315-369). */
module ArmHarder {
  import opened ArmConst

  // ---------- running instructions ----------

  function Exec(regs: Regs, w: W, carry: W): Regs
  {
    r => if r == Rd(w) then Value(w, regs, carry) else regs(r)
  }

  function Run(regs: Regs, ws: seq<W>, carry: W): Regs
  {
    if ws == [] then regs else Run(Exec(regs, ws[0], carry), ws[1..], carry)
  }

  /** Register rd has become x, and no other has changed. */
  ghost predicate Sets(regs: Regs, regs': Regs, rd: W, x: W)
  {
    forall r: W :: regs'(r) == if r == rd then x else regs(r)
  }

  /** add or sub, without flags. */
  predicate AddSub(op: W)
  {
    Template(op) && (op & 0x1F00000 == 0x800000 || op & 0x1F00000 == 0x400000)
  }

  predicate IsAdd(op: W)
  {
    op & 0x1F00000 == 0x800000
  }

  function PlusMinus(add: bool, x: W, y: W): W
  {
    if add then Plus(x, y) else Minus(x, y)
  }

  lemma AddSubOp(op: W)
    requires AddSub(op)
    ensures OpOf(op) == if IsAdd(op) then ADD else SUB
  {}

  lemma RdOf(r: W, op: W)
    requires r & 0xF010F000 == op & 0xF010F000
    ensures Rd(r) == Rd(op)
  {}

  lemma ExecSets(regs: Regs, w: W, op: W, c: W, carry: W)
    requires AddSub(op) && Means(w, op, c)
    ensures Sets(regs, Exec(regs, w, carry), Rd(op), PlusMinus(IsAdd(op), regs(Rn(op)), c))
  {
    RdOf(w, op);
    AddSubOp(op);
    assert Value(w, regs, carry) == Alu(OpOf(op), regs(Rn(op)), c, carry);
    hide AddSub, Template, Rd, Rn, Value, OpOf, Plus, Minus, IsAdd;
  }

  /** The sum of the constants modulo 2^32. */
  function Sum(parts: seq<W>): W
  {
    if parts == [] then 0 else Plus(parts[0], Sum(parts[1..]))
  }

  /** The instructions ws each do op2, which works on its own result, with a part. */
  ghost predicate AllMean(ws: seq<W>, op2: W, parts: seq<W>)
  {
    |ws| == |parts| && forall k :: 0 <= k < |ws| ==> Means(ws[k], op2, parts[k])
  }

  lemma {:induction false} RunSets(regs: Regs, ws: seq<W>, op2: W, parts: seq<W>, carry: W)
    requires AddSub(op2) && Rn(op2) == Rd(op2) && AllMean(ws, op2, parts)
    ensures Sets(regs, Run(regs, ws, carry), Rd(op2), PlusMinus(IsAdd(op2), regs(Rd(op2)), Sum(parts)))
    decreases |ws|
  {
    hide AddSub, Rd, Rn, Means, Template, Exec, IsAdd, PlusMinus, Plus;
    if ws != [] {
      ExecSets(regs, ws[0], op2, parts[0], carry);
      RunSets(Exec(regs, ws[0], carry), ws[1..], op2, parts[1..], carry);
      Associate(IsAdd(op2), regs(Rd(op2)), parts[0], Sum(parts[1..]));
    } else {
      NoSum(IsAdd(op2), regs(Rd(op2)));
    }
  }

  lemma Associate(add: bool, x: W, y: W, z: W)
    ensures PlusMinus(add, PlusMinus(add, x, y), z) == PlusMinus(add, x, Plus(y, z))
  {
    PlusPlus(x, y, z);
    MinusMinus(x, y, z);
    hide Plus, Minus;
  }

  lemma PlusPlus(x: W, y: W, z: W)
    ensures Plus(Plus(x, y), z) == Plus(x, Plus(y, z))
  {
    PlusPlusAt(x, y, z);
    assert Plus(x, y) == x + y;
    assert Plus(y, z) == y + z;
    hide Plus;
  }

  lemma PlusPlusAt(x: W, y: W, z: W)
    ensures Plus(x + y, z) == Plus(x, y + z)
  {}

  lemma MinusMinus(x: W, y: W, z: W)
    ensures Minus(Minus(x, y), z) == Minus(x, Plus(y, z))
  {
    MinusMinusAt(x, y, z);
    assert Minus(x, y) == x - y;
    assert Plus(y, z) == y + z;
    hide Plus, Minus;
  }

  lemma MinusMinusAt(x: W, y: W, z: W)
    ensures Minus(x - y, z) == Minus(x, y + z)
  {}

  lemma NoSum(add: bool, x: W)
    ensures PlusMinus(add, x, 0) == x
  {}

  /** op with its own destination as first operand. */
  function Onward(op: W): W
  {
    (op & 0xFFF0FFFF) | ((op & 0xF000) << 4)
  }

  lemma OnwardIs(op: W)
    requires AddSub(op)
    ensures var o := Onward(op);
            AddSub(o) && Rd(o) == Rd(op) && Rn(o) == Rd(op) && IsAdd(o) == IsAdd(op)
  {}

  lemma Flipped(op: W)
    requires AddSub(op)
    ensures var o := op ^ 0xC00000;
            AddSub(o) && Rd(o) == Rd(op) && Rn(o) == Rn(op) && Onward(o) == Onward(op) ^ 0xC00000
    ensures IsAdd(op ^ 0xC00000) == !IsAdd(op)
  {}

  lemma FlippedValue(add: bool, x: W, v: W)
    ensures PlusMinus(!add, x, Minus(0, v)) == PlusMinus(add, x, v)
  {
    MinusNeg(x, v);
    PlusNeg(x, v);
    hide Plus, Minus;
  }

  /** The emitted instructions leave rd = rn + v, or rn - v, and all other registers alone. */
  ghost predicate Adds(ws: seq<W>, op: W, v: W)
  {
    forall regs: Regs, carry: W :: Sets(regs, Run(regs, ws, carry), Rd(op), PlusMinus(IsAdd(op), regs(Rn(op)), v))
  }

  /** First op with one part, then Onward(op) with the others. */
  lemma PartsAdd(w: W, ws: seq<W>, op: W, c: W, parts: seq<W>, v: W)
    requires AddSub(op) && Means(w, op, c) && AllMean(ws, Onward(op), parts) && Plus(c, Sum(parts)) == v
    ensures Adds([w] + ws, op, v)
  {
    hide *;
    forall regs: Regs, carry: W ensures Sets(regs, Run(regs, [w] + ws, carry), Rd(op), PlusMinus(IsAdd(op), regs(Rn(op)), v)) {
      PartsSet(w, ws, op, c, parts, v, regs, carry);
    }
    AddsOf([w] + ws, op, v);
  }

  lemma AddsOf(ws: seq<W>, op: W, v: W)
    requires forall regs: Regs, carry: W :: Sets(regs, Run(regs, ws, carry), Rd(op), PlusMinus(IsAdd(op), regs(Rn(op)), v))
    ensures Adds(ws, op, v)
  {
    hide Sets, Run, Rd, PlusMinus, IsAdd, Rn;
  }

  lemma PartsSet(w: W, ws: seq<W>, op: W, c: W, parts: seq<W>, v: W, regs: Regs, carry: W)
    requires AddSub(op) && Means(w, op, c) && AllMean(ws, Onward(op), parts) && Plus(c, Sum(parts)) == v
    ensures Sets(regs, Run(regs, [w] + ws, carry), Rd(op), PlusMinus(IsAdd(op), regs(Rn(op)), v))
  {
    hide AddSub, Rd, Rn, Template, Onward, Means, Exec, Sum, IsAdd, PlusMinus, Plus;
    OnwardIs(op);
    ExecSets(regs, w, op, c, carry);
    RunSets(Exec(regs, w, carry), ws, Onward(op), parts, carry);
    assert ([w] + ws)[1..] == ws;
    Associate(IsAdd(op), regs(Rn(op)), c, Sum(parts));
  }

  lemma FlippedAdds(ws: seq<W>, op: W, v: W)
    requires AddSub(op) && Adds(ws, op ^ 0xC00000, Minus(0, v))
    ensures Adds(ws, op, v)
  {
    Flipped(op);
    hide Rd, Rn, Template, AddSub, Run, IsAdd, PlusMinus, Minus;
    forall regs: Regs, carry: W ensures Sets(regs, Run(regs, ws, carry), Rd(op), PlusMinus(IsAdd(op), regs(Rn(op)), v)) {
      FlippedValue(IsAdd(op), regs(Rn(op)), v);
    }
  }

  // ---------- the windows ----------

  /** a[i]: a byte rotated right by 2i. */
  function Window(i: nat): W
  {
    if i == 0 then 0xFF else (Window(i - 1) >> 2) | (Window(i - 1) << 30)
  }

  lemma WindowTable()
    ensures Window(0) == 0xFF && Window(1) == 0xC000003F && Window(2) == 0xF000000F && Window(3) == 0xFC000003
    ensures Window(4) == 0xFF000000 && Window(5) == 0x3FC00000 && Window(6) == 0x0FF00000 && Window(7) == 0x03FC0000
    ensures Window(8) == 0x00FF0000 && Window(9) == 0x003FC000 && Window(10) == 0x000FF000 && Window(11) == 0x0003FC00
    ensures Window(12) == 0x0000FF00 && Window(13) == 0x00003FC0 && Window(14) == 0x00000FF0 && Window(15) == 0x000003FC
  {
    assert Window(4) == (Window(3) >> 2) | (Window(3) << 30);
    assert Window(8) == (Window(7) >> 2) | (Window(7) << 30) && Window(6) == (Window(5) >> 2) | (Window(5) << 30);
    assert Window(12) == (Window(11) >> 2) | (Window(11) << 30) && Window(10) == (Window(9) >> 2) | (Window(9) << 30);
    assert Window(15) == (Window(14) >> 2) | (Window(14) << 30) && Window(13) == (Window(12) >> 2) | (Window(12) << 30);
  }

  /** 2i as a word. */
  function Twice(i: nat): W
    requires i < 16
  {
    if i == 0 then 0 else if i == 1 then 2 else if i == 2 then 4 else if i == 3 then 6 else if i == 4 then 8
    else if i == 5 then 10 else if i == 6 then 12 else if i == 7 then 14 else if i == 8 then 16 else if i == 9 then 18
    else if i == 10 then 20 else if i == 11 then 22 else if i == 12 then 24 else if i == 13 then 26 else if i == 14 then 28 else 30
  }

  lemma MaskTable()
    ensures Mask(0) == 0xFF && Mask(2) == 0xC000003F && Mask(4) == 0xF000000F && Mask(6) == 0xFC000003
    ensures Mask(8) == 0xFF000000 && Mask(10) == 0x3FC00000 && Mask(12) == 0x0FF00000 && Mask(14) == 0x03FC0000
    ensures Mask(16) == 0x00FF0000 && Mask(18) == 0x003FC000 && Mask(20) == 0x000FF000 && Mask(22) == 0x0003FC00
    ensures Mask(24) == 0x0000FF00 && Mask(26) == 0x00003FC0 && Mask(28) == 0x00000FF0 && Mask(30) == 0x000003FC
  {}

  lemma WindowMask(i: nat)
    requires i < 16
    ensures Even(Twice(i)) && Mask(Twice(i)) == Window(i)
  {
    WindowTable();
    MaskTable();
    hide Window, Mask;
  }

  /** What is within a window fits. */
  lemma WindowFits(v: W, i: nat)
    requires i < 16
    ensures Fits(And(v, Window(i)))
  {
    WindowMask(i);
    PartFits(v, Twice(i));
    hide Window, Mask, Twice, Even, And, FitsAt;
    assert FitsAt(And(v, Window(i)), Twice(i));
  }

  lemma PartFits(v: W, k: W)
    requires Even(k)
    ensures k < 32 && FitsAt(And(v, Mask(k)), k)
  {
    assert k < 32;
    Within(v, Mask(k));
    hide Mask, Ror, Even, And;
  }

  lemma Within(v: W, m: W)
    ensures And(v, m) & !m == 0
  {}

  /** Windows at least four apart, around the circle, have no bit in common. */
  lemma {:induction false} WindowsApart(i: nat, j: nat)
    requires i < 16 && j < 16 && 4 <= j - i <= 12
    ensures And(Window(i), Window(j)) == 0
  {
    if i == 0 {
      FirstApart(j);
    } else {
      hide And;
      WindowsApart(i - 1, j - 1);
      RotatedApart(Window(i - 1), Window(j - 1));
    }
  }

  lemma FirstApart(j: nat)
    requires 4 <= j <= 12
    ensures And(Window(0), Window(j)) == 0
  {
    WindowTable();
    hide Window;
  }

  lemma RotatedApart(x: W, y: W)
    requires And(x, y) == 0
    ensures And((x >> 2) | (x << 30), (y >> 2) | (y << 30)) == 0
  {}

  /** A constant within two windows is the sum of its parts. */
  lemma TwoParts(v: W, i: nat, j: nat)
    requires i < 16 && j < 16 && 4 <= j - i <= 12 && And(v, Or(Window(i), Window(j))) == v
    ensures Plus(And(v, Window(i)), Sum([And(v, Window(j))])) == v
  {
    hide Window, Plus, Sum, And, Or;
    WindowsApart(i, j);
    SumOne(And(v, Window(j)));
    AddParts(v, Window(i), Window(j));
  }

  lemma SumOne(x: W)
    ensures Sum([x]) == x
  {
    PlusZero(x);
    assert [x][1..] == [];
    hide Plus;
  }

  lemma PlusZero(x: W)
    ensures Plus(x, 0) == x
  {}

  lemma AddParts(v: W, m: W, n: W)
    requires And(m, n) == 0
    ensures Plus(And(v, m), And(v, n)) == And(v, Or(m, n))
  {
    AddPartsAt(v, m, n);
    assert And(v, m) == v & m;
    assert And(v, n) == v & n;
    assert Or(m, n) == m | n;
    hide And, Or, Plus;
  }

  lemma AddPartsAt(v: W, m: W, n: W)
    requires And(m, n) == 0
    ensures Plus(v & m, v & n) == And(v, m | n)
  {}

  lemma ThreeParts(v: W, i: nat, j: nat, k: nat)
    requires i < 16 && j < 16 && k < 16 && 4 <= j - i <= 12 && 4 <= k - j <= 12 && 4 <= k - i <= 12
    requires And(v, Or(Or(Window(i), Window(j)), Window(k))) == v
    ensures Plus(And(v, Window(i)), Sum([And(v, Window(j)), And(v, Window(k))])) == v
  {
    hide Window, Plus, Sum, And, Or;
    WindowsApart(i, j);
    WindowsApart(j, k);
    WindowsApart(i, k);
    SumTwo(And(v, Window(j)), And(v, Window(k)));
    AddParts(v, Window(j), Window(k));
    Apart(Window(i), Window(j), Window(k));
    AddParts(v, Window(i), Or(Window(j), Window(k)));
    OrOr(Window(i), Window(j), Window(k));
  }

  lemma SumTwo(x: W, y: W)
    ensures Sum([x, y]) == Plus(x, y)
  {
    SumOne(y);
    assert [x, y][1..] == [y];
    hide Plus;
  }

  lemma Apart(m: W, n: W, p: W)
    requires And(m, n) == 0 && And(m, p) == 0
    ensures And(m, Or(n, p)) == 0
  {}

  lemma OrOr(m: W, n: W, p: W)
    ensures Or(m, Or(n, p)) == Or(Or(m, n), p)
  {}

  /** Any constant is the sum of its four bytes. */
  lemma FourParts(v: W)
    ensures Plus(And(v, Window(0)), Sum([And(v, Window(4)), And(v, Window(8)), And(v, Window(12))])) == v
  {
    hide Window, Plus, And, Or;
    var x, y, z := And(v, Window(4)), And(v, Window(8)), And(v, Window(12));
    assert [x, y, z][1..] == [y, z];
    SumTwo(y, z);
    WindowsApart(8, 12);
    WindowsApart(4, 8);
    WindowsApart(4, 12);
    WindowsApart(0, 4);
    WindowsApart(0, 8);
    WindowsApart(0, 12);
    AddParts(v, Window(8), Window(12));
    Apart(Window(4), Window(8), Window(12));
    AddParts(v, Window(4), Or(Window(8), Window(12)));
    Apart(Window(0), Window(8), Window(12));
    Apart(Window(0), Window(4), Or(Window(8), Window(12)));
    AddParts(v, Window(0), Or(Window(4), Or(Window(8), Window(12))));
    AllCovered(v);
  }

  lemma AllCovered(v: W)
    ensures And(v, Or(Window(0), Or(Window(4), Or(Window(8), Window(12))))) == v
  {
    WindowTable();
    hide Window;
    assert Or(Window(0), Or(Window(4), Or(Window(8), Window(12)))) == 0xFFFF_FFFF;
    AllBits(v);
    hide Or, And;
  }

  lemma OneAdds(w: W, op: W, v: W)
    requires AddSub(op) && Means(w, op, v)
    ensures Adds([w], op, v)
  {
    PlusZero(v);
    hide AddSub, Means, Adds, Plus;
    PartsAdd(w, [], op, v, [], v);
    assert [w] + [] == [w];
  }

  lemma TemplateOf(op: W)
    requires AddSub(op)
    ensures Template(op)
  {}

  predicate IsWindows(a: seq<W>)
  {
    |a| == 16 && forall i :: 0 <= i < 16 ==> a[i] == Window(i)
  }

  class CodeGen {
    /** The code that was emitted, a word at a time. */
    var code: seq<W>

    /** o() */
    method O(w: W)
      modifies this
      ensures code == old(code) + [w]
    {
      code := code + [w];
    }

    /** One instruction of a window of v. */
    method Part(op: W, v: W, ghost i: nat, m: W) returns (w: W)
      requires AddSub(op) && i < 16 && m == Window(i)
      modifies this
      ensures code == old(code) + [w] && Means(w, op, And(v, m))
    {
      TemplateOf(op);
      WindowFits(v, i);
      hide AddSub, Template, Fits, And, Means, AllOnes, HasNegation, NegConst;
      w := StuffConst(op, And(v, m));
      O(w);
    }

    method Two(op: W, o2: W, v: W, m: W, n: W, ghost i: nat, ghost j: nat) returns (ghost ws: seq<W>)
      requires AddSub(op) && o2 == Onward(op) && i < 16 && j < 16 && 4 <= j - i <= 12 && m == Window(i) && n == Window(j)
      requires And(v, Or(m, n)) == v
      modifies this
      ensures |ws| == 2 && code == old(code) + ws && Adds(ws, op, v)
    {
      hide *;
      OnwardOk(op);
      var x := Part(op, v, i, m);
      var y := Part(o2, v, j, n);
      TwoParts(v, i, j);
      OneMeans(y, o2, And(v, n));
      PartsAdd(x, [y], op, And(v, m), [And(v, n)], v);
      ws := [x] + [y];
    }

    method Three(op: W, o2: W, v: W, m: W, n: W, p: W, ghost i: nat, ghost j: nat, ghost k: nat) returns (ghost ws: seq<W>)
      requires AddSub(op) && o2 == Onward(op) && m == Window(i) && n == Window(j) && p == Window(k)
      requires i < 16 && j < 16 && k < 16 && 4 <= j - i <= 12 && 4 <= k - j <= 12 && 4 <= k - i <= 12
      requires And(v, Or(Or(m, n), p)) == v
      modifies this
      ensures |ws| == 3 && code == old(code) + ws && Adds(ws, op, v)
    {
      hide *;
      OnwardOk(op);
      var x := Part(op, v, i, m);
      var y := Part(o2, v, j, n);
      var z := Part(o2, v, k, p);
      ThreeParts(v, i, j, k);
      TwoMean(y, z, o2, And(v, n), And(v, p));
      PartsAdd(x, [y, z], op, And(v, m), [And(v, n), And(v, p)], v);
      ws := [x] + [y, z];
    }

    /** The loops that look for two windows. */
    method TryTwo(op: W, o2: W, v: W, a: seq<W>) returns (done: bool, ghost ws: seq<W>)
      requires AddSub(op) && o2 == Onward(op) && IsWindows(a)
      modifies this
      ensures done ==> 1 <= |ws| <= 4 && code == old(code) + ws && Adds(ws, op, v)
      ensures !done ==> code == old(code)
    {
      hide AddSub, Onward, Window, And, Or, Adds;
      ws := [];
      var i := 0;
      while i < 12
        invariant i <= 12 && code == old(code)
      {
        var j := if i < 4 then i + 12 else 15;
        while j >= i + 4
          invariant i + 3 <= j <= 15 && j <= i + 12 && code == old(code)
          decreases j
        {
          if And(v, Or(a[i], a[j])) == v {
            ws := Two(op, o2, v, a[i], a[j], i, j);
            return true, ws;
          }
          j := j - 1;
        }
        i := i + 1;
      }
      return false, ws;
    }

    /** The loops that look for three. */
    method TryThree(op: W, o2: W, v: W, a: seq<W>) returns (done: bool, ghost ws: seq<W>)
      requires AddSub(op) && o2 == Onward(op) && IsWindows(a)
      modifies this
      ensures done ==> 1 <= |ws| <= 4 && code == old(code) + ws && Adds(ws, op, v)
      ensures !done ==> code == old(code)
    {
      hide AddSub, Onward, Window, And, Or, Adds;
      ws := [];
      var i := 0;
      while i < 8
        invariant i <= 8 && code == old(code)
      {
        var j := i + 4;
        while j < 12
          invariant i + 4 <= j <= 12 && code == old(code)
        {
          var k := if i < 4 then i + 12 else 15;
          while k >= j + 4
            invariant k <= 15 && k <= i + 12 && code == old(code)
            decreases k
          {
            if And(v, Or(Or(a[i], a[j]), a[k])) == v {
              ws := Three(op, o2, v, a[i], a[j], a[k], i, j, k);
              return true, ws;
            }
            k := k - 1;
          }
          j := j + 1;
        }
        i := i + 1;
      }
      return false, ws;
    }

    /** stuff_const_harder: one to four instructions that together do op with the constant v. */
    method StuffConstHarder(op: W, v: W) returns (ghost ws: seq<W>)
      requires AddSub(op)
      modifies this
      ensures 1 <= |ws| <= 4 && code == old(code) + ws && Adds(ws, op, v)
    {
      TemplateOf(op);
      Flipped(op);
      hide AddSub, Template, Means, Adds, And, Or, Minus, AllOnes, HasNegation, NegConst, Fits, Window;
      var x := StuffConst(op, v);
      if x != 0 {
        OneAdds(x, op, v);
        O(x);
        return [x];
      }
      var a := Windows();
      var o2 := Onward(op);
      var done;
      done, ws := TryTwo(op, o2, v, a);
      if done {
        return ws;
      }
      var no, n2, nv := op ^ 0xC00000, o2 ^ 0xC00000, Minus(0, v);
      done, ws := TryTwo(no, n2, nv, a);
      if done {
        FlippedAdds(ws, op, v);
        return ws;
      }
      done, ws := TryThree(op, o2, v, a);
      if done {
        return ws;
      }
      done, ws := TryThree(no, n2, nv, a);
      if done {
        FlippedAdds(ws, op, v);
        return ws;
      }
      ws := Four(op, o2, v, a);
    }

    method Windows() returns (a: seq<W>)
      ensures IsWindows(a)
    {
      a := [0xFF];
      var i := 1;
      while i < 16
        invariant i == |a| <= 16 && i >= 1 && forall k :: 0 <= k < i ==> a[k] == Window(k)
      {
        a := a + [(a[i - 1] >> 2) | (a[i - 1] << 30)];
        i := i + 1;
      }
    }

    method Four(op: W, o2: W, v: W, a: seq<W>) returns (ghost ws: seq<W>)
      requires AddSub(op) && o2 == Onward(op) && IsWindows(a)
      modifies this
      ensures |ws| == 4 && code == old(code) + ws && Adds(ws, op, v)
    {
      hide *;
      WindowsOf(a);
      OnwardOk(op);
      var x := Part(op, v, 0, a[0]);
      var y := Part(o2, v, 4, a[4]);
      var z := Part(o2, v, 8, a[8]);
      var w := Part(o2, v, 12, a[12]);
      FourParts(v);
      ThreeMean(y, z, w, o2, And(v, a[4]), And(v, a[8]), And(v, a[12]));
      PartsAdd(x, [y, z, w], op, And(v, a[0]), [And(v, a[4]), And(v, a[8]), And(v, a[12])], v);
      ws := [x] + [y, z, w];
    }
  }

  lemma WindowsOf(a: seq<W>)
    requires IsWindows(a)
    ensures |a| == 16 && a[0] == Window(0) && a[4] == Window(4) && a[8] == Window(8) && a[12] == Window(12)
  {
    hide Window;
  }

  lemma OnwardOk(op: W)
    requires AddSub(op)
    ensures AddSub(Onward(op))
  {
    OnwardIs(op);
  }

  lemma OneMeans(y: W, o2: W, c: W)
    requires Means(y, o2, c)
    ensures AllMean([y], o2, [c])
  {
    hide Means;
  }

  lemma TwoMean(y: W, z: W, o2: W, c: W, d: W)
    requires Means(y, o2, c) && Means(z, o2, d)
    ensures AllMean([y, z], o2, [c, d])
  {
    hide Means;
  }

  lemma ThreeMean(y: W, z: W, w: W, o2: W, c: W, d: W, e: W)
    requires Means(y, o2, c) && Means(z, o2, d) && Means(w, o2, e)
    ensures AllMean([y, z, w], o2, [c, d, e])
  {
    hide Means;
  }
}
