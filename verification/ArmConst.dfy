/** Constant operands of ARM data processing instructions (ports/tinycc/arm-gen.c:261-369; section
    A5.2.4 of the ARMv7-A/R Architecture Reference Manual, DDI 0406C). */
module ArmConst {

  type W = bv32

  // ---------- what an instruction computes ----------

  type Regs = W -> W

  function Opcode(w: W): W { (w >> 21) & 0xF }
  function Rn(w: W): W { (w >> 16) & 0xF }
  function Rd(w: W): W { (w >> 12) & 0xF }

  function Ror(x: W, i: W): W
    requires i < 32
  {
    (x >> i) | (x << (32 - i))
  }

  function Rol(x: W, i: W): W
    requires i < 32
  {
    (x << i) | (x >> (32 - i))
  }

  /** How far the byte of an immediate operand is rotated. */
  function Rotation(w: W): (i: W)
    ensures i < 32
  {
    ((w >> 8) & 0xF) << 1
  }

  /** The second operand: a rotated byte, or a register without a shift. */
  function Operand(w: W, regs: Regs): W
  {
    if w & 0x2000000 != 0 then Ror(w & 0xFF, Rotation(w)) else regs(w & 0xF)
  }

  // Arithmetic modulo 2^32, and bit by bit.

  function Plus(x: W, y: W): W { x + y }
  function Minus(x: W, y: W): W { x - y }
  function And(x: W, y: W): W { x & y }
  function Or(x: W, y: W): W { x | y }
  function Xor(x: W, y: W): W { x ^ y }
  function Not(x: W): W { !x }

  datatype AluOp = AND | EOR | SUB | RSB | ADD | ADC | SBC | RSC | TST | TEQ | CMP | CMN | ORR | MOV | BIC | MVN

  function OpOf(w: W): AluOp
  {
    var o := Opcode(w);
    if o == 0 then AND else if o == 1 then EOR else if o == 2 then SUB else if o == 3 then RSB
    else if o == 4 then ADD else if o == 5 then ADC else if o == 6 then SBC else if o == 7 then RSC
    else if o == 8 then TST else if o == 9 then TEQ else if o == 10 then CMP else if o == 11 then CMN
    else if o == 12 then ORR else if o == 13 then MOV else if o == 14 then BIC else MVN
  }

  /** The sixteen data processing operations; c is the carry flag. */
  function Alu(o: AluOp, x: W, y: W, c: W): W
  {
    match o
    case AND => And(x, y)
    case TST => And(x, y)
    case EOR => Xor(x, y)
    case TEQ => Xor(x, y)
    case SUB => Minus(x, y)
    case CMP => Minus(x, y)
    case RSB => Minus(y, x)
    case ADD => Plus(x, y)
    case CMN => Plus(x, y)
    case ADC => Plus(Plus(x, y), c)
    case SBC => Plus(Minus(Minus(x, y), 1), c)
    case RSC => Plus(Minus(Minus(y, x), 1), c)
    case ORR => Or(x, y)
    case MOV => y
    case BIC => And(x, Not(y))
    case MVN => Not(y)
  }

  function Value(w: W, regs: Regs, c: W): W
  {
    Alu(OpOf(w), regs(Rn(w)), Operand(w, regs), c)
  }

  /** Instruction r does what op does with the constant c: under the same condition, with the flags
      set or not alike, in the same register, to the same value. */
  ghost predicate Means(r: W, op: W, c: W)
  {
    && r & 0xF010F000 == op & 0xF010F000 && r & 0x0C000000 == 0
    && forall regs: Regs, carry: W :: Value(r, regs, carry) == Alu(OpOf(op), regs(Rn(op)), c, carry)
  }

  /** A data processing instruction that is still to get its constant. */
  predicate Template(op: W)
  {
    op & 0x0E000000 == 0x02000000 && op & 0xFFF == 0
  }

  // ---------- constants that fit ----------

  predicate Even(i: W) { i < 32 && i & 1 == 0 }

  /** A byte rotated right by i. */
  function Mask(i: W): W
    requires i < 32
  {
    Ror(0xFF, i)
  }

  predicate FitsAt(c: W, i: W)
  {
    Even(i) && c & !Mask(i) == 0
  }

  ghost predicate Fits(c: W) { exists i: W :: FitsAt(c, i) }

  lemma RorOfRol(x: W, i: W)
    requires i < 32
    ensures Ror(Rol(x, i), i) == x
  {}

  lemma RolInByte(c: W, i: W)
    requires FitsAt(c, i)
    ensures Rol(c, i) & !0xFF == 0
  {}

  // ---------- the instruction with its constant ----------

  function Encoded(op: W, c: W, i: W): W
    requires i < 32
  {
    op | (i << 7) | (c << i) | (c >> (32 - i))
  }

  function Put(op: W, i: W, b: W): W
  {
    op | (i << 7) | b
  }

  lemma EncodedIs(op: W, c: W, i: W)
    requires i < 32
    ensures Encoded(op, c, i) == Put(op, i, Rol(c, i))
  {
    Regroup(op, i << 7, c << i, c >> (32 - i));
  }

  lemma Regroup(a: W, b: W, c: W, d: W)
    ensures a | b | c | d == a | b | (c | d)
  {}

  lemma Fields(op: W, i: W, b: W)
    requires Template(op) && Even(i) && b & !0xFF == 0
    ensures PutOk(Put(op, i, b), op, i, b)
  {
    FieldBits(op, i, b);
  }

  lemma FieldBits(op: W, i: W, b: W)
    requires op & 0x0E000000 == 0x02000000 && op & 0xFFF == 0 && i < 32 && i & 1 == 0 && b & !0xFF == 0
    ensures var r := op | (i << 7) | b;
            && r & 0xFF == b && ((r >> 8) & 0xF) << 1 == i && r & 0x2000000 != 0 && r & 0xF010F000 == op & 0xF010F000
            && r & 0x0C000000 == 0 && (r >> 21) & 0xF == (op >> 21) & 0xF && (r >> 16) & 0xF == (op >> 16) & 0xF && r != 0
  {}

  predicate PutOk(r: W, op: W, i: W, b: W)
  {
    && r & 0xFF == b && Rotation(r) == i && r & 0x2000000 != 0 && r & 0xF010F000 == op & 0xF010F000
    && r & 0x0C000000 == 0 && Opcode(r) == Opcode(op) && Rn(r) == Rn(op) && r != 0
  }

  /** The instruction whose immediate field is the constant rotated left means what it should. */
  lemma EncodedMeans(op: W, c: W, i: W)
    requires Template(op) && FitsAt(c, i) && i < 32
    ensures Means(Encoded(op, c, i), op, c) && Encoded(op, c, i) != 0
  {
    EvenOf(c, i);
    RolInByte(c, i);
    hide Encoded, Put, Rol, Ror, Rotation, Opcode, Rn, Means, Operand, Template, FitsAt, Even;
    RorOfRol(c, i);
    Fields(op, i, Rol(c, i));
    EncodedIs(op, c, i);
    OperandIs(Encoded(op, c, i), c, i);
    MeansOf(Encoded(op, c, i), op, c);
  }

  lemma EvenOf(c: W, i: W)
    requires FitsAt(c, i)
    ensures Even(i)
  {}

  lemma OperandIs(r: W, c: W, i: W)
    requires i < 32 && r & 0x2000000 != 0 && r & 0xFF == Rol(c, i) && Rotation(r) == i && Ror(Rol(c, i), i) == c
    ensures forall regs: Regs :: Operand(r, regs) == c
  {
    hide Rol, Ror, Rotation;
  }

  lemma MeansOf(r: W, op: W, c: W)
    requires (forall regs: Regs :: Operand(r, regs) == c) && Opcode(r) == Opcode(op) && Rn(r) == Rn(op)
    requires r & 0xF010F000 == op & 0xF010F000 && r & 0x0C000000 == 0
    ensures Means(r, op, c)
  {
    hide Operand, Alu, Opcode, Rn;
    assert OpOf(r) == OpOf(op);
    hide OpOf;
  }

  // ---------- stuff_const ----------

  /** An operation that has an opposite, and the opposite constant. */
  function Negated(op: W): W
  {
    var o := op & 0x1F00000;
    if o == 0x800000 || o == 0x400000 then op ^ 0xC00000
    else if o == 0x1A00000 || o == 0x1E00000 then op ^ 0x400000
    else if o == 0x0 || o == 0x1C00000 then op ^ 0x1C00000
    else 0
  }

  function NegConst(op: W, c: W): W
  {
    var o := op & 0x1F00000;
    if o == 0x800000 || o == 0x400000 then Minus(0, c)
    else if o == 0x1A00000 || o == 0x1E00000 || o == 0x0 || o == 0x1C00000 then Not(c)
    else 0
  }

  predicate HasNegation(op: W)
  {
    var o := op & 0x1F00000;
    o == 0x800000 || o == 0x400000 || o == 0x1A00000 || o == 0x1E00000 || o == 0x0 || o == 0x1C00000
  }

  /** All ones in an exclusive or, an and, an or. */
  predicate AllOnes(op: W, c: W)
  {
    var o := op & 0x1F00000;
    c == 0xFFFF_FFFF && (o == 0x200000 || o == 0x0 || o == 0x1800000)
  }

  lemma NegatedTemplate(op: W)
    requires Template(op) && HasNegation(op)
    ensures Template(Negated(op)) && Negated(op) & 0xF010F000 == op & 0xF010F000 && Rn(Negated(op)) == Rn(op)
  {}

  /** An operation, its opposite, and how the constant changes. */
  datatype Opposite = Opposite(o: AluOp, n: AluOp, arith: bool)

  function OppositeOf(op: W): Opposite
  {
    var o := op & 0x1F00000;
    if o == 0x800000 then Opposite(ADD, SUB, true) else if o == 0x400000 then Opposite(SUB, ADD, true)
    else if o == 0x1A00000 then Opposite(MOV, MVN, false) else if o == 0x1E00000 then Opposite(MVN, MOV, false)
    else if o == 0x0 then Opposite(AND, BIC, false) else Opposite(BIC, AND, false)
  }

  lemma NegatedOps(op: W, c: W)
    requires HasNegation(op)
    ensures var q := OppositeOf(op);
            OpOf(op) == q.o && OpOf(Negated(op)) == q.n && NegConst(op, c) == if q.arith then Minus(0, c) else Not(c)
  {
    hide Minus, Not;
  }

  lemma NegatedAlu(op: W, x: W, c: W, carry: W)
    requires HasNegation(op)
    ensures Alu(OpOf(Negated(op)), x, NegConst(op, c), carry) == Alu(OpOf(op), x, c, carry)
  {
    NegatedOps(op, c);
    hide OpOf, Negated, NegConst, HasNegation, Plus, Minus, And, Not;
    var q := OppositeOf(op);
    assert (q.o, q.n, q.arith) in {(ADD, SUB, true), (SUB, ADD, true), (MOV, MVN, false), (MVN, MOV, false), (AND, BIC, false), (BIC, AND, false)};
    hide OppositeOf;
    MinusNeg(x, c);
    PlusNeg(x, c);
    NotNot(c);
  }

  lemma MinusNeg(x: W, c: W)
    ensures Minus(x, Minus(0, c)) == Plus(x, c)
  {
    MinusNegAt(x, c);
    assert Minus(0, c) == 0 - c;
    hide Minus, Plus;
  }

  lemma MinusNegAt(x: W, c: W)
    ensures Minus(x, 0 - c) == Plus(x, c)
  {}

  lemma PlusNeg(x: W, c: W)
    ensures Plus(x, Minus(0, c)) == Minus(x, c)
  {
    PlusNegAt(x, c);
    assert Minus(0, c) == 0 - c;
    hide Minus, Plus;
  }

  lemma PlusNegAt(x: W, c: W)
    ensures Plus(x, 0 - c) == Minus(x, c)
  {}

  lemma NotNot(c: W)
    ensures Not(Not(c)) == c
  {
    NotNotAt(c);
    assert Not(c) == !c;
    hide Not;
  }

  lemma NotNotAt(c: W)
    ensures Not(!c) == c
  {}

  /** What the opposite operation does with the opposite constant is the same. */
  lemma NegatedMeans(r: W, op: W, c: W)
    requires Template(op) && HasNegation(op) && Means(r, Negated(op), NegConst(op, c))
    ensures Means(r, op, c)
  {
    NegatedTemplate(op);
    hide Template, HasNegation, Negated, NegConst, Alu, OpOf, Rn, Value;
    forall regs: Regs, carry: W ensures Value(r, regs, carry) == Alu(OpOf(op), regs(Rn(op)), c, carry) {
      NegatedAlu(op, regs(Rn(op)), c, carry);
    }
  }

  function OnesWord(op: W): W
  {
    var o := op & 0x1F00000;
    if o == 0x200000 then (op & 0xF010F000) | ((op >> 16) & 0xF) | 0x1E00000
    else if o == 0x0 then (op & 0xF010F000) | ((op >> 16) & 0xF) | 0x1A00000
    else (op & 0xFFF0FFFF) | 0x1E00000
  }

  lemma OnesMean(op: W)
    requires Template(op) && AllOnes(op, 0xFFFF_FFFF)
    ensures Means(OnesWord(op), op, 0xFFFF_FFFF) && OnesWord(op) != 0
  {
    OnesFields(op);
    forall regs: Regs, carry: W
      ensures Value(OnesWord(op), regs, carry) == Alu(OpOf(op), regs(Rn(op)), 0xFFFF_FFFF, carry)
    {
      OnesValue(op, regs, carry);
    }
  }

  lemma OnesFields(op: W)
    requires Template(op) && AllOnes(op, 0xFFFF_FFFF)
    ensures var r := OnesWord(op); r & 0xF010F000 == op & 0xF010F000 && r & 0x0C000000 == 0 && r != 0
  {}

  lemma OnesValue(op: W, regs: Regs, carry: W)
    requires Template(op) && AllOnes(op, 0xFFFF_FFFF)
    ensures Value(OnesWord(op), regs, carry) == Alu(OpOf(op), regs(Rn(op)), 0xFFFF_FFFF, carry)
  {
    var o := op & 0x1F00000;
    if o == 0x1800000 { OrrValue(op, regs, carry); } else if o == 0x200000 { EorValue(op, regs, carry); } else { AndValue(op, regs, carry); }
  }

  lemma OrrValue(op: W, regs: Regs, carry: W)
    requires Template(op) && op & 0x1F00000 == 0x1800000
    ensures Value(OnesWord(op), regs, carry) == Alu(OpOf(op), regs(Rn(op)), 0xFFFF_FFFF, carry)
  {
    OrrOnes(op);
    RorZero();
    hide OpOf, Rn, Template, OnesWord, Rotation, Ror, Or, Not;
    AllBits(regs(Rn(op)));
  }

  lemma EorValue(op: W, regs: Regs, carry: W)
    requires Template(op) && op & 0x1F00000 == 0x200000
    ensures Value(OnesWord(op), regs, carry) == Alu(OpOf(op), regs(Rn(op)), 0xFFFF_FFFF, carry)
  {
    EorOnes(op);
    hide OpOf, Rn, Template, OnesWord, Rotation, Ror, Xor, Not;
    AllBits(regs(Rn(op)));
  }

  lemma AndValue(op: W, regs: Regs, carry: W)
    requires Template(op) && op & 0x1F00000 == 0
    ensures Value(OnesWord(op), regs, carry) == Alu(OpOf(op), regs(Rn(op)), 0xFFFF_FFFF, carry)
  {
    AndOnes(op);
    hide OpOf, Rn, Template, OnesWord, Rotation, Ror, And;
    AllBits(regs(Rn(op)));
  }

  lemma RorZero()
    ensures Ror(0, 0) == 0
  {}

  lemma AllBits(x: W)
    ensures Or(x, 0xFFFF_FFFF) == Not(0) && Xor(x, 0xFFFF_FFFF) == Not(x) && And(x, 0xFFFF_FFFF) == x
  {}

  lemma OrrOnes(op: W)
    requires Template(op) && op & 0x1F00000 == 0x1800000
    ensures var r := OnesWord(op); OpOf(op) == ORR && OpOf(r) == MVN && r & 0x2000000 != 0 && r & 0xFF == 0 && Rotation(r) == 0
  {}

  lemma EorOnes(op: W)
    requires Template(op) && op & 0x1F00000 == 0x200000
    ensures var r := OnesWord(op); OpOf(op) == EOR && OpOf(r) == MVN && r & 0x2000000 == 0 && r & 0xF == Rn(op)
  {}

  lemma AndOnes(op: W)
    requires Template(op) && op & 0x1F00000 == 0
    ensures var r := OnesWord(op); OpOf(op) == AND && OpOf(r) == MOV && r & 0x2000000 == 0 && r & 0xF == Rn(op)
  {}

  /** The loop of stuff_const over the rotations: the instruction with the constant c, 0 if no
      rotation fits. */
  method TryRotations(op: W, c: W) returns (r: W)
    requires Template(op)
    ensures r != 0 <==> Fits(c)
    ensures r != 0 ==> Means(r, op, c)
  {
    hide Means, Fits, Mask, Encoded;
    if c < 256 {
      SmallFits(op, c);
      return op | c;
    }
    var i: W := 2;
    NotSmall(c);
    while i < 32
      invariant 2 <= i <= 32 && i & 1 == 0
      invariant forall k: W :: k < i ==> !FitsAt(c, k)
      decreases 32 - i
    {
      var m := (0xFF >> i) | (0xFF << (32 - i));
      if c & !m == 0 {
        MaskIs(c, i);
        EncodedMeans(op, c, i);
        FitsOf(c, i);
        EncodedRaw(op, c, i);
        return op | (i << 7) | (c << i) | (c >> (32 - i));
      }
      NotAt(c, i);
      i := i + 2;
    }
    NotFits(c);
    return 0;
  }

  /** stuff_const: an instruction that does what op does with the constant c; 0 if neither c nor its
      opposite fits. */
  method StuffConst(op: W, c: W) returns (r: W)
    requires Template(op)
    ensures r != 0 ==> Means(r, op, c)
    ensures r != 0 <==> AllOnes(op, c) || Fits(c) || (HasNegation(op) && Fits(NegConst(op, c)))
  {
    hide Means, Fits, Template;
    var tryNeg, negop, nc := false, 0, 0;
    var o := op & 0x1F00000;
    if o == 0x800000 || o == 0x400000 {
      tryNeg, negop, nc := true, op ^ 0xC00000, 0 - c;
    } else if o == 0x1A00000 || o == 0x1E00000 {
      tryNeg, negop, nc := true, op ^ 0x400000, !c;
    } else if o == 0x200000 {
      if c == 0xFFFF_FFFF {
        OnesMean(op);
        return (op & 0xF010F000) | ((op >> 16) & 0xF) | 0x1E00000;
      }
    } else if o == 0x0 || o == 0x1C00000 {
      if o == 0x0 && c == 0xFFFF_FFFF {
        OnesMean(op);
        return (op & 0xF010F000) | ((op >> 16) & 0xF) | 0x1A00000;
      }
      tryNeg, negop, nc := true, op ^ 0x1C00000, !c;
    } else if o == 0x1800000 {
      if c == 0xFFFF_FFFF {
        OnesMean(op);
        return (op & 0xFFF0FFFF) | 0x1E00000;
      }
    }
    r := TryRotations(op, c);
    if r == 0 && tryNeg {
      NegatedTemplate(op);
      r := TryRotations(negop, nc);
      if r != 0 {
        NegatedMeans(r, op, c);
      }
    }
  }

  lemma SmallFits(op: W, c: W)
    requires Template(op) && c < 256
    ensures Fits(c) && Means(op | c, op, c) && op | c != 0
  {
    assert FitsAt(c, 0);
    assert Encoded(op, c, 0) == op | c;
    EncodedMeans(op, c, 0);
  }

  lemma EncodedRaw(op: W, c: W, i: W)
    requires i < 32
    ensures Encoded(op, c, i) == op | (i << 7) | (c << i) | (c >> (32 - i))
  {}

  lemma NotSmall(c: W)
    requires c >= 256
    ensures forall k: W :: k < 2 ==> !FitsAt(c, k)
  {}

  lemma MaskIs(c: W, i: W)
    requires i < 32 && i & 1 == 0 && c & !((0xFF >> i) | (0xFF << (32 - i))) == 0
    ensures FitsAt(c, i)
  {}

  lemma FitsOf(c: W, i: W)
    requires FitsAt(c, i)
    ensures Fits(c)
  {}

  lemma NotAt(c: W, i: W)
    requires 2 <= i < 32 && i & 1 == 0 && c & !((0xFF >> i) | (0xFF << (32 - i))) != 0
    requires forall k: W :: k < i ==> !FitsAt(c, k)
    ensures forall k: W :: k < i + 2 ==> !FitsAt(c, k)
    ensures i + 2 > i && i + 2 <= 32 && (i + 2) & 1 == 0
  {
    forall k: W | k < i + 2 ensures !FitsAt(c, k) {
      if k >= i && k != i { OddNot(c, k, i); }
    }
  }

  lemma OddNot(c: W, k: W, i: W)
    requires i < k < i + 2 && i < 32 && i & 1 == 0
    ensures !FitsAt(c, k)
  {}

  lemma NotFits(c: W)
    requires forall k: W :: k < 32 ==> !FitsAt(c, k)
    ensures !Fits(c)
  {}
}
