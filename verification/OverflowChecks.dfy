/** The conditions that the overflow checker emits after an integer operation,
    and when they hold: at every width above one bit. */
module OverflowChecks {
  import opened Bits
  import opened Exprs
  import opened IR
  import opened Handlers

  /** Straight-line code as a term; each inner node is one emitted instruction. */
  datatype Term =
    | Leaf(o: Operand)
    | Op2(op: Opcode, a: Term, b: Term, width: nat)
    | Rel(p: Predicate, a: Term, b: Term)
    | If(c: Term, a: Term, b: Term)

  function SelectValue(c: Val, a: Val, b: Val): (v: Option<Val>)
  {
    if c.width == 1 && a.width == b.width then Some(if c.bits == 1 then a else b) else None
  }

  function EvalTerm(t: Term, regs: map<Id, Val>): (v: Option<Val>)
  {
    match t
    case Leaf(o) => Read1(regs, o)
    case Op2(op, a, b, w) =>
      var x, y := EvalTerm(a, regs), EvalTerm(b, regs);
      if x.Some? && y.Some? && x.value.width == w then BinaryValue(op, x.value, y.value) else None
    case Rel(p, a, b) =>
      var x, y := EvalTerm(a, regs), EvalTerm(b, regs);
      if x.Some? && y.Some? then Comparison(p, x.value, y.value) else None
    case If(c, a, b) =>
      var z, x, y := EvalTerm(c, regs), EvalTerm(a, regs), EvalTerm(b, regs);
      if z.Some? && x.Some? && y.Some? then SelectValue(z.value, x.value, y.value) else None
  }

  function Both(a: Term, b: Term): (t: Term) { Op2(IAnd, a, b, 1) }
  function Either(a: Term, b: Term): (t: Term) { Op2(IOr, a, b, 1) }

  function Number1(n: int, w: nat): (t: Term)
    requires Supported(w)
  {
    Leaf(Imm(Value(Wrap(n, w), w)))
  }

  function AddCondition(a: Operand, b: Operand, w: nat): (t: Term)
    requires Supported(w)
  {
    var x, y, zero := Leaf(a), Leaf(b), Number1(0, w);
    var max, min := Number1(Pow2(w - 1) - 1, w), Number1(-Pow2(w - 1), w);
    var pos := Both(Rel(SGT, y, zero), Rel(SGT, x, Op2(ISub, max, y, w)));
    var neg := Both(Rel(SLT, y, zero), Rel(SLT, x, Op2(ISub, min, y, w)));
    Either(Either(pos, neg), Rel(ULT, Op2(IAdd, x, y, w), x))
  }

  function SubCondition(a: Operand, b: Operand, w: nat): (t: Term)
    requires Supported(w)
  {
    var x, y, zero := Leaf(a), Leaf(b), Number1(0, w);
    var max, min := Number1(Pow2(w - 1) - 1, w), Number1(-Pow2(w - 1), w);
    var pos := Both(Rel(SLT, y, zero), Rel(SGT, x, Op2(IAdd, max, y, w)));
    var neg := Both(Rel(SGT, y, zero), Rel(SLT, x, Op2(IAdd, min, y, w)));
    Either(Either(pos, neg), Rel(ULT, x, y))
  }

  /** `a`, or 1 where a division by it would fail. */
  function SafeTerm(a: Operand, w: nat): (t: Term)
    requires Supported(w)
  {
    If(Rel(NE, Leaf(a), Number1(0, w)), Leaf(a), Number1(1, w))
  }

  /** Dividing the product by `a` does not give `b` back. */
  function SignedMulTerm(a: Operand, b: Operand, w: nat): (t: Term)
    requires Supported(w)
  {
    Both(Rel(NE, Leaf(a), Number1(0, w)), Rel(NE, Op2(ISDiv, Op2(IMul, Leaf(a), Leaf(b), w), SafeTerm(a, w), w), Leaf(b)))
  }

  /** `a` exceeds the largest number divided by `b`. */
  function UnsignedMulTerm(a: Operand, b: Operand, w: nat): (t: Term)
    requires Supported(w)
  {
    Both(Rel(NE, Leaf(b), Number1(0, w)), Rel(UGT, Leaf(a), Op2(IUDiv, Number1(Pow2(w) - 1, w), SafeTerm(b, w), w)))
  }

  function MulCondition(a: Operand, b: Operand, w: nat): (t: Term)
    requires Supported(w)
  {
    Either(SignedMulTerm(a, b, w), UnsignedMulTerm(a, b, w))
  }

  function DivByZeroCondition(b: Operand, w: nat): (t: Term)
    requires Supported(w)
  {
    Rel(EQ, Leaf(b), Number1(0, w))
  }

  // ------------------------------------------------------- what they ought to say

  predicate SignedOutOfRange(z: int, w: nat)
    requires w >= 1
  {
    z < -Pow2(w - 1) || z >= Pow2(w - 1)
  }

  predicate UnsignedOutOfRange(z: int, w: nat) { z < 0 || z >= Pow2(w) }

  /** The exact result of the operation does not fit, read as signed or as unsigned. */
  predicate Overflows(op: Opcode, x: nat, y: nat, w: nat)
    requires w >= 1 && Fits(x, w) && Fits(y, w)
  {
    var sx, sy := ToSigned(x, w), ToSigned(y, w);
    match op
    case IAdd => SignedOutOfRange(sx + sy, w) || UnsignedOutOfRange(x + y, w)
    case ISub => SignedOutOfRange(sx - sy, w) || UnsignedOutOfRange(x - y, w)
    case IMul => SignedOutOfRange(sx * sy, w) || UnsignedOutOfRange(x * y, w)
    case IUDiv => y == 0
    case ISDiv => y == 0
    case _ => false
  }

  // ------------------------------------------------------------ evaluating terms

  lemma BothValue(a: Term, p: bool, b: Term, q: bool, regs: map<Id, Val>)
    requires EvalTerm(a, regs) == Some(BoolVal(p)) && EvalTerm(b, regs) == Some(BoolVal(q))
    ensures EvalTerm(Both(a, b), regs) == Some(BoolVal(p && q))
    ensures EvalTerm(Either(a, b), regs) == Some(BoolVal(p || q))
  {
    LogicAgrees(IAnd, FlagOf(p), FlagOf(q));
    LogicAgrees(IOr, FlagOf(p), FlagOf(q));
  }

  lemma BothUndefined(a: Term, b: Term, regs: map<Id, Val>)
    requires EvalTerm(a, regs) == None || EvalTerm(b, regs) == None
    ensures EvalTerm(Both(a, b), regs) == None && EvalTerm(Either(a, b), regs) == None
  {
  }

  lemma RelValue(p: Predicate, a: Term, x: Val, b: Term, y: Val, regs: map<Id, Val>)
    requires EvalTerm(a, regs) == Some(x) && EvalTerm(b, regs) == Some(y) && x.width == y.width > 1
    ensures EvalTerm(Rel(p, a, b), regs) == Some(BoolVal(Satisfies(p, x.bits, y.bits, x.width)))
  {
    hide Satisfies;
  }

  lemma OpValue(op: Opcode, a: Term, x: Val, b: Term, y: Val, regs: map<Id, Val>)
    requires EvalTerm(a, regs) == Some(x) && EvalTerm(b, regs) == Some(y) && x.width == y.width > 1
    ensures EvalTerm(Op2(op, a, b, x.width), regs)
         == if Defined(op, x.bits, y.bits, x.width) then Some(Value(Calculate(op, x.bits, y.bits, x.width), x.width)) else None
  {
    hide Calculate, Defined;
  }

  lemma ConstValue(n: int, w: nat, regs: map<Id, Val>)
    requires Supported(w)
    ensures EvalTerm(Number1(n, w), regs) == Some(Value(Wrap(n, w), w))
  {
  }

  // ------------------------------------------------------------ addition, subtraction

  function BoundTerm(sign: Predicate, rel: Predicate, op: Opcode, bound: int, a: Operand, b: Operand, w: nat): (t: Term)
    requires Supported(w)
  {
    Both(Rel(sign, Leaf(b), Number1(0, w)), Rel(rel, Leaf(a), Op2(op, Number1(bound, w), Leaf(b), w)))
  }

  predicate BoundTest(sign: Predicate, rel: Predicate, op: Opcode, bound: int, x: nat, y: nat, w: nat)
    requires w >= 1 && Fits(x, w) && Fits(y, w) && (op.IAdd? || op.ISub?)
  {
    WrapZero(w);
    Satisfies(sign, y, Wrap(0, w), w) && Satisfies(rel, x, Calculate(op, Wrap(bound, w), y, w), w)
  }

  /** A conjunction of a sign test on `b` and a comparison of `a` with a bound adjusted by `b`. */
  lemma GuardedBound(sign: Predicate, rel: Predicate, op: Opcode, bound: int, a: Operand, x: Val, b: Operand, y: Val, regs: map<Id, Val>)
    requires Read1(regs, a) == Some(x) && Read1(regs, b) == Some(y) && x.width == y.width > 1
    requires op.IAdd? || op.ISub?
    ensures EvalTerm(BoundTerm(sign, rel, op, bound, a, b, x.width), regs)
         == Some(BoolVal(BoundTest(sign, rel, op, bound, x.bits, y.bits, x.width)))
  {
    hide Satisfies, Calculate, Wrap, Pow2, Number1, BoolVal, Both;
    var w := x.width;
    WrapZero(w);
    ConstValue(0, w, regs);
    ConstValue(bound, w, regs);
    RelValue(sign, Leaf(b), y, Number1(0, w), Value(Wrap(0, w), w), regs);
    OpValue(op, Number1(bound, w), Value(Wrap(bound, w), w), Leaf(b), y, regs);
    var limit := Value(Calculate(op, Wrap(bound, w), y.bits, w), w);
    RelValue(rel, Leaf(a), x, Op2(op, Number1(bound, w), Leaf(b), w), limit, regs);
    BothValue(Rel(sign, Leaf(b), Number1(0, w)), Satisfies(sign, y.bits, Wrap(0, w), w),
              Rel(rel, Leaf(a), Op2(op, Number1(bound, w), Leaf(b), w)), Satisfies(rel, x.bits, limit.bits, w), regs);
  }

  lemma ShiftedBound(bound: int, y: nat, w: nat, z: int, minus: bool)
    requires w >= 1 && Fits(y, w) && z == (if minus then bound - ToSigned(y, w) else bound + ToSigned(y, w))
    requires -Pow2(w - 1) <= z < Pow2(w - 1)
    ensures ToSigned(Calculate(if minus then ISub else IAdd, Wrap(bound, w), y, w), w) == z
  {
    var s := ToSigned(y, w);
    WrapAdd(bound, if minus then 0 - y else y, w);
    if s < 0 {
      if minus { WrapShift(bound - y, w); } else { WrapShift(bound + s, w); }
    }
    WrapSigned(z, w);
  }

  lemma AddBounds(x: nat, y: nat, w: nat)
    requires w > 1 && Fits(x, w) && Fits(y, w)
    ensures var sx, sy := ToSigned(x, w), ToSigned(y, w);
            var max, min := Wrap(Pow2(w - 1) - 1, w), Wrap(-Pow2(w - 1), w);
            (sy > 0 ==> (sx > ToSigned(Calculate(ISub, max, y, w), w) <==> sx + sy >= Pow2(w - 1))) &&
            (sy < 0 ==> (sx < ToSigned(Calculate(ISub, min, y, w), w) <==> sx + sy < -Pow2(w - 1)))
  {
    hide Calculate, Wrap;
    var sy, m := ToSigned(y, w), Pow2(w - 1);
    if sy > 0 { ShiftedBound(m - 1, y, w, m - 1 - sy, true); }
    if sy < 0 { ShiftedBound(-m, y, w, -m - sy, true); }
  }

  lemma SubBounds(x: nat, y: nat, w: nat)
    requires w > 1 && Fits(x, w) && Fits(y, w)
    ensures var sx, sy := ToSigned(x, w), ToSigned(y, w);
            var max, min := Wrap(Pow2(w - 1) - 1, w), Wrap(-Pow2(w - 1), w);
            (sy < 0 ==> (sx > ToSigned(Calculate(IAdd, max, y, w), w) <==> sx - sy >= Pow2(w - 1))) &&
            (sy > 0 ==> (sx < ToSigned(Calculate(IAdd, min, y, w), w) <==> sx - sy < -Pow2(w - 1)))
  {
    hide Calculate, Wrap;
    var sy, m := ToSigned(y, w), Pow2(w - 1);
    if sy < 0 { ShiftedBound(m - 1, y, w, m - 1 + sy, false); }
    if sy > 0 { ShiftedBound(-m, y, w, -m + sy, false); }
  }

  lemma SignOfZero(w: nat)
    requires w >= 1
    ensures Fits(0, w) && ToSigned(0, w) == 0
  {
  }

  lemma UnsignedSumOverflow(x: nat, y: nat, w: nat)
    requires Fits(x, w) && Fits(y, w)
    ensures Wrap(x + y, w) < x <==> x + y >= Pow2(w)
  {
    if x + y >= Pow2(w) {
      WrapShift(x + y - Pow2(w), w);
    }
  }

  lemma AddVerdict(x: nat, y: nat, w: nat)
    requires w > 1 && Fits(x, w) && Fits(y, w)
    ensures Overflows(IAdd, x, y, w)
       <==> BoundTest(SGT, SGT, ISub, Pow2(w - 1) - 1, x, y, w) || BoundTest(SLT, SLT, ISub, -Pow2(w - 1), x, y, w)
            || Satisfies(ULT, Calculate(IAdd, x, y, w), x, w)
  {
    hide Wrap, ToSigned, Pow2;
    AddBounds(x, y, w);
    WrapZero(w);
    SignOfZero(w);
    UnsignedSumOverflow(x, y, w);
  }

  lemma SubVerdict(x: nat, y: nat, w: nat)
    requires w > 1 && Fits(x, w) && Fits(y, w)
    ensures Overflows(ISub, x, y, w)
       <==> BoundTest(SLT, SGT, IAdd, Pow2(w - 1) - 1, x, y, w) || BoundTest(SGT, SLT, IAdd, -Pow2(w - 1), x, y, w)
            || Satisfies(ULT, x, y, w)
  {
    hide Wrap, ToSigned, Pow2;
    SubBounds(x, y, w);
    WrapZero(w);
    SignOfZero(w);
  }

  lemma ThreeWay(pos: Term, p: bool, neg: Term, q: bool, unsigned: Term, r: bool, regs: map<Id, Val>)
    requires EvalTerm(pos, regs) == Some(BoolVal(p)) && EvalTerm(neg, regs) == Some(BoolVal(q))
    requires EvalTerm(unsigned, regs) == Some(BoolVal(r))
    ensures EvalTerm(Either(Either(pos, neg), unsigned), regs) == Some(BoolVal(p || q || r))
  {
    hide Either, EvalTerm, BoolVal;
    BothValue(pos, p, neg, q, regs);
    BothValue(Either(pos, neg), p || q, unsigned, r, regs);
  }

  /** The check after an addition is exact for all operands. */
  lemma AddConditionExact(a: Operand, x: Val, b: Operand, y: Val, regs: map<Id, Val>)
    requires Read1(regs, a) == Some(x) && Read1(regs, b) == Some(y) && x.width == y.width > 1
    ensures EvalTerm(AddCondition(a, b, x.width), regs) == Some(BoolVal(Overflows(IAdd, x.bits, y.bits, x.width)))
  {
    hide Calculate, Wrap, ToSigned, Pow2, Either, Both, Number1, BoolVal, Satisfies, BoundTest, Overflows;
    var w, max, min := x.width, Pow2(x.width - 1) - 1, -Pow2(x.width - 1);
    GuardedBound(SGT, SGT, ISub, max, a, x, b, y, regs);
    GuardedBound(SLT, SLT, ISub, min, a, x, b, y, regs);
    OpValue(IAdd, Leaf(a), x, Leaf(b), y, regs);
    var sum := Value(Calculate(IAdd, x.bits, y.bits, w), w);
    RelValue(ULT, Op2(IAdd, Leaf(a), Leaf(b), w), sum, Leaf(a), x, regs);
    ThreeWay(BoundTerm(SGT, SGT, ISub, max, a, b, w), BoundTest(SGT, SGT, ISub, max, x.bits, y.bits, w),
             BoundTerm(SLT, SLT, ISub, min, a, b, w), BoundTest(SLT, SLT, ISub, min, x.bits, y.bits, w),
             Rel(ULT, Op2(IAdd, Leaf(a), Leaf(b), w), Leaf(a)), Satisfies(ULT, sum.bits, x.bits, w), regs);
    AddVerdict(x.bits, y.bits, w);
  }

  /** The check after a subtraction is exact for all operands. */
  lemma SubConditionExact(a: Operand, x: Val, b: Operand, y: Val, regs: map<Id, Val>)
    requires Read1(regs, a) == Some(x) && Read1(regs, b) == Some(y) && x.width == y.width > 1
    ensures EvalTerm(SubCondition(a, b, x.width), regs) == Some(BoolVal(Overflows(ISub, x.bits, y.bits, x.width)))
  {
    hide Calculate, Wrap, ToSigned, Pow2, Either, Both, Number1, BoolVal, Satisfies, BoundTest, Overflows;
    var w, max, min := x.width, Pow2(x.width - 1) - 1, -Pow2(x.width - 1);
    GuardedBound(SLT, SGT, IAdd, max, a, x, b, y, regs);
    GuardedBound(SGT, SLT, IAdd, min, a, x, b, y, regs);
    RelValue(ULT, Leaf(a), x, Leaf(b), y, regs);
    ThreeWay(BoundTerm(SLT, SGT, IAdd, max, a, b, w), BoundTest(SLT, SGT, IAdd, max, x.bits, y.bits, w),
             BoundTerm(SGT, SLT, IAdd, min, a, b, w), BoundTest(SGT, SLT, IAdd, min, x.bits, y.bits, w),
             Rel(ULT, Leaf(a), Leaf(b)), Satisfies(ULT, x.bits, y.bits, w), regs);
    SubVerdict(x.bits, y.bits, w);
  }

  // ------------------------------------------------------------ multiplication

  lemma TruncDivClose(p: int, d: int)
    requires d != 0
    ensures Abs(p - TruncDiv(p, d) * d) < Abs(d)
  {
    TruncRem(p, d);
  }

  lemma MulAtLeast(k: int, d: int)
    requires k != 0 && d > 0
    ensures Abs(k * d) >= d
  {
    if k > 0 { MulLeq(1, k, d); } else { MulLeq(k, -1, d); }
  }

  lemma Distribute(q: int, t: int, d: int)
    ensures (q - t) * d == q * d - t * d && (q - t) * (-d) == t * d - q * d
  {
  }

  lemma CloseMultiples(q: int, t: int, d: int)
    requires d != 0 && Abs(q * d - t * d) < Abs(d)
    ensures q == t
  {
    Distribute(q, t, d);
    if q != t {
      MulAtLeast(q - t, Abs(d));
    }
  }

  lemma TruncDivExact(q: int, d: int)
    requires d != 0
    ensures TruncDiv(q * d, d) == q
  {
    hide TruncDiv, Abs;
    TruncDivClose(q * d, d);
    CloseMultiples(q, TruncDiv(q * d, d), d);
  }

  /** Dividing a wrapped product gives the other factor back exactly when nothing was lost. */
  lemma DivisionDetects(a: int, b: int, p: int, k: int, w: nat)
    requires w >= 1 && a != 0 && -Pow2(w - 1) <= a < Pow2(w - 1) && p == a * b - k * Pow2(w)
    ensures TruncDiv(p, a) == b <==> k == 0
  {
    hide Pow2;
    Pow2Step(w);
    if k == 0 {
      TruncDivExact(b, a);
      assert b * a == a * b;
    } else {
      MulAtLeast(k, Pow2(w));
      TruncDivClose(p, a);
      assert b * a == a * b;
    }
  }

  lemma TruncDivRange(p: int, d: int, m: int)
    requires d != 0 && -m <= p < m && !(p == -m && d == -1)
    ensures -m <= TruncDiv(p, d) < m
  {
    var q := Abs(p) / Abs(d);
    DivNat(Abs(p), Abs(d));
    if Abs(d) >= 2 && Abs(p) >= 1 {
      MulLeq(2, Abs(d), q);
      DivMod(Abs(p), Abs(d));
    }
  }

  lemma SignedFitsWrap(z: int, w: nat, k: int)
    requires w >= 1 && z == ToSigned(Wrap(z, w), w) + k * Pow2(w)
    ensures k == 0 <==> !SignedOutOfRange(z, w)
  {
    hide Pow2, Wrap, ToSigned;
    if !SignedOutOfRange(z, w) {
      WrapSigned(z, w);
      if k != 0 { MulAtLeast(k, Pow2(w)); }
    }
  }

  lemma ProductPattern(x: nat, y: nat, w: nat)
    requires w >= 1 && Fits(x, w) && Fits(y, w)
    ensures Wrap(x * y, w) == Wrap(ToSigned(x, w) * ToSigned(y, w), w)
  {
    hide Pow2, Wrap;
    var n, sx, sy := Pow2(w), ToSigned(x, w), ToSigned(y, w);
    var i, j := if sx < 0 then 1 else 0, if sy < 0 then 1 else 0;
    assert x == sx + i * n && y == sy + j * n;
    ExpandProduct(sx, i, sy, j, n);
    WrapMultiple(sx * sy, sx * j + i * sy + i * j * n, w);
  }

  lemma ExpandProduct(a: int, i: int, b: int, j: int, n: int)
    ensures (a + i * n) * (b + j * n) == a * b + (a * j + i * b + i * j * n) * n
  {
  }

  /** The only operands for which the emitted signed division is undefined. */
  predicate MulTrap(x: nat, y: nat, w: nat)
    requires w >= 1 && Fits(x, w) && Fits(y, w)
  {
    ToSigned(x, w) == -1 && ToSigned(y, w) == -Pow2(w - 1)
  }

  lemma TrapIsUndefined(x: nat, y: nat, w: nat)
    requires w > 1 && Fits(x, w) && Fits(y, w) && x != 0
    ensures Defined(ISDiv, Wrap(x * y, w), x, w) <==> !MulTrap(x, y, w)
  {
    hide Pow2, Wrap;
    var m, sx, sy := Pow2(w - 1), ToSigned(x, w), ToSigned(y, w);
    ProductPattern(x, y, w);
    Pow2Step(w);
    if sx == -1 {
      assert sx * sy == -sy;
      if sy == -m {
        WrapShift(-m, w);
        WrapSigned(-m, w);
      } else {
        WrapSigned(-sy, w);
      }
    }
  }

  lemma SignedPart(x: nat, y: nat, w: nat)
    requires w > 1 && Fits(x, w) && Fits(y, w) && x != 0 && !MulTrap(x, y, w)
    ensures Defined(ISDiv, Wrap(x * y, w), x, w)
    ensures Calculate(ISDiv, Wrap(x * y, w), x, w) != y <==> SignedOutOfRange(ToSigned(x, w) * ToSigned(y, w), w)
  {
    hide Pow2, Wrap;
    var m, sx, sy := Pow2(w - 1), ToSigned(x, w), ToSigned(y, w);
    TrapIsUndefined(x, y, w);
    ProductPattern(x, y, w);
    var p := ToSigned(Wrap(x * y, w), w);
    var k := SignedWrap(sx * sy, w);
    SignedFitsWrap(sx * sy, w, k);
    SignedNonzero(x, w);
    DivisionDetects(sx, sy, p, k, w);
    TruncDivRange(p, sx, m);
    WrapSigned(TruncDiv(p, sx), w);
    WrapSigned(sy, w);
  }

  lemma SignedNonzero(x: nat, w: nat)
    requires w >= 1 && Fits(x, w) && x != 0
    ensures ToSigned(x, w) != 0
  {
  }

  lemma UnsignedPart(x: nat, y: nat, n: int)
    requires y > 0 && n > 0
    ensures x > (n - 1) / y <==> x * y >= n
  {
    var q := (n - 1) / y;
    DivMod(n - 1, y);
    if x > q { MulLeq(q + 1, x, y); } else { MulLeq(x, q, y); }
  }

  lemma SafeDivisor(a: Operand, x: Val, regs: map<Id, Val>)
    requires Read1(regs, a) == Some(x) && x.width > 1
    ensures var w := x.width;
            EvalTerm(Rel(NE, Leaf(a), Number1(0, w)), regs) == Some(BoolVal(x.bits != 0)) &&
            EvalTerm(If(Rel(NE, Leaf(a), Number1(0, w)), Leaf(a), Number1(1, w)), regs)
              == Some(if x.bits != 0 then x else Value(Wrap(1, w), w))
  {
    hide Wrap, Pow2;
    WrapZero(x.width);
    ConstValue(0, x.width, regs);
    RelValue(NE, Leaf(a), x, Number1(0, x.width), Value(0, x.width), regs);
  }

  lemma ProductValue(x: nat, y: nat, w: nat)
    requires w >= 1 && Fits(x, w) && Fits(y, w)
    ensures Defined(IMul, x, y, w) && Calculate(IMul, x, y, w) == Wrap(x * y, w)
  {
  }

  lemma DivisionByOneDefined(p: nat, w: nat)
    requires w > 1 && Fits(p, w)
    ensures Fits(1, w) && Wrap(1, w) == 1 && Defined(ISDiv, p, 1, w) && Defined(IUDiv, p, 1, w)
  {
    Pow2Step(w);
    Pow2Monotone(1, w - 1);
  }

  lemma SignedMulValue(a: Operand, x: Val, b: Operand, y: Val, regs: map<Id, Val>)
    requires Read1(regs, a) == Some(x) && Read1(regs, b) == Some(y) && x.width == y.width > 1
    ensures EvalTerm(SignedMulTerm(a, b, x.width), regs)
         == if MulTrap(x.bits, y.bits, x.width) then None
            else Some(BoolVal(SignedOutOfRange(ToSigned(x.bits, x.width) * ToSigned(y.bits, x.width), x.width)))
  {
    hide Calculate, Defined, Wrap, ToSigned, Pow2, BoolVal, Both, Number1, SignedOutOfRange, MulTrap;
    var w, zero := x.width, Rel(NE, Leaf(a), Number1(0, x.width));
    var safe := If(zero, Leaf(a), Number1(1, w));
    SafeDivisor(a, x, regs);
    OpValue(IMul, Leaf(a), x, Leaf(b), y, regs);
    ProductValue(x.bits, y.bits, w);
    var prod, prodTerm := Value(Wrap(x.bits * y.bits, w), w), Op2(IMul, Leaf(a), Leaf(b), w);
    var d := if x.bits != 0 then x else Value(Wrap(1, w), w);
    OpValue(ISDiv, prodTerm, prod, safe, d, regs);
    ZeroFactor(x.bits, y.bits, w);
    if x.bits != 0 {
      TrapIsUndefined(x.bits, y.bits, w);
    } else {
      DivisionByOneDefined(prod.bits, w);
    }
    if MulTrap(x.bits, y.bits, w) {
      BothUndefined(zero, Rel(NE, Op2(ISDiv, prodTerm, safe, w), Leaf(b)), regs);
    } else {
      var div := Value(Calculate(ISDiv, prod.bits, d.bits, w), w);
      RelValue(NE, Op2(ISDiv, prodTerm, safe, w), div, Leaf(b), y, regs);
      BothValue(zero, x.bits != 0, Rel(NE, Op2(ISDiv, prodTerm, safe, w), Leaf(b)), Satisfies(NE, div.bits, y.bits, w), regs);
      if x.bits != 0 {
        SignedPart(x.bits, y.bits, w);
      }
    }
  }

  lemma ZeroFactor(x: nat, y: nat, w: nat)
    requires w >= 1 && Fits(x, w) && Fits(y, w)
    ensures x == 0 ==> !MulTrap(x, y, w) && !SignedOutOfRange(ToSigned(x, w) * ToSigned(y, w), w)
    ensures y == 0 ==> !UnsignedOutOfRange(x * y, w)
  {
    if x == 0 {
      assert ToSigned(x, w) * ToSigned(y, w) == 0;
    }
  }

  lemma UnsignedMulValue(a: Operand, x: Val, b: Operand, y: Val, regs: map<Id, Val>)
    requires Read1(regs, a) == Some(x) && Read1(regs, b) == Some(y) && x.width == y.width > 1
    ensures EvalTerm(UnsignedMulTerm(a, b, x.width), regs) == Some(BoolVal(UnsignedOutOfRange(x.bits * y.bits, x.width)))
  {
    hide Calculate, Defined, Wrap, ToSigned, Pow2, BoolVal, Both, Number1;
    var w, zero := x.width, Rel(NE, Leaf(b), Number1(0, x.width));
    var safe, top := If(zero, Leaf(b), Number1(1, w)), Value(Wrap(Pow2(w) - 1, w), w);
    SafeDivisor(b, y, regs);
    ConstValue(Pow2(w) - 1, w, regs);
    DivisionByOneDefined(top.bits, w);
    var d := if y.bits != 0 then y else Value(Wrap(1, w), w);
    OpValue(IUDiv, Number1(Pow2(w) - 1, w), top, safe, d, regs);
    UDivValue(top.bits, d.bits, w);
    var quot := Value(Calculate(IUDiv, top.bits, d.bits, w), w);
    RelValue(UGT, Leaf(a), x, Op2(IUDiv, Number1(Pow2(w) - 1, w), safe, w), quot, regs);
    BothValue(zero, y.bits != 0, Rel(UGT, Leaf(a), Op2(IUDiv, Number1(Pow2(w) - 1, w), safe, w)), x.bits > quot.bits, regs);
    WrapFits(Pow2(w) - 1, w);
    if y.bits != 0 {
      UnsignedPart(x.bits, y.bits, Pow2(w));
      MulLeq(0, x.bits, y.bits);
    } else {
      ZeroFactor(x.bits, y.bits, w);
    }
  }

  lemma WrapFits(z: int, w: nat)
    requires Fits(z, w)
    ensures Wrap(z, w) == z
  {
  }

  lemma UDivValue(x: nat, y: nat, w: nat)
    requires w >= 1 && Fits(x, w) && Fits(y, w) && y != 0
    ensures Defined(IUDiv, x, y, w) && Calculate(IUDiv, x, y, w) == x / y
  {
  }

  /** The check after a multiplication is defined unless the operands are -1 and the
      smallest integer, and then holds if and only if the product overflows. */
  lemma MulConditionExact(a: Operand, x: Val, b: Operand, y: Val, regs: map<Id, Val>)
    requires Read1(regs, a) == Some(x) && Read1(regs, b) == Some(y) && x.width == y.width > 1
    ensures EvalTerm(MulCondition(a, b, x.width), regs)
         == if MulTrap(x.bits, y.bits, x.width) then None else Some(BoolVal(Overflows(IMul, x.bits, y.bits, x.width)))
  {
    hide SignedMulTerm, UnsignedMulTerm, BoolVal, MulTrap, SignedOutOfRange, UnsignedOutOfRange, Wrap, Pow2, ToSigned;
    var w := x.width;
    SignedMulValue(a, x, b, y, regs);
    UnsignedMulValue(a, x, b, y, regs);
    var sx, sy := ToSigned(x.bits, w), ToSigned(y.bits, w);
    if MulTrap(x.bits, y.bits, w) {
      BothUndefined(SignedMulTerm(a, b, w), UnsignedMulTerm(a, b, w), regs);
    } else {
      BothValue(SignedMulTerm(a, b, w), SignedOutOfRange(sx * sy, w), UnsignedMulTerm(a, b, w),
                UnsignedOutOfRange(x.bits * y.bits, w), regs);
    }
  }
}
