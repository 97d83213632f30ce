/** The tables that pick a runtime builder for each operator of the bitcode,
    and the proof that the solver's operators mean what the bitcode's do. */
module Handlers {
  import opened Bits
  import opened Exprs
  import opened IR

  function BinaryHandler(op: Opcode): (h: BvOp)
  {
    match op
    case IAdd => Add
    case ISub => Sub
    case IMul => Mul
    case IUDiv => UDiv
    case ISDiv => SDiv
    case IURem => URem
    case ISRem => SRem
    case IShl => Shl
    case ILShr => LShr
    case IAShr => AShr
    case IAnd => And
    case IOr => Or
    case IXor => Xor
  }

  function BoolHandler(op: Opcode): (h: Connective)
    requires Logical(op)
  {
    match op
    case IAnd => Conj
    case IOr => Disj
    case IXor => Parity
  }

  /** `None` stands for "not equal", which the backend builds as a negation. */
  function ComparisonHandler(p: Predicate): (h: Option<Relation>)
  {
    match p
    case EQ => Some(Eq)
    case NE => None
    case UGT => Some(Ugt)
    case UGE => Some(Uge)
    case ULT => Some(Ult)
    case ULE => Some(Ule)
    case SGT => Some(Sgt)
    case SGE => Some(Sge)
    case SLT => Some(Slt)
    case SLE => Some(Sle)
  }

  lemma Magnitude(x: nat, w: nat)
    requires w >= 1 && Fits(x, w)
    ensures ToSigned(x, w) < 0 <==> Negative(x, w)
    ensures Negative(x, w) ==> Neg(x, w) == -ToSigned(x, w)
    ensures Negative(x, w) ==> Neg(x, w) <= Pow2(w - 1)
    ensures !Negative(x, w) ==> ToSigned(x, w) == x
  {
    if Negative(x, w) {
      WrapShift(0 - x, w);
    }
  }

  function Abs(x: int): (a: nat) { if x < 0 then -x else x }

  lemma QuotientOfMagnitudes(a: nat, b: nat, w: nat)
    requires Fits(a, w) && b != 0
    ensures BvUDiv(a, b, w) == a / b && Fits(a / b, w) && Wrap(a / b, w) == a / b
  {
    DivNat(a, b);
  }

  lemma SDivAgrees(x: nat, y: nat, w: nat)
    requires w >= 1 && Fits(x, w) && Fits(y, w) && y != 0
    ensures BvSDiv(x, y, w) == Wrap(TruncDiv(ToSigned(x, w), ToSigned(y, w)), w)
  {
    hide ToSigned, Pow2, Wrap, BvUDiv, Negative;
    Magnitude(x, w);
    Magnitude(y, w);
    QuotientOfMagnitudes(Abs(ToSigned(x, w)), Abs(ToSigned(y, w)), w);
  }

  lemma RemainderByQuotient(a: nat, b: nat)
    requires b > 0
    ensures a - a / b * b == a % b
  {
  }

  lemma TruncRem(x: int, y: int)
    requires y != 0
    ensures x - TruncDiv(x, y) * y == if x < 0 then -(Abs(x) % Abs(y)) else Abs(x) % Abs(y)
  {
    var q := Abs(x) / Abs(y);
    RemainderByQuotient(Abs(x), Abs(y));
    assert TruncDiv(x, y) == if (x < 0) == (y < 0) then q else -q;
    assert (-q) * y == -(q * y) && q * (-y) == -(q * y);
  }

  lemma SRemAgrees(x: nat, y: nat, w: nat)
    requires w >= 1 && Fits(x, w) && Fits(y, w) && y != 0
    ensures BvSRem(x, y, w) == Wrap(ToSigned(x, w) - TruncDiv(ToSigned(x, w), ToSigned(y, w)) * ToSigned(y, w), w)
  {
    Magnitude(x, w);
    Magnitude(y, w);
    TruncRem(ToSigned(x, w), ToSigned(y, w));
  }

  lemma FloorOfNegative(m: int, d: int)
    requires d > 0
    ensures (-m - 1) / d == -(m / d) - 1
  {
    var q, r := m / d, m % d;
    assert -m - 1 == (-q - 1) * d + (d - 1 - r);
    DivModUnique(-m - 1, d, -q - 1, d - 1 - r);
  }

  lemma AShrAgrees(x: nat, k: nat, w: nat)
    requires w >= 1 && Fits(x, w)
    ensures BvAShr(x, k, w) == Wrap(ToSigned(x, w) / Pow2(k), w)
  {
    if Negative(x, w) {
      var m := Pow2(w) - 1 - x;
      FloorOfNegative(m, Pow2(k));
      DivNat(m, Pow2(k));
      WrapShift(-(m / Pow2(k)) - 1, w);
    } else {
      DivNat(x, Pow2(k));
    }
  }

  /** Bit `k` of a number. */
  function BitAt(x: nat, k: nat): (b: nat)
    ensures b <= 1
  {
    Shr(x, k) % 2
  }

  lemma NextBit(x: nat, k: nat)
    requires k >= 1
    ensures BitAt(x, k) == BitAt(x / 2, k - 1)
  {
    assert Pow2(1) == 2 * Pow2(0);
    assert Shr(x, 1) == x / 2;
    ShrShr(x, 1, k - 1);
  }

  /** The logical operators work bit by bit. */
  lemma {:induction false} BitwiseAt(op: BvOp, x: nat, y: nat, w: nat, k: nat)
    requires k < w
    ensures BitAt(Bitwise(op, x, y, w), k) == BitwiseBit(op, BitAt(x, k), BitAt(y, k))
  {
    hide BitwiseBit, Pow2;
    var z := Bitwise(op, x, y, w);
    var half, low := Bitwise(op, x / 2, y / 2, w - 1), BitwiseBit(op, x % 2, y % 2);
    assert z == 2 * half + low;
    if k == 0 {
      LowBit(x);
      LowBit(y);
      LowBit(z);
    } else {
      NextBit(x, k);
      NextBit(y, k);
      NextBit(z, k);
      BitwiseAt(op, x / 2, y / 2, w - 1, k - 1);
    }
  }

  lemma LowBit(x: nat)
    ensures BitAt(x, 0) == x % 2
  {
  }

  /** Where the bitcode defines a result, the chosen builder computes the same one. */
  lemma ArithmeticAgrees(op: Opcode, x: nat, y: nat, w: nat)
    requires w >= 1 && Fits(x, w) && Fits(y, w) && Defined(op, x, y, w)
    ensures BvApply(BinaryHandler(op), x, y, w) == Calculate(op, x, y, w)
  {
    hide Wrap, ToSigned, BvSDiv, BvSRem, BvAShr, TruncDiv, Bitwise, Pow2;
    match op
    case ISDiv => SDivAgrees(x, y, w);
    case ISRem => SRemAgrees(x, y, w);
    case IAShr => AShrAgrees(x, y, w);
    case _ =>
  }

  lemma BitOfBool(x: nat)
    requires Fits(x, 1)
    ensures x == 0 || x == 1
  {
    assert Pow2(1) == 2 * Pow2(0);
  }

  lemma LogicAgrees(op: Opcode, x: nat, y: nat)
    requires Logical(op) && Fits(x, 1) && Fits(y, 1)
    ensures FlagOf(Connected(BoolHandler(op), x == 1, y == 1)) == Calculate(op, x, y, 1)
  {
    BitOfBool(x);
    BitOfBool(y);
  }

  lemma ComparisonAgrees(p: Predicate, x: nat, y: nat, w: nat)
    requires w >= 1 && Fits(x, w) && Fits(y, w)
    ensures ComparisonHandler(p).Some? ==>
              Holds(ComparisonHandler(p).value, x, y, BitVec(w)) == Satisfies(p, x, y, w)
    ensures ComparisonHandler(p).None? ==> Satisfies(p, x, y, w) == !Holds(Eq, x, y, BitVec(w))
  {
    hide ToSigned;
  }
}
