/** The intrinsic functions that the pass hands to runtime builders: saturating
    arithmetic, byte swapping and the absolute value; what is built, what ought to be
    computed, and for which operands the two agree. */
module Intrinsics {
  import opened Bits
  import opened Exprs
  import opened Builders

  datatype SatOp = SatAdd | SatSub | SatShl

  datatype IntrinsicFn = Saturate(op: SatOp, signed: bool) | SwapBytes | AbsValue

  predicate UnaryIntrinsic(f: IntrinsicFn) { !f.Saturate? }

  // ------------------------------------------------------------- the builders

  /** `1 << w` on 64 bits; the shift by 64 is undefined and yields `wild`. */
  function OneShifted(w: nat, wild: nat): (n: nat)
  {
    if w < 64 then Pow2(w) else wild
  }

  function Mask(w: nat, wild: nat): (n: nat)
    ensures Fits(n, 64)
  {
    Wrap(OneShifted(w, wild) - 1, 64)
  }

  function MinSigned(w: nat): (e: Expr)
    requires w >= 1
  {
    Const(Pow2(w - 1), w)
  }

  function MaxSigned(w: nat, wild: nat): (e: Expr) { Const(Mask(w, wild) / 2, w) }

  function MaxUnsigned(w: nat, wild: nat): (e: Expr) { Const(Mask(w, wild), w) }

  /** The sum or difference, computed with one more bit, kept within the signed bounds. */
  function SignedSat(op: BvOp, a: Expr, b: Expr, w: nat, wild: nat): (e: Expr)
    requires w >= 1
  {
    var min, max := MinSigned(w), MaxSigned(w, wild);
    var wide := Arith(op, SExt(a, 1), SExt(b, 1));
    Ite(Compare(Sle, wide, SExt(min, 1)), min, Ite(Compare(Sge, wide, SExt(max, 1)), max, Arith(op, a, b)))
  }

  function UAddSat(a: Expr, b: Expr, w: nat, wild: nat): (e: Expr)
  {
    var wide := Arith(Add, ZExt(a, 1), ZExt(b, 1));
    Ite(BitToBool(Extract(wide, w, w)), MaxUnsigned(w, wild), Arith(Add, a, b))
  }

  function USubSat(a: Expr, b: Expr, w: nat): (e: Expr)
  {
    Ite(Compare(Uge, a, b), Arith(Sub, a, b), Const(0, w))
  }

  function ShiftOverflow(a: Expr, b: Expr): (e: Expr) { NotEqual(Arith(AShr, Arith(Shl, a, b), b), a) }

  function UShlSat(a: Expr, b: Expr, w: nat, wild: nat): (e: Expr)
  {
    Ite(ShiftOverflow(a, b), MaxUnsigned(w, wild), Arith(Shl, a, b))
  }

  function SShlSat(a: Expr, b: Expr, w: nat, wild: nat): (e: Expr)
    requires w >= 1
  {
    Ite(ShiftOverflow(a, b),
        Ite(BitToBool(Extract(a, w - 1, w - 1)), MinSigned(w), MaxSigned(w, wild)),
        Arith(Shl, a, b))
  }

  // ------------------------------------------------------- what they ought to be

  function Clamp(z: int, lo: int, hi: int): (r: int)
    requires lo <= hi
  {
    if z < lo then lo else if z > hi then hi else z
  }

  function ClampSigned(z: int, w: nat): (v: nat)
    requires w >= 1
    ensures Fits(v, w)
  {
    Wrap(Clamp(z, -Pow2(w - 1), Pow2(w - 1) - 1), w)
  }

  function ClampUnsigned(z: int, w: nat): (v: nat)
    ensures Fits(v, w)
  {
    Clamp(z, 0, Pow2(w) - 1)
  }

  /** The bounds are right below 64 bits, and at 64 if the undefined shift yields 0. */
  predicate BoundsRight(w: nat, wild: nat) { 1 <= w <= 64 && Fits(wild, 64) && (w == 64 ==> wild == 0) }

  /** The largest signed number, as built. */
  function TopSigned(w: nat, wild: nat): (n: nat) { Mask(w, wild) / 2 }

  /** The width fits the 64-bit arithmetic that computes the bounds. */
  predicate Buildable(w: nat, wild: nat) { 1 <= w <= 64 && Fits(wild, 64) }

  predicate SignedShiftFits(x: nat, k: nat, w: nat)
    requires w >= 1 && Fits(x, w)
  {
    -Pow2(w - 1) <= ToSigned(x, w) * Pow2(k) < Pow2(w - 1)
  }


  function AbsExpr(a: Expr, w: nat): (e: Expr)
  {
    Ite(Compare(Sge, a, Const(0, w)), a, Arith(Sub, Const(0, w), a))
  }

  // ------------------------------------------------------------ by intrinsic function

  function SatExpr(op: SatOp, signed: bool, a: Expr, b: Expr, w: nat, wild: nat): (e: Expr)
    requires w >= 1
  {
    match op
    case SatAdd => if signed then SignedSat(Add, a, b, w, wild) else UAddSat(a, b, w, wild)
    case SatSub => if signed then SignedSat(Sub, a, b, w, wild) else USubSat(a, b, w)
    case SatShl => if signed then SShlSat(a, b, w, wild) else UShlSat(a, b, w, wild)
  }

  function IntrinsicExpr(f: IntrinsicFn, a: Expr, b: Expr, w: nat, wild: nat): (e: Expr)
  {
    if w < 8 && f.SwapBytes? then a
    else if w == 0 then a
    else match f
      case Saturate(op, signed) => SatExpr(op, signed, a, b, w, wild)
      case SwapBytes => ByteSwap(a, w / 8)
      case AbsValue => AbsExpr(a, w)
  }

  /** Where the language reference defines a result and the runtime can build one. */
  predicate IntrinsicDefined(f: IntrinsicFn, y: nat, w: nat)
  {
    w > 1 &&
    match f
    case Saturate(op, _) => w <= 64 && (op.SatShl? ==> y < w)
    case SwapBytes => w % 16 == 0
    case AbsValue => true
  }

  /** The reading of an operand. */
  function Reading(signed: bool, x: nat, w: nat): (z: int)
    requires w >= 1 && Fits(x, w)
  {
    if signed then ToSigned(x, w) else x
  }

  /** The exact result before it is clamped. */
  function SatExact(op: SatOp, signed: bool, x: nat, y: nat, w: nat): (z: int)
    requires w >= 1 && Fits(x, w) && Fits(y, w)
  {
    match op
    case SatAdd => Reading(signed, x, w) + Reading(signed, y, w)
    case SatSub => Reading(signed, x, w) - Reading(signed, y, w)
    case SatShl => Reading(signed, x, w) * Pow2(y)
  }

  /** What the intrinsic function computes. */
  function IntrinsicResult(f: IntrinsicFn, x: nat, y: nat, w: nat): (v: nat)
    requires Fits(x, w) && Fits(y, w) && IntrinsicDefined(f, y, w)
    ensures Fits(v, w)
  {
    match f
    case Saturate(op, signed) =>
      if signed then ClampSigned(SatExact(op, signed, x, y, w), w) else ClampUnsigned(SatExact(op, signed, x, y, w), w)
    case SwapBytes => BytesOfNumber(Reversed(Bytes(x, w / 8))); Number(Reversed(Bytes(x, w / 8)))
    case AbsValue => Wrap(if ToSigned(x, w) < 0 then -ToSigned(x, w) else ToSigned(x, w), w)
  }

  /** For which operands the expression that is built has that value. */
  predicate IntrinsicRight(f: IntrinsicFn, x: nat, y: nat, w: nat, wild: nat)
    requires Fits(x, w) && Fits(y, w) && IntrinsicDefined(f, y, w)
  {
    match f
    case Saturate(SatAdd, false) => x + y < Pow2(w) || BoundsRight(w, wild)
    case Saturate(SatSub, false) => true
    case Saturate(SatShl, false) => UShlRight(x, y, w, wild)
    case Saturate(SatShl, true) => ToSigned(x, w) * Pow2(y) < Pow2(w - 1) || TopSigned(w, wild) == Pow2(w - 1) - 1
    case Saturate(op, true) => SatExact(op, true, x, y, w) <= TopSigned(w, wild) || TopSigned(w, wild) == Pow2(w - 1) - 1
    case _ => true
  }

  predicate UShlRight(x: nat, k: nat, w: nat, wild: nat)
    requires w >= 1 && Fits(x, w)
  {
    k == 0 || x * Pow2(k) < Pow2(w - 1) ||
    (!SignedShiftFits(x, k, w) && if x * Pow2(k) >= Pow2(w) then BoundsRight(w, wild) else w == 64 && wild == x * Pow2(k) + 1)
  }
}
