/** The builders for saturating arithmetic: they clamp the exact result. */
module Saturation {
  import opened Bits
  import opened Exprs
  import opened Builders
  import opened Intrinsics
  import opened Handlers
  import opened Describing

  // ------------------------------------------------------------------ bounds

  lemma WrapMinusOne(n: int, w: nat)
    requires w >= 1 && 0 <= n < Pow2(w)
    ensures Wrap(n - 1, w) == if n == 0 then Pow2(w) - 1 else n - 1
  {
    hide Pow2;
    if n == 0 { WrapShift(-1, w); }
  }

  /** The mask is all ones exactly when the bounds are right. */
  lemma MaskIsTop(w: nat, wild: nat)
    requires Buildable(w, wild)
    ensures Fits(Mask(w, wild), w)
    ensures Mask(w, wild) == Pow2(w) - 1 <==> BoundsRight(w, wild)
    ensures w == 64 && wild != 0 ==> Mask(w, wild) == wild - 1
  {
    hide Pow2;
    Pow2Monotone(w, 64);
    if w < 64 {
      Pow2Monotone(w + 1, 64);
      Pow2Step(w + 1);
    }
    WrapMinusOne(OneShifted(w, wild), 64);
  }

  lemma HalfOf(m: nat, h: int)
    requires h >= 1 && m < 2 * h
    ensures m / 2 <= h - 1
    ensures m / 2 == h - 1 <==> m >= 2 * h - 2
  {
  }

  /** The signed bound is right below 64 bits, and at 64 if the undefined shift yields 0
      or all ones. */
  lemma TopSignedIsRight(w: nat, wild: nat)
    requires Buildable(w, wild)
    ensures TopSigned(w, wild) <= Pow2(w - 1) - 1
    ensures TopSigned(w, wild) == Pow2(w - 1) - 1 <==> BoundsRight(w, wild) || (w == 64 && wild == Pow2(64) - 1)
  {
    hide Pow2, Mask;
    MaskIsTop(w, wild);
    Pow2Step(w);
    HalfOf(Mask(w, wild), Pow2(w - 1));
  }

  // --------------------------------------------------------- evaluating the parts

  lemma ConstDenotes(v: nat, w: nat, input: Input)
    requires w >= 1 && Fits(v, w)
    ensures Denotes(Const(v, w), BitVec(w), v, input)
  {
  }

  lemma IteDenotes(c: Expr, t: bool, a: Expr, x: nat, b: Expr, y: nat, s: Sort, input: Input)
    requires Denotes(c, Bool, FlagOf(t), input) && Denotes(a, s, x, input) && Denotes(b, s, y, input)
    ensures Denotes(Ite(c, a, b), s, if t then x else y, input)
  {
  }

  lemma SExtDenotes(a: Expr, x: nat, w: nat, n: nat, input: Input)
    requires w >= 1 && Denotes(a, BitVec(w), x, input)
    ensures Fits(x, w) && Denotes(SExt(a, n), BitVec(w + n), Wrap(ToSigned(x, w), w + n), input)
  {
    hide ToSigned, Pow2, Wrap;
  }

  lemma ZExtDenotes(a: Expr, x: nat, w: nat, n: nat, input: Input)
    requires w >= 1 && Denotes(a, BitVec(w), x, input)
    ensures Denotes(ZExt(a, n), BitVec(w + n), x, input)
  {
    hide Pow2;
  }

  lemma WrapSum(x: int, y: int, w: nat)
    ensures Wrap(Wrap(x, w) + Wrap(y, w), w) == Wrap(x + y, w)
    ensures Wrap(Wrap(x, w) - Wrap(y, w), w) == Wrap(x - y, w)
  {
    hide Wrap;
    WrapAdd(x, Wrap(y, w), w);
    WrapAdd(y, x, w);
    WrapAdd(x, 0 - Wrap(y, w), w);
    var q := WrapQuotient(y, w);
    WrapMultiple(x - y, q, w);
  }

  lemma WrapQuotient(x: int, w: nat) returns (q: int)
    ensures x == Wrap(x, w) + q * Pow2(w)
  {
    hide Pow2;
    WrapMod(x, w);
    DivMod(x, Pow2(w));
    q := x / Pow2(w);
  }

  /** The exact sum, product or difference. */
  function Exact(op: BvOp, x: int, y: int): (z: int)
  {
    match op
    case Add => x + y
    case Mul => x * y
    case _ => x - y
  }

  predicate Additive(op: BvOp) { op.Add? || op.Sub? }

  lemma SignedParts(op: BvOp, x: nat, y: nat, w: nat)
    requires Additive(op) && w >= 1 && Fits(x, w) && Fits(y, w)
    ensures BvApply(op, x, y, w) == Wrap(Exact(op, ToSigned(x, w), ToSigned(y, w)), w)
  {
    hide Pow2, Wrap, ToSigned;
    WrapSum(ToSigned(x, w), ToSigned(y, w), w);
  }

  lemma ExactFits(op: BvOp, x: int, y: int, w: nat)
    requires Additive(op) && w >= 1 && -Pow2(w - 1) <= x < Pow2(w - 1) && -Pow2(w - 1) <= y < Pow2(w - 1)
    ensures -Pow2(w) <= Exact(op, x, y) < Pow2(w)
  {
    Pow2Step(w);
  }

  /** With one more bit the signed sum and difference are exact. */
  lemma WideIsExact(op: BvOp, a: Expr, x: nat, b: Expr, y: nat, w: nat, input: Input)
    requires Additive(op) && w >= 1 && Denotes(a, BitVec(w), x, input) && Denotes(b, BitVec(w), y, input)
    ensures Fits(x, w) && Fits(y, w)
    ensures var z := Exact(op, ToSigned(x, w), ToSigned(y, w));
            -Pow2(w) <= z < Pow2(w) && Denotes(Arith(op, SExt(a, 1), SExt(b, 1)), BitVec(w + 1), Wrap(z, w + 1), input)
  {
    hide Pow2, Wrap, SExt, Arith, Denotes, ToSigned;
    SExtDenotes(a, x, w, 1, input);
    SExtDenotes(b, y, w, 1, input);
    var sx, sy := ToSigned(x, w), ToSigned(y, w);
    ExactFits(op, sx, sy, w);
    ArithDenotes(op, SExt(a, 1), Wrap(sx, w + 1), SExt(b, 1), Wrap(sy, w + 1), w + 1, input);
    WrapSum(sx, sy, w + 1);
  }

  /** Comparing with a sign-extended bound. */
  lemma WideCompare(r: Relation, wide: Expr, z: int, bound: int, v: nat, w: nat, input: Input)
    requires w >= 1 && Denotes(wide, BitVec(w + 1), Wrap(z, w + 1), input) && -Pow2(w) <= z < Pow2(w)
    requires -Pow2(w - 1) <= bound < Pow2(w - 1) && v == Wrap(bound, w) && (r.Sle? || r.Sge?)
    ensures Denotes(Compare(r, wide, SExt(Const(v, w), 1)), Bool, FlagOf(if r.Sle? then z <= bound else z >= bound), input)
  {
    hide Pow2, Wrap, SExt, Compare;
    ConstDenotes(v, w, input);
    SExtDenotes(Const(v, w), v, w, 1, input);
    WrapSigned(bound, w);
    Pow2Step(w);
    CompareDenotes(r, wide, Wrap(z, w + 1), SExt(Const(v, w), 1), Wrap(bound, w + 1), BitVec(w + 1), input);
    WrapSigned(z, w + 1);
    WrapSigned(bound, w + 1);
  }

  lemma MinBound(w: nat)
    requires w >= 1
    ensures Fits(Pow2(w - 1), w) && Wrap(-Pow2(w - 1), w) == Pow2(w - 1)
    ensures Fits(Pow2(w - 1) - 1, w)
  {
    hide Pow2;
    Pow2Step(w);
    WrapShift(-Pow2(w - 1), w);
  }

  /** What the builder makes of an exact result, with `top` as the largest number. */
  function Bounded(z: int, top: nat, w: nat): (r: int)
    requires w >= 1
  {
    if z <= -Pow2(w - 1) then -Pow2(w - 1) else if z >= top then top else z
  }

  lemma SignedSatValue(op: BvOp, a: Expr, x: nat, b: Expr, y: nat, w: nat, wild: nat, input: Input)
    requires Additive(op) && Buildable(w, wild) && Denotes(a, BitVec(w), x, input) && Denotes(b, BitVec(w), y, input)
    ensures Fits(x, w) && Fits(y, w)
    ensures Denotes(SignedSat(op, a, b, w, wild), BitVec(w),
                    Wrap(Bounded(Exact(op, ToSigned(x, w), ToSigned(y, w)), TopSigned(w, wild), w), w), input)
  {
    hide Pow2, Wrap, SExt, Compare, Arith, Denotes, Mask, BvApply;
    var wide, lo, top := Arith(op, SExt(a, 1), SExt(b, 1)), Pow2(w - 1), TopSigned(w, wild);
    WideIsExact(op, a, x, b, y, w, input);
    var z := Exact(op, ToSigned(x, w), ToSigned(y, w));
    MinBound(w);
    TopSignedIsRight(w, wild);
    ConstDenotes(lo, w, input);
    ConstDenotes(top, w, input);
    WideCompare(Sle, wide, z, -lo, lo, w, input);
    WideCompare(Sge, wide, z, top, top, w, input);
    ArithDenotes(op, a, x, b, y, w, input);
    SignedParts(op, x, y, w);
    var inner := Ite(Compare(Sge, wide, SExt(Const(top, w), 1)), Const(top, w), Arith(op, a, b));
    IteDenotes(Compare(Sge, wide, SExt(Const(top, w), 1)), z >= top, Const(top, w), top, Arith(op, a, b), BvApply(op, x, y, w), BitVec(w), input);
    IteDenotes(Compare(Sle, wide, SExt(Const(lo, w), 1)), z <= -lo, Const(lo, w), lo, inner,
               if z >= top then top else BvApply(op, x, y, w), BitVec(w), input);
  }

  lemma BoundedClamps(z: int, top: nat, w: nat)
    requires w >= 1 && top <= Pow2(w - 1) - 1
    ensures Wrap(Bounded(z, top, w), w) == ClampSigned(z, w) <==> z <= top || top == Pow2(w - 1) - 1
  {
    hide Pow2, Wrap, ToSigned;
    WrapSigned(Bounded(z, top, w), w);
    WrapSigned(Clamp(z, -Pow2(w - 1), Pow2(w - 1) - 1), w);
  }

  /** Signed saturating addition and subtraction clamp the exact result if and only if the
      result does not exceed the bound that was built, or that bound is right. */
  lemma SignedSatExactly(op: BvOp, a: Expr, x: nat, b: Expr, y: nat, w: nat, wild: nat, input: Input)
    requires Additive(op) && Buildable(w, wild) && Denotes(a, BitVec(w), x, input) && Denotes(b, BitVec(w), y, input)
    ensures Fits(x, w) && Fits(y, w)
    ensures Denotes(SignedSat(op, a, b, w, wild), BitVec(w), ClampSigned(Exact(op, ToSigned(x, w), ToSigned(y, w)), w), input)
       <==> Exact(op, ToSigned(x, w), ToSigned(y, w)) <= TopSigned(w, wild) || TopSigned(w, wild) == Pow2(w - 1) - 1
  {
    hide Pow2, Wrap, Denotes, SignedSat, Bounded, ClampSigned, Mask, ToSigned, Exact;
    SignedSatValue(op, a, x, b, y, w, wild, input);
    var z, top := Exact(op, ToSigned(x, w), ToSigned(y, w)), TopSigned(w, wild);
    TopSignedIsRight(w, wild);
    BoundedClamps(z, top, w);
    DenotesOne(SignedSat(op, a, b, w, wild), BitVec(w), Wrap(Bounded(z, top, w), w), ClampSigned(z, w), input);
  }

  /** Wherever the bounds are right, signed addition and subtraction saturate. */
  lemma SignedSatClamps(op: BvOp, a: Expr, x: nat, b: Expr, y: nat, w: nat, wild: nat, input: Input)
    requires Additive(op) && BoundsRight(w, wild) && Denotes(a, BitVec(w), x, input) && Denotes(b, BitVec(w), y, input)
    ensures Fits(x, w) && Fits(y, w)
    ensures Denotes(SignedSat(op, a, b, w, wild), BitVec(w), ClampSigned(Exact(op, ToSigned(x, w), ToSigned(y, w)), w), input)
  {
    hide Pow2, Wrap, Denotes, SignedSat, ClampSigned, Mask, ToSigned, Exact;
    SignedSatExactly(op, a, x, b, y, w, wild, input);
    TopSignedIsRight(w, wild);
  }

  // ---------------------------------------------------------------- unsigned

  lemma SumFits(x: nat, y: nat, w: nat)
    requires Fits(x, w) && Fits(y, w)
    ensures Fits(x + y, w + 1) && Pow2(w + 1) == 2 * Pow2(w)
  {
  }

  /** The top bit of a number of `w + 1` bits. */
  lemma TopBit(v: nat, w: nat)
    requires Fits(v, w + 1)
    ensures ExtractBits(v, w, w) == FlagOf(v >= Pow2(w))
  {
    Pow2Step(w + 1);
    if v >= Pow2(w) {
      DivModUnique(v, Pow2(w), 1, v - Pow2(w));
    } else {
      SmallMod(v, Pow2(w));
    }
    assert Pow2(1) == 2 * Pow2(0);
  }

  lemma TopBitDenotes(e: Expr, v: nat, w: nat, input: Input)
    requires Denotes(e, BitVec(w + 1), v, input)
    ensures Denotes(Extract(e, w, w), BitVec(1), FlagOf(v >= Pow2(w)), input)
  {
    hide Pow2, ExtractBits, Extract;
    ExtractDenotes(e, w + 1, v, w, w, input);
    TopBit(v, w);
  }

  lemma CarryDenotes(a: Expr, x: nat, b: Expr, y: nat, w: nat, input: Input)
    requires w >= 1 && Denotes(a, BitVec(w), x, input) && Denotes(b, BitVec(w), y, input)
    ensures Denotes(Extract(Arith(Add, ZExt(a, 1), ZExt(b, 1)), w, w), BitVec(1), FlagOf(x + y >= Pow2(w)), input)
  {
    hide Pow2, ZExt, Arith, Extract;
    ZExtDenotes(a, x, w, 1, input);
    ZExtDenotes(b, y, w, 1, input);
    ArithDenotes(Add, ZExt(a, 1), x, ZExt(b, 1), y, w + 1, input);
    SumFits(x, y, w);
    TopBitDenotes(Arith(Add, ZExt(a, 1), ZExt(b, 1)), x + y, w, input);
  }

  /** Unsigned saturating addition clamps if and only if the sum fits or the bound is right. */
  lemma UAddSatExactly(a: Expr, x: nat, b: Expr, y: nat, w: nat, wild: nat, input: Input)
    requires Buildable(w, wild) && Denotes(a, BitVec(w), x, input) && Denotes(b, BitVec(w), y, input)
    ensures Denotes(UAddSat(a, b, w, wild), BitVec(w), ClampUnsigned(x + y, w), input) <==> x + y < Pow2(w) || BoundsRight(w, wild)
  {
    hide Pow2, ZExt, Arith, Extract, Mask, BitToBool, Denotes, Wrap;
    var carry, top := Extract(Arith(Add, ZExt(a, 1), ZExt(b, 1)), w, w), Mask(w, wild);
    CarryDenotes(a, x, b, y, w, input);
    BitToBoolDenotes(carry, FlagOf(x + y >= Pow2(w)), input);
    MaskIsTop(w, wild);
    ConstDenotes(top, w, input);
    ArithDenotes(Add, a, x, b, y, w, input);
    var r := if x + y >= Pow2(w) then top else x + y;
    IteDenotes(BitToBool(carry), x + y >= Pow2(w), Const(top, w), top, Arith(Add, a, b), BvApply(Add, x, y, w), BitVec(w), input);
    DenotesOne(UAddSat(a, b, w, wild), BitVec(w), r, ClampUnsigned(x + y, w), input);
  }

  lemma USubSatClamps(a: Expr, x: nat, b: Expr, y: nat, w: nat, input: Input)
    requires w >= 1 && Denotes(a, BitVec(w), x, input) && Denotes(b, BitVec(w), y, input)
    ensures Denotes(USubSat(a, b, w), BitVec(w), ClampUnsigned(x - y, w), input)
  {
    hide Pow2, Arith, Compare, Denotes;
    CompareDenotes(Uge, a, x, b, y, BitVec(w), input);
    ArithDenotes(Sub, a, x, b, y, w, input);
    ConstDenotes(0, w, input);
    IteDenotes(Compare(Uge, a, b), x >= y, Arith(Sub, a, b), BvApply(Sub, x, y, w), Const(0, w), 0, BitVec(w), input);
  }

  // -------------------------------------------------------------- shift left

  /** Shifting back recovers the operand exactly when nothing was shifted out. */
  lemma ShiftDetects(sx: int, k: nat, w: nat)
    requires w >= 1 && k < w && -Pow2(w - 1) <= sx < Pow2(w - 1)
    ensures ToSigned(Wrap(sx * Pow2(k), w), w) / Pow2(k) == sx <==> -Pow2(w - 1) <= sx * Pow2(k) < Pow2(w - 1)
  {
    hide Wrap, ToSigned, Pow2;
    var full := sx * Pow2(k);
    var d := SignedWrap(full, w);
    Pow2Add(w - k, k);
    LostBits(sx, d, Pow2(w - k), Pow2(k), ToSigned(Wrap(full, w), w));
    if -Pow2(w - 1) <= full < Pow2(w - 1) {
      WrapSigned(full, w);
    }
  }

  lemma LostBits(sx: int, d: int, m: int, p: int, z: int)
    requires p > 0 && m > 0 && sx * p == z + d * (m * p)
    ensures z / p == sx - d * m
    ensures d == 0 ==> z == sx * p
    ensures d != 0 ==> z / p != sx
  {
    assert z == (sx - d * m) * p;
    DivModUnique(z, p, sx - d * m, 0);
  }

  lemma ShiftRange(sx: int, k: nat, w: nat)
    requires w >= 1 && -Pow2(w - 1) <= sx < Pow2(w - 1)
    ensures sx < 0 ==> sx * Pow2(k) < 0
    ensures sx >= 0 ==> sx * Pow2(k) >= 0
    ensures -Pow2(w - 1) <= sx / Pow2(k) < Pow2(w - 1)
  {
    hide Pow2;
    var p := Pow2(k);
    if sx < 0 {
      MulLeq(sx, -1, p);
      FloorOfNegative(-sx - 1, p);
      DivNat(-sx - 1, p);
    } else {
      MulLeq(0, sx, p);
      DivNat(sx, p);
    }
  }

  lemma ShlOfSigned(x: nat, k: nat, w: nat)
    requires w >= 1 && Fits(x, w) && k < w
    ensures BvShl(x, k, w) == Wrap(ToSigned(x, w) * Pow2(k), w)
  {
    hide Pow2, Wrap;
    var sx := ToSigned(x, w);
    if sx < 0 {
      assert x * Pow2(k) == sx * Pow2(k) + Pow2(k) * Pow2(w);
      WrapMultiple(sx * Pow2(k), Pow2(k), w);
    }
  }

  lemma ShiftBack(x: nat, k: nat, w: nat)
    requires w >= 1 && Fits(x, w) && k < w
    ensures BvAShr(BvShl(x, k, w), k, w) == x <==> -Pow2(w - 1) <= ToSigned(x, w) * Pow2(k) < Pow2(w - 1)
  {
    hide Pow2, Wrap, BvShl, BvAShr, ToSigned;
    var sx, v := ToSigned(x, w), BvShl(x, k, w);
    ShlOfSigned(x, k, w);
    AShrAgrees(v, k, w);
    ShiftDetects(sx, k, w);
    ShiftRange(ToSigned(v, w), k, w);
    WrapSigned(ToSigned(v, w) / Pow2(k), w);
  }

  lemma ShiftOverflowDenotes(a: Expr, x: nat, b: Expr, k: nat, w: nat, input: Input)
    requires w >= 1 && k < w && Denotes(a, BitVec(w), x, input) && Denotes(b, BitVec(w), k, input)
    ensures Fits(x, w)
    ensures Denotes(ShiftOverflow(a, b), Bool, FlagOf(!(-Pow2(w - 1) <= ToSigned(x, w) * Pow2(k) < Pow2(w - 1))), input)
  {
    hide Pow2, Arith, NotEqual, BvShl, BvAShr, ToSigned;
    ArithDenotes(Shl, a, x, b, k, w, input);
    ArithDenotes(AShr, Arith(Shl, a, b), BvShl(x, k, w), b, k, w, input);
    RelationDenotes(Eq, Arith(AShr, Arith(Shl, a, b), b), BvAShr(BvShl(x, k, w), k, w), a, x, BitVec(w), input);
    ShiftBack(x, k, w);
  }

  lemma SignBitDenotes(a: Expr, x: nat, w: nat, input: Input)
    requires w >= 1 && Denotes(a, BitVec(w), x, input)
    ensures Fits(x, w) && Denotes(BitToBool(Extract(a, w - 1, w - 1)), Bool, FlagOf(ToSigned(x, w) < 0), input)
  {
    hide Pow2, Extract, BitToBool;
    TopBitDenotes(a, x, w - 1, input);
    BitToBoolDenotes(Extract(a, w - 1, w - 1), FlagOf(x >= Pow2(w - 1)), input);
    Pow2Step(w);
  }

  /** Signed saturating shift clamps the product with the power of two, for every shift
      below the width, if and only if the product does not exceed the signed range
      upwards or the bound is right. */
  lemma SShlSatExactly(a: Expr, x: nat, b: Expr, k: nat, w: nat, wild: nat, input: Input)
    requires Buildable(w, wild) && k < w && Denotes(a, BitVec(w), x, input) && Denotes(b, BitVec(w), k, input)
    ensures Fits(x, w)
    ensures Denotes(SShlSat(a, b, w, wild), BitVec(w), ClampSigned(ToSigned(x, w) * Pow2(k), w), input)
       <==> ToSigned(x, w) * Pow2(k) < Pow2(w - 1) || TopSigned(w, wild) == Pow2(w - 1) - 1
  {
    hide Pow2, Arith, ShiftOverflow, Mask, BitToBool, Extract, Denotes, Wrap, ToSigned, BvShl;
    ShiftOverflowDenotes(a, x, b, k, w, input);
    var sx, lo, top := ToSigned(x, w), Pow2(w - 1), TopSigned(w, wild);
    var sign := BitToBool(Extract(a, w - 1, w - 1));
    SignBitDenotes(a, x, w, input);
    MinBound(w);
    TopSignedIsRight(w, wild);
    ConstDenotes(lo, w, input);
    ConstDenotes(top, w, input);
    ArithDenotes(Shl, a, x, b, k, w, input);
    ShlOfSigned(x, k, w);
    ShiftRange(sx, k, w);
    IteDenotes(sign, sx < 0, Const(lo, w), lo, Const(top, w), top, BitVec(w), input);
    var over := !(-lo <= sx * Pow2(k) < lo);
    IteDenotes(ShiftOverflow(a, b), over, Ite(sign, Const(lo, w), Const(top, w)), if sx < 0 then lo else top,
               Arith(Shl, a, b), BvShl(x, k, w), BitVec(w), input);
    DenotesOne(SShlSat(a, b, w, wild), BitVec(w), if over then (if sx < 0 then lo else top) else BvShl(x, k, w),
               ClampSigned(sx * Pow2(k), w), input);
    ShiftClamps(sx * Pow2(k), top, w);
  }

  lemma ShiftClamps(z: int, top: nat, w: nat)
    requires w >= 1 && top <= Pow2(w - 1) - 1
    ensures -Pow2(w - 1) <= z < Pow2(w - 1) ==> ClampSigned(z, w) == Wrap(z, w)
    ensures z < -Pow2(w - 1) ==> ClampSigned(z, w) == Pow2(w - 1)
    ensures z >= Pow2(w - 1) ==> ClampSigned(z, w) == Pow2(w - 1) - 1
  {
    hide Pow2, Wrap;
    MinBound(w);
  }

  /** The unsigned saturating shift uses the signed overflow test. It clamps if and only if
      the shift is by nothing, the shifted value stays below the sign bit, or the signed
      test reports an overflow and the bound that is built then happens to be the answer. */
  lemma UShlSatExactly(a: Expr, x: nat, b: Expr, k: nat, w: nat, wild: nat, input: Input)
    requires Buildable(w, wild) && k < w && Denotes(a, BitVec(w), x, input) && Denotes(b, BitVec(w), k, input)
    ensures Fits(x, w)
    ensures Denotes(UShlSat(a, b, w, wild), BitVec(w), ClampUnsigned(x * Pow2(k), w), input)
       <==> UShlRight(x, k, w, wild)
  {
    hide Pow2, Arith, ShiftOverflow, Mask, Denotes, Wrap, ToSigned, BvShl, SignedShiftFits;
    ShiftOverflowFits(a, x, b, k, w, input);
    var top := Mask(w, wild);
    MaskIsTop(w, wild);
    ConstDenotes(top, w, input);
    ArithDenotes(Shl, a, x, b, k, w, input);
    var r := if SignedShiftFits(x, k, w) then BvShl(x, k, w) else top;
    IteDenotes(ShiftOverflow(a, b), !SignedShiftFits(x, k, w), Const(top, w), top, Arith(Shl, a, b), BvShl(x, k, w), BitVec(w), input);
    UnsignedShiftCases(x, k, w, top);
    if x * Pow2(k) < Pow2(w) && k > 0 { ShiftedIsEven(x, k, w); }
    DenotesOne(UShlSat(a, b, w, wild), BitVec(w), r, ClampUnsigned(x * Pow2(k), w), input);
  }

  lemma ShiftOverflowFits(a: Expr, x: nat, b: Expr, k: nat, w: nat, input: Input)
    requires w >= 1 && k < w && Denotes(a, BitVec(w), x, input) && Denotes(b, BitVec(w), k, input)
    ensures Fits(x, w) && Denotes(ShiftOverflow(a, b), Bool, FlagOf(!SignedShiftFits(x, k, w)), input)
  {
    hide Pow2, ShiftOverflow, Denotes, ToSigned;
    ShiftOverflowDenotes(a, x, b, k, w, input);
  }

  lemma DenotesOne(e: Expr, s: Sort, v: nat, v': nat, input: Input)
    requires Denotes(e, s, v, input)
    ensures Denotes(e, s, v', input) <==> v == v'
  {
  }

  lemma UnsignedShiftCases(x: nat, k: nat, w: nat, top: nat)
    requires w >= 1 && Fits(x, w) && Fits(top, w) && k < w
    ensures 0 <= x * Pow2(k)
    ensures (if SignedShiftFits(x, k, w) then BvShl(x, k, w) else top) == ClampUnsigned(x * Pow2(k), w)
       <==> k == 0 || x * Pow2(k) < Pow2(w - 1) || (!SignedShiftFits(x, k, w) && top == ClampUnsigned(x * Pow2(k), w))
  {
    hide Pow2, Wrap;
    var p := Pow2(k);
    MulLeq(0, x, p);
    Pow2Step(w);
    if k == 0 {
      ShiftByNothing(x, w);
    } else {
      Pow2Step(k);
      ShiftedIsEven(x, k, w);
      if x >= Pow2(w - 1) { MulLeq(Pow2(w - 1), x, 2); MulLeq(2, p, x); }
    }
  }

  lemma ShiftByNothing(x: nat, w: nat)
    requires w >= 1 && Fits(x, w)
    ensures Pow2(0) == 1 && BvShl(x, 0, w) == x && SignedShiftFits(x, 0, w)
  {
  }

  lemma EvenParts(v: int, t: int, q: int, m: int)
    requires 2 * t == v + q * (2 * m)
    ensures v % 2 == 0
  {
    assert q * (2 * m) == 2 * (q * m);
  }

  lemma EvenProduct(x: int, h: int)
    ensures x * (2 * h) == 2 * (x * h)
  {
  }

  lemma WrapOfEven(t: int, w: nat)
    requires w >= 1
    ensures Wrap(2 * t, w) % 2 == 0
  {
    hide Pow2, Wrap;
    Pow2Step(w);
    var q := WrapQuotient(2 * t, w);
    EvenParts(Wrap(2 * t, w), t, q, Pow2(w - 1));
  }

  lemma ShiftedIsEven(x: nat, k: nat, w: nat)
    requires 1 <= k < w
    ensures BvShl(x, k, w) != Pow2(w) - 1
    ensures Fits(x * Pow2(k), w) ==> BvShl(x, k, w) == x * Pow2(k)
    ensures Pow2(w) % 2 == 0 && x * Pow2(k) % 2 == 0
  {
    hide Pow2, Wrap;
    Pow2Step(k);
    Pow2Step(w);
    EvenProduct(x, Pow2(k - 1));
    WrapOfEven(x * Pow2(k - 1), w);
  }

  // ----------------------------------------------------------- funnel shifts

  function FunnelShift(left: bool, a: Expr, b: Expr, c: Expr, w: nat): (e: Expr)
  {
    var shift := Arith(URem, c, Const(w, w));
    var shifted := if left then Arith(Shl, Concat(a, b), shift) else Arith(LShr, Concat(a, b), shift);
    Unary(Cut(0, w), shifted)
  }

  /** The solver rejects every funnel shift: the operands differ in width, and the bounds
      of the extraction are reversed. */
  lemma FunnelShiftRejected(left: bool, a: Expr, b: Expr, c: Expr, w: nat)
    requires w >= 1 && HasWidth(a, w) && HasWidth(b, w) && HasWidth(c, w)
    ensures SortOf(FunnelShift(left, a, b, c, w)) == None
    ensures SortOf(FunnelShift(left, a, b, c, w).arg) == None
  {
  }

  // -------------------------------------------------------------- at 64 bits

  /** At 64 bits unsigned addition saturates correctly for all operands if and only if
      the undefined shift happens to yield 0. */
  lemma UAddSatAt64(wild: nat, input: Input)
    requires Fits(wild, 64)
    ensures wild == 0 <==>
      forall x: nat, y: nat :: Fits(x, 64) && Fits(y, 64) ==>
        Denotes(UAddSat(Const(x, 64), Const(y, 64), 64, wild), BitVec(64), ClampUnsigned(x + y, 64), input)
  {
    hide Pow2, UAddSat, Denotes, ClampUnsigned;
    forall x: nat, y: nat | Fits(x, 64) && Fits(y, 64)
      ensures Denotes(UAddSat(Const(x, 64), Const(y, 64), 64, wild), BitVec(64), ClampUnsigned(x + y, 64), input)
         <==> x + y < Pow2(64) || wild == 0
    {
      ConstDenotes(x, 64, input);
      ConstDenotes(y, 64, input);
      UAddSatExactly(Const(x, 64), x, Const(y, 64), y, 64, wild, input);
    }
    var top := Pow2(64) - 1;
    assert Fits(top, 64) && Fits(1, 64);
    assert top + 1 >= Pow2(64);
  }

  /** Signed addition at 64 bits is right for all operands if and only if the undefined
      shift yields 0 or all ones. */
  lemma SAddSatAt64(wild: nat, input: Input)
    requires Fits(wild, 64)
    ensures wild == 0 || wild == Pow2(64) - 1 <==>
      forall x: nat, y: nat :: Fits(x, 64) && Fits(y, 64) ==>
        Denotes(SignedSat(Add, Const(x, 64), Const(y, 64), 64, wild), BitVec(64), ClampSigned(ToSigned(x, 64) + ToSigned(y, 64), 64), input)
  {
    hide Pow2, SignedSat, Denotes, ClampSigned, ToSigned, Mask;
    TopSignedIsRight(64, wild);
    var top := TopSigned(64, wild);
    forall x: nat, y: nat | Fits(x, 64) && Fits(y, 64)
      ensures Denotes(SignedSat(Add, Const(x, 64), Const(y, 64), 64, wild), BitVec(64), ClampSigned(ToSigned(x, 64) + ToSigned(y, 64), 64), input)
         <==> ToSigned(x, 64) + ToSigned(y, 64) <= top || top == Pow2(63) - 1
    {
      ConstDenotes(x, 64, input);
      ConstDenotes(y, 64, input);
      SignedSatExactly(Add, Const(x, 64), x, Const(y, 64), y, 64, wild, input);
    }
    LargestSigned();
  }

  lemma LargestSigned()
    ensures Fits(Pow2(63) - 1, 64) && Fits(0, 64) && ToSigned(Pow2(63) - 1, 64) == Pow2(63) - 1 && ToSigned(0, 64) == 0
  {
    hide Pow2;
    Pow2Step(64);
  }

  /** When the undefined shift yields 1, as it does where shift counts wrap around, 1 + 1
      saturates to 0 although nothing overflows. */
  lemma OnePlusOneIsZero(input: Input)
    ensures Denotes(SignedSat(Add, Const(1, 64), Const(1, 64), 64, 1), BitVec(64), 0, input) && ClampSigned(2, 64) == 2
  {
    hide Pow2, SignedSat, Denotes, Mask;
    Pow2Step(63);
    Pow2Step(62);
    Pow2Step(64);
    ConstDenotes(1, 64, input);
    MaskIsTop(64, 1);
    SignedSatValue(Add, Const(1, 64), 1, Const(1, 64), 1, 64, 1, input);
  }

  // -------------------------------------------------------- all intrinsic functions

  lemma SwapIsRight(a: Expr, x: nat, w: nat, input: Input)
    requires w >= 8 && w % 8 == 0 && Denotes(a, BitVec(w), x, input)
    ensures Denotes(ByteSwap(a, w / 8), BitVec(w), Number(Reversed(Bytes(x, w / 8))), input)
  {
    hide ByteSwap, Number, Reversed, Bytes, Shows;
    var n := w / 8;
    assert w == 8 * n;
    ShowsItself(a, x, n, input);
    ShowsByteSwap(a, Bytes(x, n), input);
    ShownValue(ByteSwap(a, n), Reversed(Bytes(x, n)), input);
  }

  lemma ShowsItself(a: Expr, x: nat, n: nat, input: Input)
    requires Denotes(a, BitVec(8 * n), x, input)
    ensures Shows(a, Bytes(x, n), input)
  {
  }

  lemma AbsIsRight(a: Expr, x: nat, w: nat, input: Input)
    requires w >= 1 && Denotes(a, BitVec(w), x, input)
    ensures Fits(x, w)
    ensures Denotes(AbsExpr(a, w), BitVec(w), Wrap(if ToSigned(x, w) < 0 then -ToSigned(x, w) else ToSigned(x, w), w), input)
  {
    hide Pow2, Arith, Compare, Wrap, Denotes, Holds, ToSigned;
    ConstDenotes(0, w, input);
    CompareDenotes(Sge, a, x, Const(0, w), 0, BitVec(w), input);
    ArithDenotes(Sub, Const(0, w), 0, a, x, w, input);
    SignOf(x, w);
    IteDenotes(Compare(Sge, a, Const(0, w)), ToSigned(x, w) >= 0, a, x, Arith(Sub, Const(0, w), a), BvApply(Sub, 0, x, w), BitVec(w), input);
  }

  lemma SignOf(x: nat, w: nat)
    requires w >= 1 && Fits(x, w)
    ensures Fits(0, w) && (Holds(Sge, x, 0, BitVec(w)) <==> ToSigned(x, w) >= 0)
    ensures ToSigned(x, w) >= 0 ==> Wrap(ToSigned(x, w), w) == x
    ensures ToSigned(x, w) < 0 ==> BvApply(Sub, 0, x, w) == Wrap(-ToSigned(x, w), w)
  {
    hide Pow2, Wrap;
    if ToSigned(x, w) < 0 { WrapShift(0 - x, w); }
  }

  lemma SaturateExactly(op: SatOp, signed: bool, a: Expr, x: nat, b: Expr, y: nat, w: nat, wild: nat, input: Input)
    requires Fits(wild, 64) && Denotes(a, BitVec(w), x, input) && Denotes(b, BitVec(w), y, input)
    requires IntrinsicDefined(Saturate(op, signed), y, w)
    ensures Fits(x, w) && Fits(y, w)
    ensures Denotes(SatExpr(op, signed, a, b, w, wild), BitVec(w), IntrinsicResult(Saturate(op, signed), x, y, w), input)
       <==> IntrinsicRight(Saturate(op, signed), x, y, w, wild)
  {
    hide Denotes, SignedSat, UAddSat, USubSat, SShlSat, UShlSat, ClampSigned, ClampUnsigned, ToSigned, Pow2, TopSigned, UShlRight, BoundsRight;
    OperandsFit(a, x, b, y, w, input);
    match (op, signed)
    case (SatAdd, true) => SignedSatExactly(Add, a, x, b, y, w, wild, input);
    case (SatSub, true) => SignedSatExactly(Sub, a, x, b, y, w, wild, input);
    case (SatShl, true) => SShlSatExactly(a, x, b, y, w, wild, input);
    case (SatAdd, false) => UAddSatExactly(a, x, b, y, w, wild, input);
    case (SatSub, false) => USubSatClamps(a, x, b, y, w, input);
    case (SatShl, false) => UShlSatExactly(a, x, b, y, w, wild, input);
  }

  lemma OperandsFit(a: Expr, x: nat, b: Expr, y: nat, w: nat, input: Input)
    requires Denotes(a, BitVec(w), x, input) && Denotes(b, BitVec(w), y, input)
    ensures Fits(x, w) && Fits(y, w)
  {
  }

  lemma WholeBytes(w: nat)
    requires w > 1 && w % 16 == 0
    ensures w >= 8 && w % 8 == 0
  {
    var q := w / 16;
    DivMod(w, 16);
    DivModUnique(w, 8, 2 * q, 0);
  }

  lemma SwapExact(a: Expr, x: nat, b: Expr, y: nat, w: nat, wild: nat, input: Input)
    requires Denotes(a, BitVec(w), x, input) && Fits(x, w) && Fits(y, w) && IntrinsicDefined(SwapBytes, y, w)
    ensures Denotes(IntrinsicExpr(SwapBytes, a, b, w, wild), BitVec(w), IntrinsicResult(SwapBytes, x, y, w), input)
  {
    hide Denotes, ByteSwap, Pow2, Number, Reversed, Bytes;
    WholeBytes(w);
    SwapIsRight(a, x, w, input);
  }

  lemma AbsExact(a: Expr, x: nat, b: Expr, y: nat, w: nat, wild: nat, input: Input)
    requires w > 1 && Denotes(a, BitVec(w), x, input) && Fits(x, w) && Fits(y, w)
    ensures Denotes(IntrinsicExpr(AbsValue, a, b, w, wild), BitVec(w), IntrinsicResult(AbsValue, x, y, w), input)
  {
    hide Denotes, AbsExpr, ToSigned, Pow2, Wrap;
    AbsIsRight(a, x, w, input);
  }

  /** Every intrinsic function: the expression that is built denotes the result if and only
      if the operands are among those that the builder gets right. */
  lemma IntrinsicExactly(f: IntrinsicFn, a: Expr, x: nat, b: Expr, y: nat, w: nat, wild: nat, input: Input)
    requires Fits(wild, 64) && Denotes(a, BitVec(w), x, input) && Denotes(b, BitVec(w), y, input) && IntrinsicDefined(f, y, w)
    ensures Fits(x, w) && Fits(y, w)
    ensures Denotes(IntrinsicExpr(f, a, b, w, wild), BitVec(w), IntrinsicResult(f, x, y, w), input)
       <==> IntrinsicRight(f, x, y, w, wild)
  {
    hide Denotes, SatExpr, Pow2, IntrinsicResult, UShlRight, TopSigned, BoundsRight, SatExact, ToSigned;
    OperandsFit(a, x, b, y, w, input);
    if f.Saturate? {
      SaturateExactly(f.op, f.signed, a, x, b, y, w, wild, input);
    } else {
      if f.SwapBytes? { SwapExact(a, x, b, y, w, wild, input); } else { AbsExact(a, x, b, y, w, wild, input); }
    }
  }
}
