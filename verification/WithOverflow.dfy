/** The builders for arithmetic with overflow: a pair of the wrapped result and a flag,
    laid out as the bitcode structure would be in memory. */
module WithOverflow {
  import opened Bits
  import opened Exprs
  import opened Builders
  import opened Symbolizer
  import opened Describing
  import opened OverflowChecks
  import opened Saturation

  // ------------------------------------------------------------- the builders

  /** What the byte swap asserts about the width of the result. */
  predicate PairWidth(n: nat, le: bool) { n >= 1 && (le ==> n % 2 == 0) }

  /** `buildOverflowResult` for a result of `n` bytes. */
  function Pair(result: Expr, flag: Expr, n: nat, le: bool): (e: Expr)
    requires PairWidth(n, le)
  {
    var memory := if le then ByteSwap(result, n) else result;
    var flagByte := ZExt(BoolToBit(flag), 7);
    if n == 1 then Concat(memory, flagByte)
    else Concat(memory, if le then Concat(flagByte, ZeroBytes(n - 1)) else Concat(ZeroBytes(n - 1), flagByte))
  }

  /** Bits added before the operation is repeated without loss. */
  function ExtraBits(op: BvOp, w: nat): (n: nat) { if op.Mul? then w else 1 }

  function Flag(op: BvOp, a: Expr, b: Expr, w: nat, signed: bool): (e: Expr)
    requires w >= 1
  {
    var n := ExtraBits(op, w);
    if signed then NotEqual(Arith(op, SExt(a, n), SExt(b, n)), SExt(Arith(op, a, b), n))
    else Compare(Eq, Extract(Arith(op, ZExt(a, n), ZExt(b, n)), w + n - 1, w + n - 1), Const(1, 1))
  }

  /** `_sym_build_add_overflow` and its siblings. */
  function BuildOverflow(op: BvOp, a: Expr, b: Expr, n: nat, signed: bool, le: bool): (e: Expr)
    requires PairWidth(n, le)
  {
    Pair(Arith(op, a, b), Flag(op, a, b, 8 * n, signed), n, le)
  }

  predicate Handled(op: BvOp) { op.Add? || op.Sub? || op.Mul? }

  // ----------------------------------------------------------------- the layout

  function FlagBytes(flag: bool, n: nat, le: bool): (s: seq<Byte>)
    requires n >= 1
    ensures |s| == n
  {
    if le then [FlagOf(flag)] + Zeros(n - 1) else Zeros(n - 1) + [FlagOf(flag)]
  }

  lemma FlagByteShows(flag: Expr, f: bool, input: Input)
    requires Denotes(flag, Bool, FlagOf(f), input)
    ensures Shows(ZExt(BoolToBit(flag), 7), [FlagOf(f)], input)
  {
    hide BoolToBit, ZExt, Shows;
    BoolToBitDenotes(flag, FlagOf(f), input);
    ZExtDenotes(BoolToBit(flag), FlagOf(f), 1, 7, input);
    ByteShows(ZExt(BoolToBit(flag), 7), FlagOf(f), input);
  }

  lemma PairShows(result: Expr, s: seq<Byte>, flag: Expr, f: bool, le: bool, input: Input)
    requires PairWidth(|s|, le) && Shows(result, s, input) && Denotes(flag, Bool, FlagOf(f), input)
    ensures Shows(Pair(result, flag, |s|, le), Ordered(s, le) + FlagBytes(f, |s|, le), input)
  {
    hide Shows, ByteSwap, Concat, ZExt, BoolToBit, ZeroBytes, Reversed;
    var n, flagByte, memory := |s|, ZExt(BoolToBit(flag), 7), if le then ByteSwap(result, |s|) else result;
    FlagByteShows(flag, f, input);
    assert Shows(memory, Ordered(s, le), input) by {
      if le { ShowsByteSwap(result, s, input); }
    }
    if n == 1 {
      assert Zeros(0) == [];
      assert FlagBytes(f, 1, le) == [FlagOf(f)];
      ShowsConcat(memory, Ordered(s, le), flagByte, [FlagOf(f)], input);
    } else {
      ShowsZeroBytes(n - 1, input);
      ShowsConcat(flagByte, [FlagOf(f)], ZeroBytes(n - 1), Zeros(n - 1), input);
      ShowsConcat(ZeroBytes(n - 1), Zeros(n - 1), flagByte, [FlagOf(f)], input);
      var rest := if le then Concat(flagByte, ZeroBytes(n - 1)) else Concat(ZeroBytes(n - 1), flagByte);
      ShowsConcat(memory, Ordered(s, le), rest, FlagBytes(f, n, le), input);
    }
  }

  /** The member at offset 0 is the result. */
  lemma PairResult(result: Expr, v: nat, flag: Expr, f: bool, n: nat, le: bool, input: Input)
    requires PairWidth(n, le) && Denotes(result, BitVec(8 * n), v, input) && Denotes(flag, Bool, FlagOf(f), input)
    ensures Denotes(ExtractMember(Pair(result, flag, n, le), 2 * n, 0, n, le), BitVec(8 * n), v, input)
  {
    hide Shows, Pair, ExtractMember, Denotes, Ordered, FlagBytes;
    var s := ImageOf(result, v, n, input);
    var all := Ordered(s, le) + FlagBytes(f, n, le);
    PairShows(result, s, flag, f, le, input);
    ShowsExtract(Pair(result, flag, n, le), all, 0, n, le, input);
    assert all[0..0 + n] == Ordered(s, le);
    OrderedTwice(s, le);
    ShownValue(ExtractMember(Pair(result, flag, n, le), 2 * n, 0, n, le), s, input);
  }

  lemma ImageOf(e: Expr, v: nat, n: nat, input: Input) returns (s: seq<Byte>)
    requires Denotes(e, BitVec(8 * n), v, input)
    ensures Shows(e, s, input) && |s| == n && Number(s) == v
  {
    s := Bytes(v, n);
    NumberOfBytes(v, n);
  }

  /** The byte behind the result is the flag if and only if the layout is little-endian,
      the result is a single byte, or the flag is not set. */
  lemma PairFlag(result: Expr, v: nat, flag: Expr, f: bool, n: nat, le: bool, input: Input)
    requires PairWidth(n, le) && Denotes(result, BitVec(8 * n), v, input) && Denotes(flag, Bool, FlagOf(f), input)
    ensures Denotes(ExtractMember(Pair(result, flag, n, le), 2 * n, n, 1, le), BitVec(8), FlagOf(f), input)
       <==> le || n == 1 || !f
  {
    hide Shows, Pair, ExtractMember, Denotes, Ordered, FlagBytes;
    var s := ImageOf(result, v, n, input);
    var all := Ordered(s, le) + FlagBytes(f, n, le);
    PairShows(result, s, flag, f, le, input);
    ShowsExtract(Pair(result, flag, n, le), all, n, 1, le, input);
    var b := FlagBytes(f, n, le)[0];
    assert all[n..n + 1] == [b];
    OneByteOrdered(b, le);
    OneByteNumber(b);
    FirstFlagByte(f, n, le);
    var e := ExtractMember(Pair(result, flag, n, le), 2 * n, n, 1, le);
    ShownValue(e, [b], input);
    DenotesOne(e, BitVec(8), b, FlagOf(f), input);
  }

  lemma FirstFlagByte(f: bool, n: nat, le: bool)
    requires n >= 1
    ensures FlagBytes(f, n, le)[0] == if le || n == 1 then FlagOf(f) else 0
  {
  }

  lemma OneByteOrdered(b: Byte, le: bool)
    ensures Ordered([b], le) == [b]
  {
  }

  lemma OneByteNumber(b: Byte)
    ensures Number([b]) == b
  {
    assert [b][..0] == [];
  }

  // ------------------------------------------------------------------- the flags

  lemma ProductRange(x: int, y: int, w: nat)
    requires w >= 1 && -Pow2(w - 1) <= x < Pow2(w - 1) && -Pow2(w - 1) <= y < Pow2(w - 1)
    ensures -Pow2(2 * w - 1) <= x * y < Pow2(2 * w - 1)
  {
    hide Pow2;
    var m := Pow2(w - 1);
    Pow2Add(w - 1, w - 1);
    Pow2Step(2 * w - 1);
    MagnitudeProduct(x, y, m);
  }

  lemma MagnitudeProduct(x: int, y: int, m: int)
    requires m >= 1 && -m <= x <= m && -m <= y <= m
    ensures 1 <= m * m && -(m * m) <= x * y <= m * m
  {
    MulLeq(1, m, m);
    if x >= 0 {
      MulLeq(x, m, m);
      if y >= 0 { MulLeq(y, m, x); } else { MulLeq(-y, m, x); assert x * y == -((-y) * x); }
    } else {
      MulLeq(-x, m, m);
      if y >= 0 { MulLeq(y, m, -x); assert x * y == -(y * (-x)); } else { MulLeq(-y, m, -x); assert x * y == (-y) * (-x); }
    }
  }

  /** With the extra bits the exact result fits. */
  lemma ExactRange(op: BvOp, x: int, y: int, w: nat)
    requires Handled(op) && w >= 1 && -Pow2(w - 1) <= x < Pow2(w - 1) && -Pow2(w - 1) <= y < Pow2(w - 1)
    ensures var m := Pow2(w + ExtraBits(op, w) - 1); -m <= Exact(op, x, y) < m
  {
    if op.Mul? { ProductRange(x, y, w); } else { Pow2Step(w); }
  }

  /** Every handled operation wraps the exact signed result. */
  lemma ApplySigned(op: BvOp, x: nat, y: nat, w: nat)
    requires Handled(op) && w >= 1 && Fits(x, w) && Fits(y, w)
    ensures BvApply(op, x, y, w) == Wrap(Exact(op, ToSigned(x, w), ToSigned(y, w)), w)
  {
    hide Pow2, Wrap, ToSigned;
    if op.Mul? { ProductPattern(x, y, w); } else { SignedParts(op, x, y, w); }
  }

  lemma SignedWideDenotes(op: BvOp, a: Expr, x: nat, b: Expr, y: nat, w: nat, n: nat, input: Input)
    requires Handled(op) && w >= 1 && Denotes(a, BitVec(w), x, input) && Denotes(b, BitVec(w), y, input)
    ensures Fits(x, w) && Fits(y, w)
    ensures Denotes(Arith(op, SExt(a, n), SExt(b, n)), BitVec(w + n), Wrap(Exact(op, ToSigned(x, w), ToSigned(y, w)), w + n), input)
  {
    hide Pow2, Wrap, ToSigned, SExt, Arith, Denotes, BvApply, Exact;
    SExtDenotes(a, x, w, n, input);
    SExtDenotes(b, y, w, n, input);
    var sx, sy := ToSigned(x, w), ToSigned(y, w);
    SignedRangeMore(sx, w, w + n);
    SignedRangeMore(sy, w, w + n);
    WrapSigned(sx, w + n);
    WrapSigned(sy, w + n);
    ArithDenotes(op, SExt(a, n), Wrap(sx, w + n), SExt(b, n), Wrap(sy, w + n), w + n, input);
    ApplySigned(op, Wrap(sx, w + n), Wrap(sy, w + n), w + n);
  }

  lemma SignedRangeMore(x: int, w: nat, w': nat)
    requires 1 <= w <= w' && -Pow2(w - 1) <= x < Pow2(w - 1)
    ensures -Pow2(w' - 1) <= x < Pow2(w' - 1)
  {
    Pow2Monotone(w - 1, w' - 1);
  }

  lemma SameAsWide(z: int, w: nat, w': nat)
    requires 1 <= w <= w' && -Pow2(w' - 1) <= z < Pow2(w' - 1)
    ensures Wrap(z, w') != Wrap(ToSigned(Wrap(z, w), w), w') <==> SignedOutOfRange(z, w)
  {
    hide Pow2, Wrap, ToSigned;
    var s := ToSigned(Wrap(z, w), w);
    SignedRangeMore(s, w, w');
    WrapSigned(z, w');
    WrapSigned(s, w');
    if !SignedOutOfRange(z, w) { WrapSigned(z, w); }
  }

  /** The signed flags are exact. */
  lemma SignedFlagExact(op: BvOp, a: Expr, x: nat, b: Expr, y: nat, w: nat, input: Input)
    requires Handled(op) && w >= 1 && Denotes(a, BitVec(w), x, input) && Denotes(b, BitVec(w), y, input)
    ensures Fits(x, w) && Fits(y, w)
    ensures Denotes(Flag(op, a, b, w, true), Bool, FlagOf(SignedOutOfRange(Exact(op, ToSigned(x, w), ToSigned(y, w)), w)), input)
  {
    hide Pow2, Wrap, ToSigned, SExt, Arith, Denotes, BvApply, Exact, NotEqual, SignedOutOfRange;
    var n := ExtraBits(op, w);
    SignedWideDenotes(op, a, x, b, y, w, n, input);
    var z := Exact(op, ToSigned(x, w), ToSigned(y, w));
    ArithDenotes(op, a, x, b, y, w, input);
    ApplySigned(op, x, y, w);
    SExtDenotes(Arith(op, a, b), Wrap(z, w), w, n, input);
    RelationDenotes(Eq, Arith(op, SExt(a, n), SExt(b, n)), Wrap(z, w + n), SExt(Arith(op, a, b), n),
                    Wrap(ToSigned(Wrap(z, w), w), w + n), BitVec(w + n), input);
    ExactRange(op, ToSigned(x, w), ToSigned(y, w), w);
    SameAsWide(z, w, w + n);
  }

  lemma UnsignedWideDenotes(op: BvOp, a: Expr, x: nat, b: Expr, y: nat, w: nat, n: nat, input: Input)
    requires Handled(op) && w >= 1 && Denotes(a, BitVec(w), x, input) && Denotes(b, BitVec(w), y, input)
    ensures Denotes(Arith(op, ZExt(a, n), ZExt(b, n)), BitVec(w + n), Wrap(Exact(op, x, y), w + n), input)
  {
    hide Pow2, Wrap, ZExt, Arith, Denotes;
    ZExtDenotes(a, x, w, n, input);
    ZExtDenotes(b, y, w, n, input);
    ArithDenotes(op, ZExt(a, n), x, ZExt(b, n), y, w + n, input);
  }

  /** When the top bit of the unsigned result is set. */
  predicate TopBitSet(op: BvOp, x: nat, y: nat, w: nat)
    requires w >= 1
  {
    match op
    case Add => x + y >= Pow2(w)
    case Sub => x < y
    case _ => x * y >= Pow2(2 * w - 1)
  }

  lemma UnsignedTop(op: BvOp, x: nat, y: nat, w: nat)
    requires Handled(op) && w >= 1 && Fits(x, w) && Fits(y, w)
    ensures var n := ExtraBits(op, w); Wrap(Exact(op, x, y), w + n) >= Pow2(w + n - 1) <==> TopBitSet(op, x, y, w)
  {
    hide Wrap, Pow2;
    var n, z := ExtraBits(op, w), Exact(op, x, y);
    Pow2Step(w + n);
    if op.Sub? {
      if x < y { WrapShift(z, w + 1); }
    } else if op.Mul? {
      ProductBelow(x, y, w);
    }
  }

  lemma ProductBelow(x: nat, y: nat, w: nat)
    requires Fits(x, w) && Fits(y, w)
    ensures Fits(x * y, 2 * w)
  {
    Pow2Add(w, w);
    if x > 0 {
      MulLeq(x, Pow2(w), y);
      MulLeq(y, Pow2(w), Pow2(w));
      MulStrict(x, y, Pow2(w));
    }
  }

  lemma MulStrict(x: nat, y: nat, m: int)
    requires x < m && y < m
    ensures 0 <= x * y < m * m
  {
    MulLeq(x, m - 1, y);
    MulLeq(y, m - 1, m - 1);
    assert (m - 1) * (m - 1) == m * m - 2 * m + 1;
  }

  /** The unsigned flag is set if and only if the top bit of the wide result is. */
  lemma UnsignedFlag(op: BvOp, a: Expr, x: nat, b: Expr, y: nat, w: nat, input: Input)
    requires Handled(op) && w >= 1 && Denotes(a, BitVec(w), x, input) && Denotes(b, BitVec(w), y, input)
    ensures Denotes(Flag(op, a, b, w, false), Bool, FlagOf(TopBitSet(op, x, y, w)), input)
  {
    hide Pow2, Wrap, ZExt, Arith, Denotes, Compare, Extract, TopBitSet, Exact;
    var n := ExtraBits(op, w);
    var wide := Arith(op, ZExt(a, n), ZExt(b, n));
    OperandFits(a, x, w, input);
    OperandFits(b, y, w, input);
    UnsignedWideDenotes(op, a, x, b, y, w, n, input);
    TopBitDenotes(wide, Wrap(Exact(op, x, y), w + n), w + n - 1, input);
    UnsignedTop(op, x, y, w);
    EqualsOne(Extract(wide, w + n - 1, w + n - 1), TopBitSet(op, x, y, w), input);
  }

  lemma OperandFits(a: Expr, x: nat, w: nat, input: Input)
    requires Denotes(a, BitVec(w), x, input)
    ensures Fits(x, w)
  {
  }

  lemma EqualsOne(e: Expr, f: bool, input: Input)
    requires Denotes(e, BitVec(1), FlagOf(f), input)
    ensures Denotes(Compare(Eq, e, Const(1, 1)), Bool, FlagOf(f), input)
  {
    hide Compare;
    assert Pow2(1) == 2 * Pow2(0);
    ConstDenotes(1, 1, input);
    CompareDenotes(Eq, e, FlagOf(f), Const(1, 1), 1, BitVec(1), input);
  }

  /** Exact for sums and differences. A product's flag means overflow too, but is missing
      for products between `2^w` and `2^(2w - 1)`: it is exact for given operands if and
      only if their product lies outside that interval. */
  lemma UnsignedFlagExactly(op: BvOp, x: nat, y: nat, w: nat)
    requires Handled(op) && w >= 1 && Fits(x, w) && Fits(y, w)
    ensures TopBitSet(op, x, y, w) ==> UnsignedOutOfRange(Exact(op, x, y), w)
    ensures (TopBitSet(op, x, y, w) <==> UnsignedOutOfRange(Exact(op, x, y), w))
       <==> !op.Mul? || !(Pow2(w) <= x * y < Pow2(2 * w - 1))
  {
    hide Pow2;
    Pow2Monotone(w, 2 * w - 1);
    MulLeq(0, x, y);
  }

  /** A product that overflows without raising the flag exists at every width above one. */
  lemma UnsignedMulMisses(w: nat) returns (x: nat, y: nat)
    requires w >= 2
    ensures Fits(x, w) && Fits(y, w) && UnsignedOutOfRange(x * y, w) && !TopBitSet(Mul, x, y, w)
  {
    hide Pow2;
    x, y := Pow2(w - 1), 2;
    Pow2Step(w);
    Pow2Step(w - 1);
    Pow2Monotone(w + 1, 2 * w - 1);
    Pow2Step(w + 1);
  }

  /** The whole result: the wrapped value first, then the flag. */
  lemma OverflowPair(op: BvOp, a: Expr, x: nat, b: Expr, y: nat, n: nat, signed: bool, input: Input)
    requires Handled(op) && PairWidth(n, true) && Denotes(a, BitVec(8 * n), x, input) && Denotes(b, BitVec(8 * n), y, input)
    ensures Fits(x, 8 * n) && Fits(y, 8 * n)
    ensures var e, w := BuildOverflow(op, a, b, n, signed, true), 8 * n;
            var f := if signed then SignedOutOfRange(Exact(op, ToSigned(x, w), ToSigned(y, w)), w) else TopBitSet(op, x, y, w);
            Denotes(ExtractMember(e, 2 * n, 0, n, true), BitVec(w), Wrap(Exact(op, x, y), w), input) &&
            Denotes(ExtractMember(e, 2 * n, n, 1, true), BitVec(8), FlagOf(f), input)
  {
    hide Pow2, Wrap, Denotes, Pair, Flag, ExtractMember, Arith, SignedOutOfRange, TopBitSet;
    var w := 8 * n;
    OperandFits(a, x, w, input);
    OperandFits(b, y, w, input);
    ArithDenotes(op, a, x, b, y, w, input);
    if signed { SignedFlagExact(op, a, x, b, y, w, input); } else { UnsignedFlag(op, a, x, b, y, w, input); }
    var f := if signed then SignedOutOfRange(Exact(op, ToSigned(x, w), ToSigned(y, w)), w) else TopBitSet(op, x, y, w);
    PairResult(Arith(op, a, b), BvApply(op, x, y, w), Flag(op, a, b, w, signed), f, n, true, input);
    PairFlag(Arith(op, a, b), BvApply(op, x, y, w), Flag(op, a, b, w, signed), f, n, true, input);
  }
}
