/** Each runtime builder, applied to expressions that describe its operands,
    describes the result of the corresponding instruction. */
module Describing {
  import opened Bits
  import opened Exprs
  import opened Builders
  import opened IR
  import opened Handlers
  import opened Symbolizer
  import opened Instrumentation

  /** `createValueExpression` describes every integer, 128-bit ones included. */
  lemma ValueExprDescribes(v: Val, input: Input)
    ensures Describes(ValueExpr(v), v, input)
  {
    if v.width == 1 {
      BitOfBool(v.bits);
    } else if v.width == 128 {
      var hi, lo := Shr(v.bits, 64), Wrap(v.bits, 64);
      ShrBound(v.bits, 64, 64);
      ConcatDenotes(Const(hi, 64), 64, hi, Const(lo, 64), 64, lo, input);
      ShrWrapAppend(v.bits, 64);
    }
  }

  lemma CompletedDescribes(args: seq<Val>, syms: seq<SymExpr>, input: Input)
    requires |args| == |syms| && forall k :: 0 <= k < |args| ==> DescribesIfAny(syms[k], args[k], input)
    ensures forall k :: 0 <= k < |args| ==> Describes(Completed(args, syms)[k], args[k], input)
  {
    hide Describes, ValueExpr;
    forall k | 0 <= k < |args|
      ensures Describes(Completed(args, syms)[k], args[k], input)
    {
      ValueExprDescribes(args[k], input);
    }
  }

  // ----------------------------------------------------- one builder at a time

  lemma ArithDenotes(op: BvOp, a: Expr, x: nat, b: Expr, y: nat, w: nat, input: Input)
    requires w >= 1 && Denotes(a, BitVec(w), x, input) && Denotes(b, BitVec(w), y, input)
    ensures Fits(x, w) && Fits(y, w) && Denotes(Arith(op, a, b), BitVec(w), BvApply(op, x, y, w), input)
  {
    hide BvApply;
  }

  lemma BinaryDescribes(op: Opcode, w: nat, a: Expr, x: Val, b: Expr, y: Val, input: Input)
    requires Describes(a, x, input) && Describes(b, y, input) && x.width == w && BinaryValue(op, x, y).Some?
    ensures Describes(CallRuntime(BinaryFn(op, w), a, b), BinaryValue(op, x, y).value, input)
  {
    hide Calculate, BvApply, Defined;
    if w == 1 {
      LogicAgrees(op, x.bits, y.bits);
    } else {
      ArithDenotes(BinaryHandler(op), a, x.bits, b, y.bits, w, input);
      ArithmeticAgrees(op, x.bits, y.bits, w);
    }
  }

  lemma CompareDenotes(r: Relation, a: Expr, x: nat, b: Expr, y: nat, s: Sort, input: Input)
    requires Denotes(a, s, x, input) && Denotes(b, s, y, input) && (r.Eq? || s.BitVec?)
    ensures Range(x, s) && Range(y, s) && (s.BitVec? ==> s.width >= 1)
    ensures Denotes(Compare(r, a, b), Bool, FlagOf(Holds(r, x, y, s)), input)
  {
    hide Holds, ToSigned, Pow2;
  }

  lemma RelationDenotes(r: Relation, a: Expr, x: nat, b: Expr, y: nat, s: Sort, input: Input)
    requires Denotes(a, s, x, input) && Denotes(b, s, y, input) && (r.Eq? || s.BitVec?)
    ensures Range(x, s) && Range(y, s) && (s.BitVec? ==> s.width >= 1)
    ensures Denotes(Compare(r, a, b), Bool, FlagOf(Holds(r, x, y, s)), input)
    ensures Denotes(NotEqual(a, b), Bool, FlagOf(x != y), input)
  {
    hide Holds, Compare, Not, Denotes;
    CompareDenotes(r, a, x, b, y, s, input);
    CompareDenotes(Eq, a, x, b, y, s, input);
    HoldsEq(x, y, s);
    NotDenotes(Compare(Eq, a, b), x == y, input);
  }

  lemma HoldsEq(x: nat, y: nat, s: Sort)
    requires Range(x, s) && Range(y, s)
    ensures Holds(Eq, x, y, s) <==> x == y
  {
  }

  lemma ComparisonDescribes(p: Predicate, a: Expr, x: Val, b: Expr, y: Val, input: Input)
    requires Describes(a, x, input) && Describes(b, y, input) && Comparison(p, x, y).Some?
    ensures Describes(CallRuntime(ComparisonFn(p), a, b), Comparison(p, x, y).value, input)
  {
    hide Holds, ToSigned, Satisfies, Compare, Not, Eval, SortOf;
    var s, h := SortFor(x.width), ComparisonHandler(p);
    RelationDenotes(if h.Some? then h.value else Eq, a, x.bits, b, y.bits, s, input);
    ComparisonAgrees(p, x.bits, y.bits, x.width);
    HoldsEq(x.bits, y.bits, s);
    HoldsEq(x.bits, y.bits, BitVec(x.width));
  }

  lemma BoolToBitDenotes(a: Expr, x: nat, input: Input)
    requires Denotes(a, Bool, x, input)
    ensures Denotes(BoolToBit(a), BitVec(1), x, input)
  {
    assert Pow2(1) == 2 * Pow2(0);
  }

  lemma ExtendDenotes(k: CastKind, a: Expr, x: nat, w: nat, n: nat, input: Input)
    requires w >= 1 && Denotes(a, BitVec(w), x, input)
    ensures Fits(x, w)
    ensures Denotes(CallRuntime(ExtendFn(k, n), a, a), BitVec(w + n), if k.SignExt? then SignExtend(x, w, n) else x, input)
  {
    hide SignExtend, ToSigned, Pow2, Wrap;
  }

  lemma TruncDenotes(a: Expr, x: nat, w: nat, to: nat, input: Input)
    requires 1 <= to < w && Denotes(a, BitVec(w), x, input)
    ensures Denotes(TruncTo(a, to), BitVec(to), Wrap(x, to), input)
  {
    ExtractDenotes(a, w, x, to - 1, 0, input);
    assert Shr(x, 0) == x;
  }

  lemma BitToBoolDenotes(a: Expr, x: nat, input: Input)
    requires Denotes(a, BitVec(1), x, input)
    ensures Denotes(BitToBool(a), Bool, x, input)
  {
    hide Holds;
    BitOfBool(x);
    RelationDenotes(Eq, a, x, Const(0, 1), 0, BitVec(1), input);
  }

  lemma MeaningOfOne(fn: RuntimeFn, a: Arg, b: Arg, ops: seq<Expr>)
    requires ArgOk(a, |ops|, 0) && ArgOk(b, |ops|, 0)
    ensures ComputationOk(One(fn, a, b), |ops|)
    ensures Meaning(One(fn, a, b), ops) == CallRuntime(fn, ArgExpr(a, ops, []), ArgExpr(b, ops, []))
  {
    hide CallRuntime;
    var calls := [Call(fn, a, b)];
    assert RunCalls(calls[..0], ops) == [];
  }

  lemma RunAppended(calls: seq<Call>, c: Call, ops: seq<Expr>)
    requires CallsOk(calls, |ops|) && ArgOk(c.a, |ops|, |calls|) && ArgOk(c.b, |ops|, |calls|)
    ensures CallsOk(calls + [c], |ops|)
    ensures var rs := RunCalls(calls, ops);
            RunCalls(calls + [c], ops) == rs + [CallRuntime(c.fn, ArgExpr(c.a, ops, rs), ArgExpr(c.b, ops, rs))]
  {
    hide CallRuntime, ArgExpr;
    assert (calls + [c])[..|calls|] == calls;
  }

  /** Merging a call onto a computation: earlier results keep their meaning. */
  lemma MeaningOfMerge(c: Computation, call: Call, ops: seq<Expr>)
    requires ComputationOk(c, |ops|) && ArgOk(call.a, |ops|, |c.calls|) && ArgOk(call.b, |ops|, |c.calls|)
    ensures ComputationOk(Merge(c, call), |ops|)
    ensures var rs := RunCalls(c.calls, ops);
            Meaning(Merge(c, call), ops) == CallRuntime(call.fn, ArgExpr(call.a, ops, rs), ArgExpr(call.b, ops, rs))
    ensures ComputationOk(Merge(c, call).(result := c.result), |ops|)
    ensures Meaning(Merge(c, call).(result := c.result), ops) == Meaning(c, ops)
  {
    hide CallRuntime;
    RunAppended(c.calls, call, ops);
  }

  lemma CastDescribes(k: CastKind, from: nat, to: nat, a: Expr, x: Val, input: Input)
    requires Describes(a, x, input) && Convert(k, x, from, to).Some?
    ensures ComputationOk(CastChain(k, from, to), 1)
    ensures Describes(Meaning(CastChain(k, from, to), [a]), Convert(k, x, from, to).value, input)
  {
    hide Describes, Meaning, ComputationOk, CallRuntime, BoolToBit, TruncTo, BitToBool, One, Merge, SignExtend;
    if k.Truncate? {
      TruncCastDescribes(from, to, a, x, input);
    } else if from == 1 {
      BoolCastDescribes(k, to, a, x, input);
    } else {
      ExtendCastDescribes(k, from, to, a, x, input);
    }
  }

  lemma ExtendCastDescribes(k: CastKind, from: nat, to: nat, a: Expr, x: Val, input: Input)
    requires !k.Truncate? && from > 1 && Describes(a, x, input) && Convert(k, x, from, to).Some?
    ensures ComputationOk(CastChain(k, from, to), 1)
    ensures Describes(Meaning(CastChain(k, from, to), [a]), Convert(k, x, from, to).value, input)
  {
    hide Meaning, ComputationOk, CallRuntime, SignExtend, One, Eval, SortOf;
    MeaningOfOne(ExtendFn(k, to - from), In(0), In(0), [a]);
    ExtendDenotes(k, a, x.bits, from, to - from, input);
  }

  lemma BoolCastDescribes(k: CastKind, to: nat, a: Expr, x: Val, input: Input)
    requires !k.Truncate? && Describes(a, x, input) && Convert(k, x, 1, to).Some?
    ensures ComputationOk(CastChain(k, 1, to), 1)
    ensures Describes(Meaning(CastChain(k, 1, to), [a]), Convert(k, x, 1, to).value, input)
  {
    hide Meaning, ComputationOk, CallRuntime, SignExtend, BoolToBit, Eval, SortOf;
    var c, ext := One(BuildBoolToBit, In(0), In(0)), ExtendFn(k, to - 1);
    BoolBitChain(a, ext);
    BoolToBitDenotes(a, x.bits, input);
    ExtendDenotes(k, BoolToBit(a), x.bits, 1, to - 1, input);
  }

  lemma BoolBitChain(a: Expr, ext: RuntimeFn)
    ensures ComputationOk(Merge(One(BuildBoolToBit, In(0), In(0)), Call(ext, Res(0), Res(0))), 1)
    ensures Meaning(Merge(One(BuildBoolToBit, In(0), In(0)), Call(ext, Res(0), Res(0))), [a])
         == CallRuntime(ext, BoolToBit(a), BoolToBit(a))
  {
    hide BoolToBit;
    var c := One(BuildBoolToBit, In(0), In(0));
    MeaningOfOne(BuildBoolToBit, In(0), In(0), [a]);
    MeaningOfMerge(c, Call(ext, Res(0), Res(0)), [a]);
  }

  lemma TruncCastDescribes(from: nat, to: nat, a: Expr, x: Val, input: Input)
    requires Describes(a, x, input) && Convert(Truncate, x, from, to).Some?
    ensures ComputationOk(CastChain(Truncate, from, to), 1)
    ensures Describes(Meaning(CastChain(Truncate, from, to), [a]), Convert(Truncate, x, from, to).value, input)
  {
    hide Meaning, ComputationOk, TruncTo, BitToBool, Eval, SortOf;
    TruncDenotes(a, x.bits, from, to, input);
    MeaningOfOne(BuildTrunc(to), In(0), In(0), [a]);
    if to == 1 {
      TruncBoolChain(a);
      BitToBoolDenotes(TruncTo(a, 1), Wrap(x.bits, 1), input);
    }
  }

  lemma TruncBoolChain(a: Expr)
    ensures ComputationOk(CastChain(Truncate, 0, 1), 1)
    ensures Meaning(CastChain(Truncate, 0, 1), [a]) == BitToBool(TruncTo(a, 1))
  {
    hide TruncTo, BitToBool;
    var c := One(BuildTrunc(1), In(0), In(0));
    MeaningOfOne(BuildTrunc(1), In(0), In(0), [a]);
    MeaningOfMerge(c, Call(BuildBitToBool, Res(0), Res(0)), [a]);
  }

  // --------------------------------------------- what the solver does not accept

  /** Ordered comparisons of Booleans: the expressions are of the Boolean sort, for which
      the solver has no order. */
  lemma OrderedBoolRejected(r: Relation, a: Expr, b: Expr)
    requires !r.Eq? && SortOf(a) == Some(Bool) && SortOf(b) == Some(Bool)
    ensures SortOf(Compare(r, a, b)) == None
  {
  }

  /** Constants between 65 and 127 bits are put together from two 64-bit halves, so they
      have 128 bits, and operations that combine them with operands of the right width are
      rejected. */
  lemma WideConstantRejected(v: nat, w: nat, op: BvOp, b: Expr)
    requires 64 < w < 128 && Fits(v, w) && HasWidth(b, w)
    ensures var c := Concat(Const(Shr(v, 64), 64), Const(Wrap(v, 64), 64));
            SortOf(c) == Some(BitVec(128)) && SortOf(Arith(op, c, b)) == None
  {
    hide Pow2, Wrap, Shr;
    ShrBound(v, 64, w - 64);
    Pow2Monotone(w - 64, 64);
  }
}
