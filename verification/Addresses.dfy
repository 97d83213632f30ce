/** The symbolic address computation, against the address that the concrete
    instruction computes. */
module Addresses {
  import opened Bits
  import opened Exprs
  import opened IR
  import opened Symbolizer
  import opened Instrumentation
  import opened Describing

  /** The offset that the emitted chain adds up: indices are taken as unsigned. */
  function BuiltOffset(steps: seq<Step>, idx: seq<Val>, ptrBits: nat): (d: int)
    requires IndicesFit(steps, idx, ptrBits)
  {
    if steps == [] then 0
    else match steps[0]
      case Field(_, off) => off + BuiltOffset(steps[1..], idx, ptrBits)
      case Elem(_, _, size) => idx[0].bits * size + BuiltOffset(steps[1..], idx[1..], ptrBits)
  }

  lemma {:induction false} BuiltIsSkewed(steps: seq<Step>, idx: seq<Val>, p: nat, a: int)
    requires IndicesFit(steps, idx, p)
    ensures Wrap(a + BuiltOffset(steps, idx, p), p) == Wrap(a + Displacement(steps, idx, p) + Skew(steps, idx, p), p)
  {
    hide Wrap, Pow2;
    if steps != [] {
      match steps[0]
      case Field(_, off) =>
        BuiltIsSkewed(steps[1..], idx, p, a + off);
      case Elem(_, w, size) =>
        var u, s := idx[0].bits, ToSigned(idx[0].bits, w);
        var rest := a + u * size;
        BuiltIsSkewed(steps[1..], idx[1..], p, rest);
        var tail := Displacement(steps[1..], idx[1..], p) + Skew(steps[1..], idx[1..], p);
        UnsignedIndex(u, w, size);
        if s < 0 && w == p {
          WrapMultiple(a + s * size + tail, size, p);
        }
    }
  }

  lemma UnsignedIndex(u: nat, w: nat, size: nat)
    requires w >= 1 && Fits(u, w)
    ensures u * size == ToSigned(u, w) * size + if ToSigned(u, w) < 0 then size * Pow2(w) else 0
  {
    var p := Pow2(w);
    if u >= Pow2(w - 1) {
      assert (u - p) * size + size * p == u * size;
    }
  }

  // --------------------------------------------------------- the emitted chain

  lemma {:induction false} RunPrefix(calls: seq<Call>, n: nat, ops: seq<Expr>)
    requires CallsOk(calls, |ops|) && n <= |calls|
    ensures CallsOk(calls[..n], |ops|) && RunCalls(calls[..n], ops) == RunCalls(calls, ops)[..n]
  {
    hide CallRuntime, ArgExpr;
    if n < |calls| {
      var m := |calls| - 1;
      assert calls[..m][..n] == calls[..n];
      RunPrefix(calls[..m], n, ops);
    } else {
      assert calls[..n] == calls;
    }
  }

  lemma InputsLast(calls: seq<Call>, c: Call)
    ensures ChainInputs(calls + [c]) == ChainInputs(calls) + CallInputs(c)
  {
    hide CallInputs;
    assert (calls + [c])[..|calls|] == calls;
  }

  lemma {:induction false} InputsAppend(a: seq<Call>, b: seq<Call>)
    ensures ChainInputs(a + b) == ChainInputs(a) + ChainInputs(b)
  {
    hide CallInputs, ChainInputs;
    if b == [] {
      assert a + b == a;
      NoInputs();
    } else {
      var n := |b| - 1;
      assert a + b == a + b[..n] + [b[n]] && b == b[..n] + [b[n]];
      InputsAppend(a, b[..n]);
      InputsLast(a + b[..n], b[n]);
      InputsLast(b[..n], b[n]);
    }
  }

  lemma NoInputs()
    ensures ChainInputs([]) == []
  {
  }

  /** Appending a whole chain of calls leaves all earlier results as they are, adds one
      result per call, computed from operands and results of either chain, and joins the
      inputs. */
  lemma MergedMeaning(c: Computation, ds: seq<Call>, ops: seq<Expr>)
    requires CallsOk(c.calls + ds, |ops|)
    ensures CallsOk(c.calls, |ops|)
    ensures var rs := RunCalls(c.calls + ds, ops);
            rs[..|c.calls|] == RunCalls(c.calls, ops) &&
            forall k :: 0 <= k < |ds| ==>
              ArgOk(ds[k].a, |ops|, |rs|) && ArgOk(ds[k].b, |ops|, |rs|) &&
              rs[|c.calls| + k] == CallRuntime(ds[k].fn, ArgExpr(ds[k].a, ops, rs), ArgExpr(ds[k].b, ops, rs))
    ensures ChainInputs(c.calls + ds) == ChainInputs(c.calls) + ChainInputs(ds)
  {
    hide CallRuntime, RunCalls, ArgExpr, ChainInputs;
    var all, n := c.calls + ds, |c.calls|;
    var rs := RunCalls(all, ops);
    InputsAppend(c.calls, ds);
    assert all[..n] == c.calls;
    RunPrefix(all, n, ops);
    forall k | 0 <= k < |ds|
      ensures ArgOk(ds[k].a, |ops|, |rs|) && ArgOk(ds[k].b, |ops|, |rs|)
      ensures rs[n + k] == CallRuntime(ds[k].fn, ArgExpr(ds[k].a, ops, rs), ArgExpr(ds[k].b, ops, rs))
    {
      assert all[n + k] == ds[k];
      ResultOf(all, n + k, ops);
    }
  }

  /** Every result is that of its call on the operands and the other results. */
  lemma ResultOf(calls: seq<Call>, j: nat, ops: seq<Expr>)
    requires CallsOk(calls, |ops|) && j < |calls|
    ensures ArgOk(calls[j].a, |ops|, |calls|) && ArgOk(calls[j].b, |ops|, |calls|)
    ensures var rs := RunCalls(calls, ops);
            rs[j] == CallRuntime(calls[j].fn, ArgExpr(calls[j].a, ops, rs), ArgExpr(calls[j].b, ops, rs))
  {
    hide CallRuntime;
    var rs, front := RunCalls(calls, ops), calls[..j + 1];
    RunPrefix(calls, j, ops);
    RunPrefix(calls, j + 1, ops);
    assert front[..j] == calls[..j];
    assert rs[..j + 1][..j] == rs[..j];
    assert rs[j] == rs[..j + 1][j];
  }

  predicate Continues(c: Computation, d: Computation) { c.calls <= d.calls }

  /** Later calls do not change what an earlier result means. */
  lemma StableResult(c: Computation, d: Computation, ops: seq<Expr>)
    requires ComputationOk(c, |ops|) && CallsOk(d.calls, |ops|) && Continues(c, d)
    ensures ArgOk(c.result, |ops|, |d.calls|)
    ensures ArgExpr(c.result, ops, RunCalls(d.calls, ops)) == Meaning(c, ops)
  {
    hide CallRuntime;
    assert d.calls[..|c.calls|] == c.calls;
    RunPrefix(d.calls, |c.calls|, ops);
  }

  lemma LiteralDenotes(n: nat, p: nat, input: Input)
    requires Supported(p) && p > 1 && Fits(n, p)
    ensures Denotes(ValueExpr(Immediate(n, p)), BitVec(p), n, input)
  {
    hide ValueExpr;
    ValueExprDescribes(Immediate(n, p), input);
  }

  /** One more addition or multiplication on top of a chain. */
  lemma ArithStep(d: Computation, op: BvOp, a: Arg, x: nat, b: Arg, y: nat, p: nat, ops: seq<Expr>, input: Input)
    requires p >= 1 && ComputationOk(d, |ops|) && ArgOk(a, |ops|, |d.calls|) && ArgOk(b, |ops|, |d.calls|)
    requires Denotes(ArgExpr(a, ops, RunCalls(d.calls, ops)), BitVec(p), x, input)
    requires Denotes(ArgExpr(b, ops, RunCalls(d.calls, ops)), BitVec(p), y, input)
    ensures ComputationOk(Merge(d, Call(BuildArith(op), a, b)), |ops|)
    ensures Fits(x, p) && Fits(y, p)
    ensures Denotes(Meaning(Merge(d, Call(BuildArith(op), a, b)), ops), BitVec(p), BvApply(op, x, y, p), input)
  {
    hide Denotes, Meaning, ArgExpr, BvApply, Merge, RunCalls;
    var rs := RunCalls(d.calls, ops);
    MeaningOfMerge(d, Call(BuildArith(op), a, b), ops);
    ArithDenotes(op, ArgExpr(a, ops, rs), x, ArgExpr(b, ops, rs), y, p, input);
  }

  lemma ScaleDenotes(c: Computation, k: nat, v: Val, size: nat, p: nat, ops: seq<Expr>, input: Input)
    requires ComputationOk(c, |ops|) && k < |ops| && Describes(ops[k], v, input)
    requires Supported(p) && 1 < v.width <= p && Fits(size, p)
    ensures var r := Scale(c, k, v.width, size, p);
            ComputationOk(r, |ops|) && Continues(c, r) && Denotes(Meaning(r, ops), BitVec(p), Wrap(v.bits * size, p), input)
  {
    hide Meaning, RunCalls, ValueExpr, Immediate, Wrap, Eval, SortOf;
    var w, size' := v.width, Lit(Immediate(size, p));
    LiteralDenotes(size, p, input);
    if w < p {
      var z := Merge(c, Call(BuildZExt(p - w), In(k), In(k)));
      MeaningOfMerge(c, Call(BuildZExt(p - w), In(k), In(k)), ops);
      ExtendDenotes(ZeroExt, ops[k], v.bits, w, p - w, input);
      StableResult(z, z, ops);
      ArithStep(z, Mul, z.result, v.bits, size', size, p, ops, input);
    } else {
      ArithStep(c, Mul, In(k), v.bits, size', size, p, ops, input);
    }
  }

  predicate IndicesDescribed(ops: seq<Expr>, k: nat, idx: seq<Val>, input: Input)
  {
    k + |idx| <= |ops| && forall j :: 0 <= j < |idx| ==> Describes(ops[k + j], idx[j], input)
  }

  lemma NextIndex(ops: seq<Expr>, k: nat, idx: seq<Val>, input: Input)
    requires IndicesDescribed(ops, k, idx, input) && idx != []
    ensures k < |ops| && Describes(ops[k], idx[0], input) && IndicesDescribed(ops, k + 1, idx[1..], input)
  {
    hide Describes;
    assert Describes(ops[k + 0], idx[0], input);
  }

  lemma AddStep(c: Computation, d: Computation, x: nat, a: nat, p: nat, ops: seq<Expr>, input: Input)
    requires p >= 1 && ComputationOk(c, |ops|) && ComputationOk(d, |ops|) && Continues(c, d)
    requires Denotes(Meaning(c, ops), BitVec(p), a, input) && Denotes(Meaning(d, ops), BitVec(p), x, input)
    ensures var r := Merge(d, Call(BuildArith(Add), d.result, c.result));
            ComputationOk(r, |ops|) && Denotes(Meaning(r, ops), BitVec(p), Wrap(x + a, p), input)
  {
    hide Meaning, RunCalls, Wrap, Eval, SortOf, ArgExpr;
    StableResult(c, d, ops);
    StableResult(d, d, ops);
    ArithStep(d, Add, d.result, x, c.result, a, p, ops, input);
  }

  lemma FieldStep(c: Computation, off: nat, a: nat, p: nat, ops: seq<Expr>, input: Input)
    requires Supported(p) && p > 1 && Fits(off, p) && ComputationOk(c, |ops|) && Denotes(Meaning(c, ops), BitVec(p), a, input)
    ensures var r := Merge(c, Call(BuildArith(Add), Lit(Immediate(off, p)), c.result));
            ComputationOk(r, |ops|) && Denotes(Meaning(r, ops), BitVec(p), Wrap(a + off, p), input)
  {
    hide Meaning, RunCalls, ValueExpr, Immediate, Wrap, Eval, SortOf;
    LiteralDenotes(off, p, input);
    StableResult(c, c, ops);
    ArithStep(c, Add, Lit(Immediate(off, p)), off, c.result, a, p, ops, input);
  }

  lemma ElemStep(c: Computation, k: nat, v: Val, size: nat, a: int, p: nat, ops: seq<Expr>, input: Input)
    requires ComputationOk(c, |ops|) && k < |ops| && Describes(ops[k], v, input)
    requires Supported(p) && 1 < v.width <= p && Fits(size, p) && Denotes(Meaning(c, ops), BitVec(p), Wrap(a, p), input)
    ensures var scaled := Scale(c, k, v.width, size, p);
            var r := Merge(scaled, Call(BuildArith(Add), scaled.result, c.result));
            ComputationOk(r, |ops|) && Denotes(Meaning(r, ops), BitVec(p), Wrap(a + v.bits * size, p), input)
  {
    hide Denotes, Meaning, ComputationOk, Wrap, Merge, Scale, Describes, Continues;
    var scaled, x := Scale(c, k, v.width, size, p), v.bits * size;
    ScaleDenotes(c, k, v, size, p, ops, input);
    AddStep(c, scaled, Wrap(x, p), Wrap(a, p), p, ops, input);
    WrapAdd(x, Wrap(a, p), p);
    WrapAdd(a, x, p);
  }

  lemma {:induction false} ChainDenotes(c: Computation, steps: seq<Step>, idx: seq<Val>, k: nat, a: int, p: nat,
                                        ops: seq<Expr>, input: Input)
    requires Supported(p) && p > 1 && ComputationOk(c, |ops|) && Denotes(Meaning(c, ops), BitVec(p), Wrap(a, p), input)
    requires IndicesFit(steps, idx, p) && IndicesDescribed(ops, k, idx, input)
    ensures var r := GepChain(c, steps, k, p);
            ComputationOk(r, |ops|) && Denotes(Meaning(r, ops), BitVec(p), Wrap(a + BuiltOffset(steps, idx, p), p), input)
    decreases |steps|
  {
    hide Denotes, Meaning, ComputationOk, Wrap, Merge, Scale, Immediate, Describes, Continues, IndicesDescribed, Pow2;
    if steps != [] {
      match steps[0]
      case Field(_, off) =>
        var d := Merge(c, Call(BuildArith(Add), Lit(Immediate(off, p)), c.result));
        FieldStep(c, off, Wrap(a, p), p, ops, input);
        WrapAdd(a, off, p);
        ChainDenotes(d, steps[1..], idx, k, a + off, p, ops, input);
      case Elem(o, w, size) =>
        NextIndex(ops, k, idx, input);
        if IsZero(o) {
          assert idx[0].bits * size == 0;
          ChainDenotes(c, steps[1..], idx[1..], k + 1, a, p, ops, input);
        } else {
          var scaled, x := Scale(c, k, w, size, p), idx[0].bits * size;
          ElemStep(c, k, idx[0], size, a, p, ops, input);
          ChainDenotes(Merge(scaled, Call(BuildArith(Add), scaled.result, c.result)),
                       steps[1..], idx[1..], k + 1, a + x, p, ops, input);
        }
    }
  }

  lemma {:induction false} ZeroStepsAddNothing(steps: seq<Step>, idx: seq<Val>, p: nat)
    requires IndicesFit(steps, idx, p) && AllZero(steps)
    ensures Displacement(steps, idx, p) == 0 && Skew(steps, idx, p) == 0
  {
    if steps != [] {
      assert ZeroStep(steps[0]);
      assert AllZero(steps[1..]);
      if steps[0].Elem? {
        ZeroStepsAddNothing(steps[1..], idx[1..], p);
        assert ToSigned(0, steps[0].width) * steps[0].size == 0;
      } else {
        ZeroStepsAddNothing(steps[1..], idx, p);
      }
    }
  }

  /** The symbolic address, for every list of struct and array indices, is the concrete
      one displaced by the skew; so it is exact if and only if the skew is a multiple of
      the size of the address space, in particular when no narrow index is negative. */
  lemma GepChainExact(steps: seq<Step>, base: Val, idx: seq<Val>, p: nat, ops: seq<Expr>, input: Input)
    requires Supported(p) && p > 1 && base.width == p && IndicesFit(steps, idx, p)
    requires |ops| == 1 + |idx| && Describes(ops[0], base, input) && IndicesDescribed(ops, 1, idx, input)
    ensures var r := GepChain(Itself(), steps, 1, p);
            var address := Wrap(base.bits + Displacement(steps, idx, p), p);
            ComputationOk(r, |ops|) && HasWidth(Meaning(r, ops), p) &&
            (Denotes(Meaning(r, ops), BitVec(p), address, input) <==> Wrap(Skew(steps, idx, p), p) == 0)
  {
    hide Wrap, Eval, SortOf, GepChain, BuiltOffset, Displacement, Skew;
    var c := Itself();
    assert RunCalls([], ops) == [];
    assert Meaning(c, ops) == ops[0];
    ChainDenotes(c, steps, idx, 1, base.bits, p, ops, input);
    BuiltIsSkewed(steps, idx, p, base.bits);
    WrapSkew(base.bits + Displacement(steps, idx, p), Skew(steps, idx, p), p);
  }

  function CountElems(steps: seq<Step>): (n: nat)
  {
    if steps == [] then 0 else (if steps[0].Elem? then 1 else 0) + CountElems(steps[1..])
  }

  lemma {:induction false} FitCountsElems(steps: seq<Step>, idx: seq<Val>, p: nat)
    requires IndicesFit(steps, idx, p)
    ensures |idx| == CountElems(steps)
  {
    if steps != [] {
      FitCountsElems(steps[1..], if steps[0].Elem? then idx[1..] else idx, p);
    }
  }

  lemma MergeOk(c: Computation, call: Call, n: nat)
    requires ComputationOk(c, n) && ArgOk(call.a, n, |c.calls|) && ArgOk(call.b, n, |c.calls|)
    ensures ComputationOk(Merge(c, call), n) && ArgOk(c.result, n, |Merge(c, call).calls|)
  {
  }

  lemma {:induction false} GepChainOk(c: Computation, steps: seq<Step>, k: nat, p: nat, n: nat)
    requires ComputationOk(c, n) && k + CountElems(steps) <= n
    ensures ComputationOk(GepChain(c, steps, k, p), n)
    decreases |steps|
  {
    hide ComputationOk, Immediate;
    if steps != [] {
      match steps[0]
      case Field(_, off) =>
        var call := Call(BuildArith(Add), Lit(Immediate(off, p)), c.result);
        ResultOk(c, n);
        MergeOk(c, call, n);
        GepChainOk(Merge(c, call), steps[1..], k, p, n);
      case Elem(o, w, size) =>
        if IsZero(o) {
          GepChainOk(c, steps[1..], k + 1, p, n);
        } else {
          var scaled := Scale(c, k, w, size, p);
          ScaleOk(c, k, w, size, p, n);
          var call := Call(BuildArith(Add), scaled.result, c.result);
          MergeOk(scaled, call, n);
          GepChainOk(Merge(scaled, call), steps[1..], k + 1, p, n);
        }
    }
  }

  lemma ResultOk(c: Computation, n: nat)
    requires ComputationOk(c, n)
    ensures ArgOk(c.result, n, |c.calls|)
  {
  }

  lemma ScaleOk(c: Computation, k: nat, w: nat, size: nat, p: nat, n: nat)
    requires ComputationOk(c, n) && k < n
    ensures var r := Scale(c, k, w, size, p);
            ComputationOk(r, n) && ArgOk(r.result, n, |r.calls|) && ArgOk(c.result, n, |r.calls|)
  {
    hide Immediate;
  }

  /** The skew is real: index -1 of type i32 on a 64-bit target. */
  lemma NegativeNarrowIndexSkews()
    ensures var steps, idx := [Elem(Reg(0), 32, 1)], [Value(Pow2(32) - 1, 32)];
            Fits(Pow2(32) - 1, 32) && ValidValue(idx[0]) && Fits(1, 64) && IndicesFit(steps, idx, 64) && Wrap(Skew(steps, idx, 64), 64) != 0
  {
    hide Pow2;
    Pow2Numbers();
    var steps, idx := [Elem(Reg(0), 32, 1)], [Value(Pow2(32) - 1, 32)];
    assert IndicesFit(steps[1..], idx[1..], 64);
    assert Skew(steps[1..], idx[1..], 64) == 0;
  }

  lemma Pow2Numbers()
    ensures Pow2(31) >= 1 && Pow2(32) == 2 * Pow2(31) && Pow2(32) < Pow2(64) && 1 < Pow2(64) && Pow2(32) > 1
  {
    hide Pow2;
    Pow2Monotone(33, 64);
    Pow2Step(33);
    Pow2Step(32);
  }

  lemma NoNarrowNegative(steps: seq<Step>, idx: seq<Val>, p: nat)
    requires IndicesFit(steps, idx, p)
    requires forall k :: 0 <= k < |idx| && idx[k].width < p ==> ToSigned(idx[k].bits, idx[k].width) >= 0
    ensures Skew(steps, idx, p) == 0
  {
    if steps != [] {
      NoNarrowNegative(steps[1..], if steps[0].Elem? then idx[1..] else idx, p);
    }
  }
}
