/** The code that the compiler pass emits next to each instruction: chains of
    runtime calls that are skipped when all their inputs are concrete, and calls
    into the shadow memory. */
module Symbolizer {
  import opened Bits
  import opened Exprs
  import opened Builders
  import opened Intrinsics
  import opened IR

  // --------------------------------------------------------- runtime library

  datatype RuntimeFn =
    | BuildArith(op: BvOp)
    | BuildRelation(rel: Relation)
    | BuildNotEqual
    | BuildConnective(con: Connective)
    | BuildZExt(bits: nat)
    | BuildSExt(bits: nat)
    | BuildTrunc(bits: nat)
    | BuildBoolToBit
    | BuildBitToBool
    | BuildIntrinsic(intrinsic: IntrinsicFn, bits: nat, wild: nat)

  predicate Unary1(fn: RuntimeFn)
  {
    fn.BuildZExt? || fn.BuildSExt? || fn.BuildTrunc? || fn.BuildBoolToBit? || fn.BuildBitToBool? ||
    (fn.BuildIntrinsic? && UnaryIntrinsic(fn.intrinsic))
  }

  function CallRuntime(fn: RuntimeFn, a: Expr, b: Expr): (e: Expr)
  {
    match fn
    case BuildArith(op) => Arith(op, a, b)
    case BuildRelation(r) => Compare(r, a, b)
    case BuildNotEqual => NotEqual(a, b)
    case BuildConnective(c) => Connect(c, a, b)
    case BuildZExt(n) => ZExt(a, n)
    case BuildSExt(n) => SExt(a, n)
    case BuildTrunc(n) => TruncTo(a, n)
    case BuildBoolToBit => BoolToBit(a)
    case BuildBitToBool => BitToBool(a)
    case BuildIntrinsic(f, n, wild) => IntrinsicExpr(f, a, b, n, wild)
  }

  /** The sort of expressions for values of an integer type. */
  function SortFor(w: nat): (s: Sort) { if w == 1 then Bool else BitVec(w) }

  /** `createValueExpression` for integers. */
  function ValueExpr(v: Val): (e: Expr)
  {
    if v.width == 1 then Truth(v.bits == 1)
    else if v.width <= 64 then Const(v.bits, v.width)
    else Concat(Const(Shr(v.bits, 64), 64), Const(Wrap(v.bits, 64), 64))
  }

  /** The expression describes the value. */
  predicate Describes(e: Expr, v: Val, input: Input)
  {
    Denotes(e, SortFor(v.width), v.bits, input)
  }

  predicate DescribesIfAny(e: SymExpr, v: Val, input: Input)
  {
    e.Some? ==> Describes(e.value, v, input)
  }

  // ------------------------------------------------ symbolic computations

  /** What the pass knows about the expression of an operand: the null constant,
      or the register that will hold it. */
  datatype Slot = Null | Held(id: Id)

  /** An argument of a runtime call: operand `k` of the instruction or a literal,
      both passed as expressions, or the result of an earlier call of the chain. */
  datatype Arg = In(k: nat) | Lit(v: Val) | Res(k: nat)

  datatype Call = Call(fn: RuntimeFn, a: Arg, b: Arg)

  /** A chain of calls; `result` is its value (an input itself if there are no calls). */
  datatype Computation = Computation(calls: seq<Call>, result: Arg)

  function CallInputs(c: Call): (s: seq<Arg>)
  {
    (if c.a.Res? then [] else [c.a]) + (if c.b.Res? || Unary1(c.fn) then [] else [c.b])
  }

  function ChainInputs(calls: seq<Call>): (s: seq<Arg>)
  {
    if calls == [] then [] else ChainInputs(calls[..|calls| - 1]) + CallInputs(calls[|calls| - 1])
  }

  function Inputs(c: Computation): (s: seq<Arg>)
  {
    if c.result.Res? then ChainInputs(c.calls) else ChainInputs(c.calls) + [c.result]
  }

  /** Arguments refer to operands that exist and to earlier calls. */
  predicate ArgOk(a: Arg, n: nat, earlier: nat)
  {
    match a
    case In(k) => k < n
    case Lit(_) => true
    case Res(k) => k < earlier
  }

  predicate CallsOk(calls: seq<Call>, n: nat)
  {
    forall i :: 0 <= i < |calls| ==> ArgOk(calls[i].a, n, i) && ArgOk(calls[i].b, n, i)
  }

  predicate ComputationOk(c: Computation, n: nat)
  {
    CallsOk(c.calls, n) && ArgOk(c.result, n, |c.calls|)
  }

  function ArgExpr(a: Arg, ops: seq<Expr>, results: seq<Expr>): (e: Expr)
    requires ArgOk(a, |ops|, |results|)
  {
    match a
    case In(k) => ops[k]
    case Lit(v) => ValueExpr(v)
    case Res(k) => results[k]
  }

  /** The results of all calls when operand `k` is given as `ops[k]`. */
  function RunCalls(calls: seq<Call>, ops: seq<Expr>): (rs: seq<Expr>)
    requires CallsOk(calls, |ops|)
    ensures |rs| == |calls|
  {
    if calls == [] then []
    else
      var n := |calls| - 1;
      var rs := RunCalls(calls[..n], ops);
      rs + [CallRuntime(calls[n].fn, ArgExpr(calls[n].a, ops, rs), ArgExpr(calls[n].b, ops, rs))]
  }

  /** The expression a computation stands for. */
  function Meaning(c: Computation, ops: seq<Expr>): (e: Expr)
    requires ComputationOk(c, |ops|)
  {
    ArgExpr(c.result, ops, RunCalls(c.calls, ops))
  }

  /** Appending a computation: its calls come after ours. */
  function Merge(c: Computation, call: Call): (r: Computation)
  {
    Computation(c.calls + [call], Res(|c.calls|))
  }

  // --------------------------------------------------------- short-circuiting

  /** How the slow path obtains the expression of one input. */
  datatype Plan = Keep | Check | Build

  function StaticSlot(a: Arg, slots: seq<Slot>): (s: Slot)
  {
    if a.In? && a.k < |slots| then slots[a.k] else Null
  }

  function CountUnknown(inputs: seq<Arg>, slots: seq<Slot>): (n: nat)
  {
    if inputs == [] then 0
    else CountUnknown(inputs[..|inputs| - 1], slots) + (if StaticSlot(inputs[|inputs| - 1], slots).Held? then 1 else 0)
  }

  /** No check is emitted for the only input whose concreteness is unknown. */
  function PlanFor(s: Slot, unknown: nat): (p: Plan)
  {
    if s.Null? then Build else if unknown == 1 then Keep else Check
  }

  /** The pointer that reaches the runtime call under a plan; `None` is null. */
  function Supplied(p: Plan, sym: SymExpr, v: Val): (e: SymExpr)
  {
    match p
    case Keep => sym
    case Check => if sym.Some? then sym else Some(ValueExpr(v))
    case Build => Some(ValueExpr(v))
  }

  function DynamicOperand(a: Arg, syms: seq<SymExpr>): (e: SymExpr)
  {
    if a.In? && a.k < |syms| then syms[a.k] else None
  }

  predicate AllConcrete(c: Computation, syms: seq<SymExpr>)
  {
    forall i :: 0 <= i < |Inputs(c)| ==> DynamicOperand(Inputs(c)[i], syms) == None
  }

  predicate Uses(c: Computation, k: nat)
  {
    exists i :: 0 <= i < |Inputs(c)| && Inputs(c)[i] == In(k)
  }

  datatype GuardedResult = Skipped | Built(e: Expr) | NullPassed

  /** What each operand becomes on the slow path (one that is no input stays out of it). */
  function SuppliedAll(c: Computation, slots: seq<Slot>, args: seq<Val>, syms: seq<SymExpr>): (s: seq<SymExpr>)
    requires |slots| == |args| == |syms|
    ensures |s| == |args|
  {
    var unknown := CountUnknown(Inputs(c), slots);
    seq(|args|, k requires 0 <= k < |args| =>
      Supplied(if Uses(c, k) then PlanFor(slots[k], unknown) else Check, syms[k], args[k]))
  }

  function Unwrap(s: seq<SymExpr>): (es: seq<Expr>)
    ensures |es| == |s|
    ensures forall k :: 0 <= k < |s| && s[k].Some? ==> es[k] == s[k].value
  {
    seq(|s|, k requires 0 <= k < |s| => if s[k].Some? then s[k].value else Truth(false))
  }

  /** The rewritten code: a fast path around the computation, and on the slow
      path an expression for every input that needs one. */
  function RunGuarded(c: Computation, slots: seq<Slot>, args: seq<Val>, syms: seq<SymExpr>): (r: GuardedResult)
    requires |slots| == |args| == |syms| && ComputationOk(c, |args|)
  {
    if AllConcrete(c, syms) then Skipped
    else
      var s := SuppliedAll(c, slots, args, syms);
      if exists k :: 0 <= k < |s| && s[k] == None then NullPassed
      else Built(Meaning(c, Unwrap(s)))
  }

  /** Operands with every null replaced by the constant of the concrete value. */
  function Completed(args: seq<Val>, syms: seq<SymExpr>): (es: seq<Expr>)
    requires |args| == |syms|
    ensures |es| == |args|
    ensures forall k :: 0 <= k < |args| ==> es[k] == if syms[k].Some? then syms[k].value else ValueExpr(args[k])
  {
    seq(|args|, k requires 0 <= k < |args| => if syms[k].Some? then syms[k].value else ValueExpr(args[k]))
  }

  /** Operands known to be null at compile time are null at run time. */
  predicate Respects(slots: seq<Slot>, syms: seq<SymExpr>)
  {
    |slots| == |syms| && forall k :: 0 <= k < |slots| && slots[k].Null? ==> syms[k] == None
  }

  lemma {:induction false} CountOne(inputs: seq<Arg>, slots: seq<Slot>, i: nat)
    requires i < |inputs| && StaticSlot(inputs[i], slots).Held?
    ensures CountUnknown(inputs, slots) >= 1
  {
    if i < |inputs| - 1 {
      CountOne(inputs[..|inputs| - 1], slots, i);
    }
  }

  lemma {:induction false} CountTwo(inputs: seq<Arg>, slots: seq<Slot>, i: nat, j: nat)
    requires i < j < |inputs| && StaticSlot(inputs[i], slots).Held? && StaticSlot(inputs[j], slots).Held?
    ensures CountUnknown(inputs, slots) >= 2
  {
    if j < |inputs| - 1 {
      CountTwo(inputs[..|inputs| - 1], slots, i, j);
    } else {
      CountOne(inputs[..|inputs| - 1], slots, i);
    }
  }

  /** With one input of unknown concreteness, the slow path is entered only if it is symbolic. */
  lemma OnlyUnknownIsSymbolic(c: Computation, slots: seq<Slot>, syms: seq<SymExpr>, k: nat)
    requires Respects(slots, syms) && !AllConcrete(c, syms)
    requires k < |slots| && slots[k].Held? && Uses(c, k) && CountUnknown(Inputs(c), slots) == 1
    ensures syms[k].Some?
  {
    var inputs := Inputs(c);
    var i :| 0 <= i < |inputs| && DynamicOperand(inputs[i], syms) != None;
    var j :| 0 <= j < |inputs| && inputs[j] == In(k);
    if i < j {
      CountTwo(inputs, slots, i, j);
    } else if j < i {
      CountTwo(inputs, slots, j, i);
    }
  }

  /** Short-circuiting preserves meaning: null exactly when all inputs are null, and
      otherwise the computation over all inputs with nulls replaced by constants. No
      null pointer ever reaches the runtime, although some checks are left out. */
  lemma ShortCircuitMeaning(c: Computation, slots: seq<Slot>, args: seq<Val>, syms: seq<SymExpr>)
    requires |slots| == |args| && Respects(slots, syms) && ComputationOk(c, |args|)
    ensures RunGuarded(c, slots, args, syms)
         == if AllConcrete(c, syms) then Skipped else Built(Meaning(c, Completed(args, syms)))
  {
    hide Meaning, ValueExpr, Inputs, CountUnknown, AllConcrete, Uses;
    if !AllConcrete(c, syms) {
      var s, es := SuppliedAll(c, slots, args, syms), Completed(args, syms);
      forall k | 0 <= k < |args|
        ensures s[k] == Some(es[k])
      {
        if slots[k].Held? && Uses(c, k) && CountUnknown(Inputs(c), slots) == 1 {
          OnlyUnknownIsSymbolic(c, slots, syms, k);
        }
      }
      assert Unwrap(s) == es;
    }
  }

  // ---------------------------------------------------- inputs and what is read

  predicate AgreeOn(inputs: seq<Arg>, ops: seq<Expr>, ops': seq<Expr>)
  {
    |ops| == |ops'| && forall k :: 0 <= k < |ops| && In(k) in inputs ==> ops[k] == ops'[k]
  }

  lemma CallReads(c: Call, ops: seq<Expr>, ops': seq<Expr>, rs: seq<Expr>)
    requires AgreeOn(CallInputs(c), ops, ops') && ArgOk(c.a, |ops|, |rs|) && ArgOk(c.b, |ops|, |rs|)
    ensures CallRuntime(c.fn, ArgExpr(c.a, ops, rs), ArgExpr(c.b, ops, rs)) == CallRuntime(c.fn, ArgExpr(c.a, ops', rs), ArgExpr(c.b, ops', rs))
  {
    hide ValueExpr, IntrinsicExpr, NotEqual, TruncTo, BoolToBit, BitToBool;
    if c.a.In? { assert In(c.a.k) in CallInputs(c); }
    if c.b.In? && !Unary1(c.fn) { assert In(c.b.k) in CallInputs(c); }
    if Unary1(c.fn) { UnaryIgnores(c.fn, ArgExpr(c.a, ops, rs), ArgExpr(c.b, ops, rs), ArgExpr(c.b, ops', rs)); }
  }

  /** Calls with one operand do not look at the second argument. */
  lemma UnaryIgnores(fn: RuntimeFn, a: Expr, b: Expr, b': Expr)
    requires Unary1(fn)
    ensures CallRuntime(fn, a, b) == CallRuntime(fn, a, b')
  {
    hide NotEqual, TruncTo, BoolToBit, BitToBool, ByteSwap, AbsExpr, SatExpr;
  }

  lemma {:induction false} CallsRead(calls: seq<Call>, ops: seq<Expr>, ops': seq<Expr>)
    requires CallsOk(calls, |ops|) && AgreeOn(ChainInputs(calls), ops, ops')
    ensures RunCalls(calls, ops) == RunCalls(calls, ops')
  {
    hide CallRuntime, ArgExpr, CallInputs;
    if calls != [] {
      var n := |calls| - 1;
      CallsRead(calls[..n], ops, ops');
      CallReads(calls[n], ops, ops', RunCalls(calls[..n], ops));
    }
  }

  /** The recorded inputs are all that the value of a computation depends on. */
  lemma MeaningReadsInputs(c: Computation, ops: seq<Expr>, ops': seq<Expr>)
    requires ComputationOk(c, |ops|) && AgreeOn(Inputs(c), ops, ops')
    ensures Meaning(c, ops) == Meaning(c, ops')
  {
    hide RunCalls;
    CallsRead(c.calls, ops, ops');
    if c.result.In? { assert In(c.result.k) in Inputs(c); }
  }

  /** An operand that matters to the value keeps the computation from being skipped when it
      is symbolic; without symbolic operands it is skipped. */
  lemma SkippedExactly(c: Computation, slots: seq<Slot>, args: seq<Val>, syms: seq<SymExpr>, ops: seq<Expr>, ops': seq<Expr>, k: nat)
    requires |slots| == |args| == |syms| == |ops| && ComputationOk(c, |args|) && k < |ops|
    ensures (forall j :: 0 <= j < |syms| ==> syms[j] == None) ==> RunGuarded(c, slots, args, syms) == Skipped
    ensures syms[k].Some? && |ops'| == |ops| && (forall j :: 0 <= j < |ops| && j != k ==> ops[j] == ops'[j]) && Meaning(c, ops) != Meaning(c, ops') ==>
              RunGuarded(c, slots, args, syms) != Skipped
  {
    hide Meaning, Inputs, SuppliedAll;
    if syms[k].Some? && |ops'| == |ops| && (forall j :: 0 <= j < |ops| && j != k ==> ops[j] == ops'[j]) && Meaning(c, ops) != Meaning(c, ops') {
      if In(k) !in Inputs(c) { MeaningReadsInputs(c, ops, ops'); }
      var i :| 0 <= i < |Inputs(c)| && Inputs(c)[i] == In(k);
      assert DynamicOperand(Inputs(c)[i], syms) == syms[k];
    }
  }
}
