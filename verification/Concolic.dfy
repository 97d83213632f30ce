/** Concolic consistency: in every run of an instrumented program, under the
    actual input, every expression evaluates to the value it shadows, every
    pushed constraint agrees with the direction taken, and the program computes
    what the original one does. */
module Concolic {
  import opened Bits
  import opened Exprs
  import opened Builders
  import opened ShadowMaps
  import opened Intrinsics
  import opened IR
  import opened Handlers
  import opened Symbolizer
  import opened Instrumentation
  import opened Describing
  import opened Saturation
  import opened Addresses

  function InputOf(file: seq<Byte>): (input: Input)
  {
    (k: nat) => if k < |file| then file[k] else 0
  }

  ghost predicate AllTruthful(log: seq<Constraint>, input: Input)
  {
    forall i :: 0 <= i < |log| ==> Truthful(log[i], input)
  }
  /** Every expression held in a register describes the value of that register. */
  ghost predicate RegistersFaithful(slots: map<Id, SymExpr>, regs: map<Id, Val>, input: Input)
  {
    forall id :: id in slots && slots[id].Some? ==> id in regs && Describes(slots[id].value, regs[id], input)
  }

  ghost predicate Consistent(ts: TState, input: Input)
  {
    && RegistersFaithful(ts.slots, ts.st.regs, input)
    && Faithful(ts.shadow, ts.st.mem, input)
    && AllTruthful(ts.log, input)
  }

  /** What the code emitted for an instruction must achieve. */
  ghost predicate Good(s: SymEffect, eff: Effect, input: Input)
  {
    && (eff.result.Some? ==> DescribesIfAny(s.result, eff.result.value, input))
    && Faithful(s.shadow, eff.mem, input)
    && AllTruthful(s.log, input)
  }

  ghost predicate AllDescribed(syms: seq<SymExpr>, args: seq<Val>, input: Input)
  {
    |syms| == |args| && forall k :: 0 <= k < |args| ==> DescribesIfAny(syms[k], args[k], input)
  }

  /** A slot, if there is one, belongs to the operand's own register. */
  predicate SlotsSound(os: seq<Operand>, slots: seq<Slot>)
  {
    |slots| == |os| && forall k :: 0 <= k < |os| && slots[k].Held? ==> os[k] == Reg(slots[k].id)
  }

  predicate InstrSound(ti: TInstr)
  {
    |ti.visited| == |Operands(ti.instr.act)| && SlotsSound(Operands(ti.instr.act), ti.slots)
  }

  lemma SymsDescribe(ts: TState, os: seq<Operand>, slots: seq<Slot>, args: seq<Val>, input: Input)
    requires RegistersFaithful(ts.slots, ts.st.regs, input) && SlotsSound(os, slots) && ReadAll(ts.st.regs, os) == Some(args)
    ensures AllDescribed(SlotValues(ts.slots, slots), args, input)
    ensures Respects(slots, SlotValues(ts.slots, slots))
  {
    hide Describes;
    forall k | 0 <= k < |args|
      ensures DescribesIfAny(SlotValues(ts.slots, slots)[k], args[k], input)
    {
      assert Read1(ts.st.regs, os[k]) == Some(args[k]);
    }
  }

  // -------------------------------------------------------- one emit at a time

  /** The common situation of all emit lemmas. */
  ghost predicate Situation(slots: seq<Slot>, args: seq<Val>, syms: seq<SymExpr>, st: State, s: SymEffect, input: Input)
  {
    && |slots| == |args| && Respects(slots, syms) && AllDescribed(syms, args, input)
    && s.result == None && Faithful(s.shadow, st.mem, input) && AllTruthful(s.log, input)
  }

  lemma AssignGood(l: Layout, c: Computation, slots: seq<Slot>, args: seq<Val>, syms: seq<SymExpr>, st: State, v: Val,
                   s: SymEffect, input: Input)
    requires Situation(slots, args, syms, st, s, input) && ComputationOk(c, |args|)
    requires AllConcrete(c, syms) || Describes(Meaning(c, Completed(args, syms)), v, input)
    ensures var eff := Effect(Some(v), st.mem, st.pos);
            var r := RunCode(l, [Assign(c)], slots, args, syms, st, eff, s);
            r.Some? && Good(r.value, eff, input)
  {
    hide Describes, Meaning, RunGuarded, AllConcrete, ComputationOk, Faithful, AllTruthful;
    ShortCircuitMeaning(c, slots, args, syms);
    var eff := Effect(Some(v), st.mem, st.pos);
    SingleEmit(l, Assign(c), slots, args, syms, st, eff, s);
  }

  lemma SingleEmit(l: Layout, e: Emit, slots: seq<Slot>, args: seq<Val>, syms: seq<SymExpr>, st: State, eff: Effect, s: SymEffect)
    requires |slots| == |args| == |syms|
    ensures RunCode(l, [e], slots, args, syms, st, eff, s) == RunEmit(l, e, slots, args, syms, st, eff, s)
  {
    hide RunEmit;
  }

  lemma NothingEmitted(l: Layout, slots: seq<Slot>, args: seq<Val>, syms: seq<SymExpr>, st: State, v: Val, s: SymEffect, input: Input)
    requires Situation(slots, args, syms, st, s, input)
    ensures var eff := Effect(Some(v), st.mem, st.pos);
            var r := RunCode(l, [], slots, args, syms, st, eff, s);
            r.Some? && Good(r.value, eff, input)
  {
    hide Faithful, AllTruthful, Describes;
  }

  lemma BinOpGood(l: Layout, op: Opcode, w: nat, slots: seq<Slot>, args: seq<Val>, syms: seq<SymExpr>, st: State,
                  s: SymEffect, input: Input)
    requires Situation(slots, args, syms, st, s, input) && |args| == 2 && args[0].width == w
    requires BinaryValue(op, args[0], args[1]).Some?
    ensures var eff := Effect(BinaryValue(op, args[0], args[1]), st.mem, st.pos);
            var r := RunCode(l, [Assign(One(BinaryFn(op, w), In(0), In(1)))], slots, args, syms, st, eff, s);
            r.Some? && Good(r.value, eff, input)
  {
    hide Describes, Meaning, ComputationOk, CallRuntime, BinaryFn, BinaryValue, RunCode, Faithful, AllTruthful, ValueExpr;
    var ops := Completed(args, syms);
    CompletedDescribes(args, syms, input);
    MeaningOfOne(BinaryFn(op, w), In(0), In(1), ops);
    BinaryDescribes(op, w, ops[0], args[0], ops[1], args[1], input);
    AssignGood(l, One(BinaryFn(op, w), In(0), In(1)), slots, args, syms, st, BinaryValue(op, args[0], args[1]).value, s, input);
  }

  lemma ICmpGood(l: Layout, p: Predicate, slots: seq<Slot>, args: seq<Val>, syms: seq<SymExpr>, st: State,
                 s: SymEffect, input: Input)
    requires Situation(slots, args, syms, st, s, input) && |args| == 2 && Comparison(p, args[0], args[1]).Some?
    ensures var eff := Effect(Comparison(p, args[0], args[1]), st.mem, st.pos);
            var r := RunCode(l, [Assign(One(ComparisonFn(p), In(0), In(1)))], slots, args, syms, st, eff, s);
            r.Some? && Good(r.value, eff, input)
  {
    hide Describes, Meaning, ComputationOk, CallRuntime, ComparisonFn, Comparison, RunCode, Faithful, AllTruthful, ValueExpr;
    var ops := Completed(args, syms);
    CompletedDescribes(args, syms, input);
    MeaningOfOne(ComparisonFn(p), In(0), In(1), ops);
    ComparisonDescribes(p, ops[0], args[0], ops[1], args[1], input);
    AssignGood(l, One(ComparisonFn(p), In(0), In(1)), slots, args, syms, st, Comparison(p, args[0], args[1]).value, s, input);
  }

  lemma CastGood(l: Layout, k: CastKind, from: nat, to: nat, slots: seq<Slot>, args: seq<Val>, syms: seq<SymExpr>, st: State,
                 s: SymEffect, input: Input)
    requires Situation(slots, args, syms, st, s, input) && |args| == 1 && Convert(k, args[0], from, to).Some?
    ensures var eff := Effect(Convert(k, args[0], from, to), st.mem, st.pos);
            var r := RunCode(l, [Assign(CastChain(k, from, to))], slots, args, syms, st, eff, s);
            r.Some? && Good(r.value, eff, input)
  {
    hide Describes, Meaning, ComputationOk, CastChain, Convert, RunCode, Faithful, AllTruthful, ValueExpr;
    var ops := Completed(args, syms);
    CompletedDescribes(args, syms, input);
    assert ops == [ops[0]];
    CastDescribes(k, from, to, ops[0], args[0], input);
    AssignGood(l, CastChain(k, from, to), slots, args, syms, st, Convert(k, args[0], from, to).value, s, input);
  }

  lemma GepGood(l: Layout, steps: seq<Step>, slots: seq<Slot>, args: seq<Val>, syms: seq<SymExpr>, st: State,
                s: SymEffect, input: Input)
    requires Situation(slots, args, syms, st, s, input) && |args| >= 1
    requires args[0].width == l.ptrBits && l.ptrBits > 1 && IndicesFit(steps, args[1..], l.ptrBits)
    requires var c := GepChain(Itself(), steps, 1, l.ptrBits);
             AllConcrete(c, syms) || Wrap(Skew(steps, args[1..], l.ptrBits), l.ptrBits) == 0
    ensures var v := Value(Wrap(args[0].bits + Displacement(steps, args[1..], l.ptrBits), l.ptrBits), l.ptrBits);
            var eff := Effect(Some(v), st.mem, st.pos);
            var r := RunCode(l, [Assign(GepChain(Itself(), steps, 1, l.ptrBits))], slots, args, syms, st, eff, s);
            r.Some? && Good(r.value, eff, input)
  {
    hide Meaning, ComputationOk, GepChain, Itself, RunCode, Faithful, AllTruthful, ValueExpr, Eval, SortOf,
         Wrap, Skew, Displacement, IndicesFit, Pow2, AllConcrete;
    var ops, p := Completed(args, syms), l.ptrBits;
    CompletedDescribes(args, syms, input);
    assert IndicesDescribed(ops, 1, args[1..], input);
    GepChainExact(steps, args[0], args[1..], p, ops, input);
    var v := Value(Wrap(args[0].bits + Displacement(steps, args[1..], p), p), p);
    AssignGood(l, GepChain(Itself(), steps, 1, p), slots, args, syms, st, v, s, input);
  }

  /** What the call for an intrinsic function means, and when that describes the result. */
  lemma IntrinsicMeans(l: Layout, f: IntrinsicFn, w: nat, args: seq<Val>, syms: seq<SymExpr>, input: Input)
    requires |args| == |syms| && AllDescribed(syms, args, input) && |args| == (if UnaryIntrinsic(f) then 1 else 2)
    requires args[0].width == w && IntrinsicValue(f, args[0], args[|args| - 1]).Some?
    ensures ComputationOk(IntrinsicCall(l, f, w), |args|)
    ensures Describes(Meaning(IntrinsicCall(l, f, w), Completed(args, syms)), IntrinsicValue(f, args[0], args[|args| - 1]).value, input)
       <==> ExactIntrinsic(l, f, args)
  {
    hide Describes, Meaning, ComputationOk, Wrap, ValueExpr, IntrinsicExpr, IntrinsicResult, IntrinsicRight, IntrinsicDefined, Pow2, Denotes;
    var ops, fn := Completed(args, syms), BuildIntrinsic(f, w, Wrap(l.wild, 64));
    CompletedDescribes(args, syms, input);
    MeaningOfOne(fn, In(0), if UnaryIntrinsic(f) then In(0) else In(1), ops);
    var x, y := args[0], args[|args| - 1];
    DescribesWide(ops[0], x, y, f, input);
    DescribesWide(ops[|args| - 1], y, y, f, input);
    IntrinsicExactly(f, ops[0], x.bits, ops[|args| - 1], y.bits, w, Wrap(l.wild, 64), input);
    DescribesValue(Meaning(IntrinsicCall(l, f, w), ops), IntrinsicValue(f, x, y).value, y, f, input);
  }

  /** Intrinsic functions work on vectors. */
  lemma DescribesWide(e: Expr, x: Val, y: Val, f: IntrinsicFn, input: Input)
    requires Describes(e, x, input) && x.width == y.width && IntrinsicDefined(f, y.bits, x.width)
    ensures Denotes(e, BitVec(x.width), x.bits, input)
  {
    hide Denotes;
  }

  lemma DescribesValue(e: Expr, x: Val, y: Val, f: IntrinsicFn, input: Input)
    requires x.width == y.width && IntrinsicDefined(f, y.bits, x.width)
    ensures Describes(e, x, input) <==> Denotes(e, BitVec(x.width), x.bits, input)
  {
    hide Denotes;
  }

  lemma IntrinsicGood(l: Layout, f: IntrinsicFn, w: nat, slots: seq<Slot>, args: seq<Val>, syms: seq<SymExpr>, st: State,
                      s: SymEffect, input: Input)
    requires Situation(slots, args, syms, st, s, input) && |args| == (if UnaryIntrinsic(f) then 1 else 2)
    requires args[0].width == w && IntrinsicValue(f, args[0], args[|args| - 1]).Some?
    ensures var eff := Effect(IntrinsicValue(f, args[0], args[|args| - 1]), st.mem, st.pos);
            var r := RunCode(l, [Assign(IntrinsicCall(l, f, w))], slots, args, syms, st, eff, s);
            r.Some? && (r.value.result.None? || ExactIntrinsic(l, f, args) ==> Good(r.value, eff, input))
  {
    hide RunCode, Good, IntrinsicCall, AllConcrete, Meaning, ComputationOk, IntrinsicValue, ExactIntrinsic, Describes,
         Faithful, AllTruthful, AllDescribed, Completed;
    var c, v := IntrinsicCall(l, f, w), IntrinsicValue(f, args[0], args[|args| - 1]).value;
    IntrinsicMeans(l, f, w, args, syms, input);
    AssignRuns(l, c, slots, args, syms, st, Effect(Some(v), st.mem, st.pos), s);
    if AllConcrete(c, syms) || ExactIntrinsic(l, f, args) {
      AssignGood(l, c, slots, args, syms, st, v, s, input);
    }
  }

  lemma IntrinsicOk(l: Layout, f: IntrinsicFn, w: nat)
    ensures ComputationOk(IntrinsicCall(l, f, w), if UnaryIntrinsic(f) then 1 else 2)
  {
    hide Wrap;
  }

  lemma GepCopyGood(l: Layout, steps: seq<Step>, slots: seq<Slot>, args: seq<Val>, syms: seq<SymExpr>, st: State,
                    s: SymEffect, input: Input)
    requires Situation(slots, args, syms, st, s, input) && |args| >= 1 && AllZero(steps)
    requires args[0].width == l.ptrBits && l.ptrBits > 1 && IndicesFit(steps, args[1..], l.ptrBits)
    ensures var v := Value(Wrap(args[0].bits + Displacement(steps, args[1..], l.ptrBits), l.ptrBits), l.ptrBits);
            var eff := Effect(Some(v), st.mem, st.pos);
            var r := RunCode(l, [CopyOf(0)], slots, args, syms, st, eff, s);
            r.Some? && Good(r.value, eff, input)
  {
    hide Faithful, AllTruthful, Describes, Displacement, IndicesFit, AllZero;
    ZeroStepsAddNothing(steps, args[1..], l.ptrBits);
    var v := Value(Wrap(args[0].bits + Displacement(steps, args[1..], l.ptrBits), l.ptrBits), l.ptrBits);
    SingleEmit(l, CopyOf(0), slots, args, syms, st, Effect(Some(v), st.mem, st.pos), s);
  }

  lemma TruthfulSnoc(log: seq<Constraint>, c: Constraint, input: Input)
    requires AllTruthful(log, input) && Denotes(c.e, Bool, FlagOf(c.taken), input)
    ensures AllTruthful(log + [c], input)
  {
    hide Denotes;
  }

  lemma BoolDescribed(e: Expr, v: Val, input: Input)
    requires v.width == 1 && Describes(e, v, input)
    ensures Denotes(e, Bool, FlagOf(v.bits == 1), input)
  {
    BitOfBool(v.bits);
  }

  lemma ItselfMeans(ops: seq<Expr>)
    requires |ops| >= 1
    ensures ComputationOk(Itself(), |ops|) && Meaning(Itself(), ops) == ops[0]
  {
  }

  /** A pushed condition evaluates to the direction taken. */
  lemma PushGood(l: Layout, slots: seq<Slot>, args: seq<Val>, syms: seq<SymExpr>, st: State, eff: Effect, s: SymEffect, input: Input)
    requires Situation(slots, args, syms, st, s, input) && |args| >= 1 && args[0].width == 1
    ensures var r := RunEmit(l, Push(Itself()), slots, args, syms, st, eff, s);
            r.Some? && Situation(slots, args, syms, st, r.value, input)
  {
    hide Describes, Meaning, Itself, RunGuarded, AllConcrete, ComputationOk, Faithful, AllTruthful, Denotes, ValueExpr;
    var ops := Completed(args, syms);
    CompletedDescribes(args, syms, input);
    ItselfMeans(ops);
    ShortCircuitMeaning(Itself(), slots, args, syms);
    BoolDescribed(ops[0], args[0], input);
    TruthfulSnoc(s.log, Constraint(ops[0], args[0].bits == 1), input);
  }

  lemma SelectGood(l: Layout, act: Action, visited: seq<Slot>, slots: seq<Slot>, args: seq<Val>, syms: seq<SymExpr>, st: State,
                   s: SymEffect, input: Input)
    requires Situation(slots, args, syms, st, s, input) && act.Select? && |args| == |visited| == 3
    requires args[0].width == 1 && args[1].width == args[2].width
    ensures var eff := Effect(Some(if args[0].bits == 1 then args[1] else args[2]), st.mem, st.pos);
            var r := RunCode(l, Code(l, act, visited), slots, args, syms, st, eff, s);
            r.Some? && Good(r.value, eff, input)
  {
    hide Describes, Itself, RunGuarded, Faithful, AllTruthful, ComputationOk;
    var eff := Effect(Some(if args[0].bits == 1 then args[1] else args[2]), st.mem, st.pos);
    var code := Code(l, act, visited);
    PushGood(l, slots, args, syms, st, eff, s, input);
    if !visited[0].Null? {
      var tail := if visited[1].Null? && visited[2].Null? then [] else [Pick];
      assert code == [Push(Itself())] + tail;
      assert code[1..] == tail;
      PickGood(l, tail, slots, args, syms, st, RunEmit(l, Push(Itself()), slots, args, syms, st, eff, s).value, input);
    } else {
      PickGood(l, code, slots, args, syms, st, s, input);
    }
  }

  lemma PickGood(l: Layout, code: seq<Emit>, slots: seq<Slot>, args: seq<Val>, syms: seq<SymExpr>, st: State,
                 s: SymEffect, input: Input)
    requires Situation(slots, args, syms, st, s, input) && |args| == 3 && (code == [] || code == [Pick])
    ensures var eff := Effect(Some(if args[0].bits == 1 then args[1] else args[2]), st.mem, st.pos);
            var r := RunCode(l, code, slots, args, syms, st, eff, s);
            r.Some? && Good(r.value, eff, input)
  {
    hide Describes, Faithful, AllTruthful;
  }

  // --------------------------------------------------------------- memory

  lemma LoadedBool(e: Expr, x: nat, input: Input)
    requires Denotes(e, BitVec(8), x, input)
    ensures Denotes(BitToBool(TruncTo(e, 1)), Bool, Wrap(x, 1), input)
  {
    hide BitToBool, TruncTo, Eval, SortOf, Wrap;
    TruncDenotes(e, x, 8, 1, input);
    BitToBoolDenotes(TruncTo(e, 1), Wrap(x, 1), input);
  }

  lemma LoadGood(l: Layout, w: nat, slots: seq<Slot>, args: seq<Val>, syms: seq<SymExpr>, st: State, s: SymEffect, input: Input)
    requires Situation(slots, args, syms, st, s, input) && |args| == 1 && PerformLoad(l, args[0], w, st).Some?
    ensures var eff := PerformLoad(l, args[0], w, st).value;
            var r := RunCode(l, [ReadShadow(w)], slots, args, syms, st, eff, s);
            r.Some? && Good(r.value, eff, input)
  {
    hide Faithful, AllTruthful, Read, Eval, SortOf, Number, Ordered, Load, Wrap, Pow2, BitToBool, TruncTo, AllDescribed;
    var a, n := args[0].bits, StoreSize(w);
    ReadIsFaithful(s.shadow, st.mem, a, n, l.littleEndian, input);
    var e := Read(s.shadow, st.mem, a, n, l.littleEndian);
    BytesOfNumber(Ordered(Load(st.mem, a, n), l.littleEndian));
    if w == 1 && e.Some? {
      LoadedBool(e.value, Number(Ordered(Load(st.mem, a, n), l.littleEndian)), input);
    }
    SingleEmit(l, ReadShadow(w), slots, args, syms, st, PerformLoad(l, args[0], w, st).value, s);
  }

  lemma StoredBool(e: Expr, x: nat, input: Input)
    requires Denotes(e, Bool, x, input)
    ensures Denotes(ZExt(BoolToBit(e), 7), BitVec(8), x, input)
  {
    hide BoolToBit;
    BoolToBitDenotes(e, x, input);
    ExtendDenotes(ZeroExt, BoolToBit(e), x, 1, 7, input);
  }

  lemma StoredShows(e: SymExpr, v: Val, input: Input)
    requires Storable(v.width) && DescribesIfAny(e, v, input)
    ensures ToMemory(e, v.width).Some? ==> Shows(ToMemory(e, v.width).value, ValueBytes(v), input)
  {
    hide ZExt, BoolToBit, Eval, SortOf, Bytes;
    if e.Some? && v.width == 1 {
      StoredBool(e.value, v.bits, input);
    }
  }

  lemma StoreGood(l: Layout, w: nat, slots: seq<Slot>, args: seq<Val>, syms: seq<SymExpr>, st: State, s: SymEffect, input: Input)
    requires Situation(slots, args, syms, st, s, input) && |args| == 2 && PerformStore(l, args[0], args[1], w, st).Some?
    ensures var eff := PerformStore(l, args[0], args[1], w, st).value;
            var r := RunCode(l, [WriteShadow(w)], slots, args, syms, st, eff, s);
            r.Some? && Good(r.value, eff, input)
  {
    hide Faithful, AllTruthful, Write, Store, Ordered, ValueBytes, ToMemory, Shows, Describes;
    StoredShows(syms[1], args[1], input);
    WriteIsFaithful(s.shadow, st.mem, args[0].bits, ValueBytes(args[1]), ToMemory(syms[1], w), l.littleEndian, input);
    SingleEmit(l, WriteShadow(w), slots, args, syms, st, PerformStore(l, args[0], args[1], w, st).value, s);
  }

  lemma MoveGood(l: Layout, slots: seq<Slot>, args: seq<Val>, syms: seq<SymExpr>, st: State, s: SymEffect, input: Input)
    requires Situation(slots, args, syms, st, s, input) && |args| == 3 && PerformMove(l, args[0], args[1], args[2], st).Some?
    ensures var eff := PerformMove(l, args[0], args[1], args[2], st).value;
            var r := RunCode(l, [MoveShadow], slots, args, syms, st, eff, s);
            r.Some? && Good(r.value, eff, input)
  {
    hide Faithful, AllTruthful, Move, Store, Load, AllDescribed;
    MoveIsFaithful(s.shadow, st.mem, args[0].bits, args[1].bits, args[2].bits, input);
    SingleEmit(l, MoveShadow, slots, args, syms, st, PerformMove(l, args[0], args[1], args[2], st).value, s);
  }

  lemma SetGood(l: Layout, slots: seq<Slot>, args: seq<Val>, syms: seq<SymExpr>, st: State, s: SymEffect, input: Input)
    requires Situation(slots, args, syms, st, s, input) && |args| == 3 && PerformSet(l, args[0], args[1], args[2], st).Some?
    ensures var eff := PerformSet(l, args[0], args[1], args[2], st).value;
            var r := RunCode(l, [FillShadow], slots, args, syms, st, eff, s);
            r.Some? && Good(r.value, eff, input)
  {
    hide Faithful, AllTruthful, Fill, Store, Eval, SortOf;
    var v, n, eff := args[1], args[2].bits, PerformSet(l, args[0], args[1], args[2], st).value;
    ByteOfValue(v);
    var b: Byte := v.bits;
    FillIsFaithful(s.shadow, st.mem, args[0].bits, n, syms[1], b, input);
    assert eff.mem == Store(st.mem, args[0].bits, seq(n, i => b)) by {
      SetMemory(l, args[0], v, args[2], st, b);
    }
    SingleEmit(l, FillShadow, slots, args, syms, st, eff, s);
  }

  lemma SetMemory(l: Layout, d: Val, v: Val, n: Val, st: State, b: Byte)
    requires PerformSet(l, d, v, n, st).Some? && b == v.bits
    ensures PerformSet(l, d, v, n, st).value.mem == Store(st.mem, d.bits, seq(n.bits, i => b))
  {
    hide Store;
    ByteOfValue(v);
    var s: seq<Byte> := seq(n.bits, i => v.bits);
    assert s == seq(n.bits, i => b);
  }

  lemma InputShadowFaithful(sh: ShadowMap, mem: Memory, a: nat, file: seq<Byte>, pos: nat, n: nat)
    requires Faithful(sh, mem, InputOf(file)) && pos + n <= |file|
    ensures Faithful(InputShadow(sh, a, n, pos), Store(mem, a, file[pos..pos + n]), InputOf(file))
  {
    var r, m := InputShadow(sh, a, n, pos), Store(mem, a, file[pos..pos + n]);
    forall x | x in r
      ensures x in m && Denotes(r[x], BitVec(8), m[x], InputOf(file))
    {
      if a <= x < a + n {
        assert file[pos..pos + n][x - a] == file[pos + (x - a)];
      }
    }
  }

  lemma ReadGood(l: Layout, file: seq<Byte>, slots: seq<Slot>, args: seq<Val>, syms: seq<SymExpr>, st: State, s: SymEffect)
    requires Situation(slots, args, syms, st, s, InputOf(file)) && |args| == 2 && PerformRead(l, file, args[0], args[1], st).Some?
    ensures var eff := PerformRead(l, file, args[0], args[1], st).value;
            var r := RunCode(l, [MakeSymbolic], slots, args, syms, st, eff, s);
            r.Some? && Good(r.value, eff, InputOf(file))
  {
    hide Faithful, AllTruthful, InputShadow, Store, AllDescribed, InputOf, Describes;
    var eff := PerformRead(l, file, args[0], args[1], st).value;
    InputShadowFaithful(s.shadow, st.mem, args[0].bits, file, st.pos, eff.pos - st.pos);
    SingleEmit(l, MakeSymbolic, slots, args, syms, st, eff, s);
  }

  // ------------------------------------------------------------- instructions

  /** The emitted code never crashes, whatever the expressions say. */
  lemma AssignRuns(l: Layout, c: Computation, slots: seq<Slot>, args: seq<Val>, syms: seq<SymExpr>, st: State, eff: Effect, s: SymEffect)
    requires |slots| == |args| && Respects(slots, syms) && ComputationOk(c, |args|)
    ensures var r := RunCode(l, [Assign(c)], slots, args, syms, st, eff, s);
            r.Some? && (r.value.result.None? <==> AllConcrete(c, syms))
    ensures !AllConcrete(c, syms) ==>
              RunCode(l, [Assign(c)], slots, args, syms, st, eff, s) == Some(s.(result := Some(Meaning(c, Completed(args, syms)))))
  {
    hide Meaning, RunGuarded, AllConcrete, ComputationOk;
    ShortCircuitMeaning(c, slots, args, syms);
    SingleEmit(l, Assign(c), slots, args, syms, st, eff, s);
  }

  lemma CastChainOk(k: CastKind, from: nat, to: nat)
    ensures ComputationOk(CastChain(k, from, to), 1)
  {
    hide ExtendFn;
  }

  lemma OneOk(fn: RuntimeFn)
    ensures ComputationOk(One(fn, In(0), In(1)), 2)
  {
  }

  lemma GepOk(steps: seq<Step>, idx: seq<Val>, p: nat)
    requires IndicesFit(steps, idx, p)
    ensures ComputationOk(GepChain(Itself(), steps, 1, p), 1 + |idx|)
  {
    FitCountsElems(steps, idx, p);
    GepChainOk(Itself(), steps, 1, p, 1 + |idx|);
  }

  lemma PickRuns(l: Layout, code: seq<Emit>, slots: seq<Slot>, args: seq<Val>, syms: seq<SymExpr>, st: State, eff: Effect, s: SymEffect)
    requires |slots| == |args| == |syms| == 3 && (code == [] || code == [Pick])
    ensures RunCode(l, code, slots, args, syms, st, eff, s).Some?
  {
  }

  lemma SelectRuns(l: Layout, act: Action, visited: seq<Slot>, slots: seq<Slot>, args: seq<Val>, syms: seq<SymExpr>, st: State,
                   eff: Effect, s: SymEffect)
    requires |slots| == |args| == |visited| == 3 && Respects(slots, syms) && act.Select?
    ensures RunCode(l, Code(l, act, visited), slots, args, syms, st, eff, s).Some?
  {
    hide RunGuarded, Itself, AllConcrete, ComputationOk, Meaning;
    var code := Code(l, act, visited);
    ItselfMeans(Completed(args, syms));
    ShortCircuitMeaning(Itself(), slots, args, syms);
    if !visited[0].Null? {
      var tail := if visited[1].Null? && visited[2].Null? then [] else [Pick];
      assert code == [Push(Itself())] + tail;
      assert code[1..] == tail;
      PickRuns(l, tail, slots, args, syms, st, eff, RunEmit(l, Push(Itself()), slots, args, syms, st, eff, s).value);
    } else {
      PickRuns(l, code, slots, args, syms, st, eff, s);
    }
  }

  lemma MemoryRuns(l: Layout, file: seq<Byte>, e: Emit, act: Action, slots: seq<Slot>, args: seq<Val>, syms: seq<SymExpr>, st: State,
                   s: SymEffect)
    requires |slots| == |args| == |syms| == |Operands(act)| && Perform(l, file, act, args, st).Some?
    requires act.LoadI? || act.StoreI? || act.MemMoveI? || act.MemSetI? || act.ReadInput?
    requires [e] == Code(l, act, slots)
    ensures RunCode(l, [e], slots, args, syms, st, Perform(l, file, act, args, st).value, s).Some?
  {
    SingleEmit(l, e, slots, args, syms, st, Perform(l, file, act, args, st).value, s);
  }

  lemma CodeRuns(l: Layout, file: seq<Byte>, i: Instr, visited: seq<Slot>, slots: seq<Slot>, args: seq<Val>, syms: seq<SymExpr>,
                 st: State, s: SymEffect)
    requires |slots| == |args| && Respects(slots, syms) && |args| == |Operands(i.act)| == |visited|
    requires Perform(l, file, i.act, args, st).Some?
    ensures RunCode(l, Code(l, i.act, visited), slots, args, syms, st, Perform(l, file, i.act, args, st).value, s).Some?
  {
    hide RunCode, BinaryValue, Comparison, Convert, ComputationOk, AllConcrete, One, CastChain, GepChain, Itself, AllNull, AllZero,
         IntrinsicValue, IntrinsicCall, Wrap, Displacement, IndicesFit, Completed, Meaning;
    var eff := Perform(l, file, i.act, args, st).value;
    NoCodeRuns(l, slots, args, syms, st, eff, s);
    match i.act
    case BinOp(op, _, _, w) =>
      OneOk(BinaryFn(op, w));
      AssignRuns(l, One(BinaryFn(op, w), In(0), In(1)), slots, args, syms, st, eff, s);
    case ICmp(p, _, _) =>
      OneOk(ComparisonFn(p));
      AssignRuns(l, One(ComparisonFn(p), In(0), In(1)), slots, args, syms, st, eff, s);
    case Cast(k, _, from, to) =>
      CastChainOk(k, from, to);
      AssignRuns(l, CastChain(k, from, to), slots, args, syms, st, eff, s);
    case Select(_, _, _) => SelectRuns(l, i.act, visited, slots, args, syms, st, eff, s);
    case Gep(_, steps) =>
      CopyRuns(l, slots, args, syms, st, eff, s);
      GepOk(steps, args[1..], l.ptrBits);
      AssignRuns(l, GepChain(Itself(), steps, 1, l.ptrBits), slots, args, syms, st, eff, s);
    case LoadI(_, w) => MemoryRuns(l, file, ReadShadow(w), i.act, slots, args, syms, st, s);
    case StoreI(_, _, w) => MemoryRuns(l, file, WriteShadow(w), i.act, slots, args, syms, st, s);
    case MemMoveI(_, _, _) => MemoryRuns(l, file, MoveShadow, i.act, slots, args, syms, st, s);
    case MemSetI(_, _, _) => MemoryRuns(l, file, FillShadow, i.act, slots, args, syms, st, s);
    case ReadInput(_, _) => MemoryRuns(l, file, MakeSymbolic, i.act, slots, args, syms, st, s);
    case Intrinsic(f, _, _, w) =>
      IntrinsicOk(l, f, w);
      AssignRuns(l, IntrinsicCall(l, f, w), slots, args, syms, st, eff, s);
  }

  lemma NoCodeRuns(l: Layout, slots: seq<Slot>, args: seq<Val>, syms: seq<SymExpr>, st: State, eff: Effect, s: SymEffect)
    requires |slots| == |args| == |syms|
    ensures RunCode(l, [], slots, args, syms, st, eff, s) == Some(s)
  {
  }

  lemma CopyRuns(l: Layout, slots: seq<Slot>, args: seq<Val>, syms: seq<SymExpr>, st: State, eff: Effect, s: SymEffect)
    requires |slots| == |args| == |syms| && |args| >= 1
    ensures RunCode(l, [CopyOf(0)], slots, args, syms, st, eff, s) == Some(s.(result := syms[0]))
  {
    SingleEmit(l, CopyOf(0), slots, args, syms, st, eff, s);
  }

  /** Whatever an instruction's visitor knew, the code it emitted is good, except for
      an expression built where the builder departs from the instruction. */
  lemma CodeGood(l: Layout, file: seq<Byte>, i: Instr, visited: seq<Slot>, slots: seq<Slot>, args: seq<Val>, syms: seq<SymExpr>,
                 st: State, s: SymEffect)
    requires Situation(slots, args, syms, st, s, InputOf(file)) && |args| == |Operands(i.act)| == |visited|
    requires Perform(l, file, i.act, args, st).Some?
    ensures var eff := Perform(l, file, i.act, args, st).value;
            var r := RunCode(l, Code(l, i.act, visited), slots, args, syms, st, eff, s);
            r.Some? && (r.value.result.None? || ExactStep(l, i.act, args) ==> Good(r.value, eff, InputOf(file)))
  {
    hide Situation, RunCode, Good, InputOf, BinaryValue, Comparison, Convert, PerformLoad, PerformStore, PerformMove,
         PerformSet, PerformRead, One, CastChain, GepChain, Itself, AllNull, AllZero, Wrap, Skew, Displacement, IndicesFit,
         IntrinsicValue, IntrinsicCall, ExactIntrinsic;
    var eff, input := Perform(l, file, i.act, args, st).value, InputOf(file);
    match i.act
    case BinOp(op, _, _, w) =>
      if AllNull(visited) { NothingEmitted(l, slots, args, syms, st, eff.result.value, s, input); }
      else { BinOpGood(l, op, w, slots, args, syms, st, s, input); }
    case ICmp(p, _, _) =>
      if AllNull(visited) { NothingEmitted(l, slots, args, syms, st, eff.result.value, s, input); }
      else { ICmpGood(l, p, slots, args, syms, st, s, input); }
    case Cast(k, _, from, to) =>
      if AllNull(visited) && (from != 1 || k.Truncate?) { NothingEmitted(l, slots, args, syms, st, eff.result.value, s, input); }
      else { CastGood(l, k, from, to, slots, args, syms, st, s, input); }
    case Select(_, _, _) => SelectGood(l, i.act, visited, slots, args, syms, st, s, input);
    case LoadI(_, w) => LoadGood(l, w, slots, args, syms, st, s, input);
    case StoreI(_, _, w) => StoreGood(l, w, slots, args, syms, st, s, input);
    case Gep(_, steps) =>
      if AllNull(visited) { NothingEmitted(l, slots, args, syms, st, eff.result.value, s, input); }
      else if AllZero(steps) { GepCopyGood(l, steps, slots, args, syms, st, s, input); }
      else { GepCodeGood(l, steps, slots, args, syms, st, s, input); }
    case MemMoveI(_, _, _) => MoveGood(l, slots, args, syms, st, s, input);
    case MemSetI(_, _, _) => SetGood(l, slots, args, syms, st, s, input);
    case ReadInput(_, _) => ReadGood(l, file, slots, args, syms, st, s);
    case Intrinsic(f, _, _, w) =>
      if AllNull(visited) { NothingEmitted(l, slots, args, syms, st, eff.result.value, s, input); }
      else { IntrinsicGood(l, f, w, slots, args, syms, st, s, input); }
  }

  lemma GepCodeGood(l: Layout, steps: seq<Step>, slots: seq<Slot>, args: seq<Val>, syms: seq<SymExpr>, st: State,
                    s: SymEffect, input: Input)
    requires Situation(slots, args, syms, st, s, input) && |args| >= 1
    requires args[0].width == l.ptrBits && l.ptrBits > 1 && IndicesFit(steps, args[1..], l.ptrBits)
    ensures var v := Value(Wrap(args[0].bits + Displacement(steps, args[1..], l.ptrBits), l.ptrBits), l.ptrBits);
            var eff := Effect(Some(v), st.mem, st.pos);
            var r := RunCode(l, [Assign(GepChain(Itself(), steps, 1, l.ptrBits))], slots, args, syms, st, eff, s);
            r.Some? && (r.value.result.None? || Wrap(Skew(steps, args[1..], l.ptrBits), l.ptrBits) == 0 ==> Good(r.value, eff, input))
  {
    hide RunCode, Good, GepChain, Itself, Wrap, Skew, Displacement, IndicesFit, AllConcrete, Meaning, ComputationOk,
         Faithful, AllTruthful, AllDescribed, Completed, Pow2;
    var c, p := GepChain(Itself(), steps, 1, l.ptrBits), l.ptrBits;
    var v := Value(Wrap(args[0].bits + Displacement(steps, args[1..], p), p), p);
    GepOk(steps, args[1..], p);
    AssignRuns(l, c, slots, args, syms, st, Effect(Some(v), st.mem, st.pos), s);
    if AllConcrete(c, syms) || Wrap(Skew(steps, args[1..], p), p) == 0 {
      GepGood(l, steps, slots, args, syms, st, s, input);
    }
  }

  // -------------------------------------------------------------- whole runs

  /** One instrumented instruction does to the program's own state what the original
      instruction does, and stops only where the original stops. */
  lemma ExecErases(l: Layout, file: seq<Byte>, ti: TInstr, ts: TState)
    requires InstrSound(ti)
    ensures TExec(l, file, ti, ts).Some? <==> Exec(l, file, ti.instr, ts.st).Some?
    ensures TExec(l, file, ti, ts).Some? ==> Exec(l, file, ti.instr, ts.st) == Some(TExec(l, file, ti, ts).value.st)
  {
    hide RunCode, Perform, Code, Operands, ReadAll, ExactStep, Registers;
    var args := ReadAll(ts.st.regs, Operands(ti.instr.act));
    if args.Some? && Perform(l, file, ti.instr.act, args.value, ts.st).Some? {
      CodeRuns(l, file, ti.instr, ti.visited, ti.slots, args.value, SlotValues(ts.slots, ti.slots), ts.st,
               SymEffect(None, ts.shadow, ts.log));
    }
  }

  lemma DefineFaithful(slots: map<Id, SymExpr>, regs: map<Id, Val>, id: Id, v: Val, registers: bool, e: SymExpr, input: Input)
    requires RegistersFaithful(slots, regs, input) && (registers ==> DescribesIfAny(e, v, input))
    ensures RegistersFaithful(Define(slots, id, registers, e), regs[id := v], input)
  {
    hide Describes;
  }

  /** Every instruction keeps the state consistent, unless it misleads. */
  lemma ExecConsistent(l: Layout, file: seq<Byte>, ti: TInstr, ts: TState)
    requires InstrSound(ti) && Consistent(ts, InputOf(file)) && TExec(l, file, ti, ts).Some?
    ensures ts.misled ==> TExec(l, file, ti, ts).value.misled
    ensures !TExec(l, file, ti, ts).value.misled ==> Consistent(TExec(l, file, ti, ts).value, InputOf(file))
  {
    hide RunCode, Perform, Code, Operands, ReadAll, ExactStep, Registers, InputOf, RegistersFaithful, Faithful, AllTruthful,
         Describes, Define, AllDescribed;
    var i, input := ti.instr, InputOf(file);
    var args := ReadAll(ts.st.regs, Operands(i.act)).value;
    var eff, syms := Perform(l, file, i.act, args, ts.st).value, SlotValues(ts.slots, ti.slots);
    var s := SymEffect(None, ts.shadow, ts.log);
    SymsDescribe(ts, Operands(i.act), ti.slots, args, input);
    CodeGood(l, file, i, ti.visited, ti.slots, args, syms, ts.st, s);
    var code := Code(l, i.act, ti.visited);
    var s' := RunCode(l, code, ti.slots, args, syms, ts.st, eff, s).value;
    if eff.result.Some? && (s'.result.None? || ExactStep(l, i.act, args)) {
      DefineFaithful(ts.slots, ts.st.regs, i.id, eff.result.value, Registers(i.act, code), s'.result, input);
    }
  }

  predicate BodySound(body: seq<TInstr>)
  {
    forall k :: 0 <= k < |body| ==> InstrSound(body[k])
  }

  function Originals(body: seq<TInstr>): (r: seq<Instr>)
    ensures |r| == |body| && forall k :: 0 <= k < |body| ==> r[k] == body[k].instr
  {
    seq(|body|, k requires 0 <= k < |body| => body[k].instr)
  }

  lemma {:induction false} BodyErases(l: Layout, file: seq<Byte>, body: seq<TInstr>, ts: TState)
    requires BodySound(body)
    ensures TExecBody(l, file, body, ts).Some? <==> ExecBody(l, file, Originals(body), ts.st).Some?
    ensures TExecBody(l, file, body, ts).Some? ==>
              ExecBody(l, file, Originals(body), ts.st) == Some(TExecBody(l, file, body, ts).value.st)
  {
    hide TExec, Exec, InstrSound;
    if body != [] {
      ExecErases(l, file, body[0], ts);
      assert Originals(body)[1..] == Originals(body[1..]);
      var next := TExec(l, file, body[0], ts);
      if next.Some? {
        BodyErases(l, file, body[1..], next.value);
      }
    }
  }

  ghost predicate ConsistentUnlessMisled(ts: TState, input: Input)
  {
    ts.misled || Consistent(ts, input)
  }

  lemma MisledStays(l: Layout, file: seq<Byte>, ti: TInstr, ts: TState)
    requires ts.misled && TExec(l, file, ti, ts).Some?
    ensures TExec(l, file, ti, ts).value.misled
  {
    hide RunCode, Perform, Code, Operands, ReadAll, ExactStep, Registers, Define;
  }

  lemma {:induction false} BodyConsistent(l: Layout, file: seq<Byte>, body: seq<TInstr>, ts: TState)
    requires BodySound(body) && ConsistentUnlessMisled(ts, InputOf(file)) && TExecBody(l, file, body, ts).Some?
    ensures ConsistentUnlessMisled(TExecBody(l, file, body, ts).value, InputOf(file))
  {
    hide TExec, InstrSound, Consistent, InputOf;
    if body != [] {
      var next := TExec(l, file, body[0], ts).value;
      if ts.misled {
        MisledStays(l, file, body[0], ts);
      } else {
        ExecConsistent(l, file, body[0], ts);
      }
      BodyConsistent(l, file, body[1..], next);
    }
  }
}
