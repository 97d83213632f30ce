/** The instrumented program has expressions exactly for what depends on the input, and
    pushes exactly the decisions that do. */
module TaintRuns {
  import opened Bits
  import opened Exprs
  import opened Builders
  import opened ShadowMaps
  import opened Intrinsics
  import opened IR
  import opened Symbolizer
  import opened Instrumentation
  import opened Addresses
  import opened Concolic
  import opened ConcolicRuns
  import opened Awareness
  import opened Taints

  // -------------------------------------------------- which operands a chain reads

  predicate NoneSymbolic(syms: seq<SymExpr>) { forall k :: 0 <= k < |syms| ==> syms[k] == None }

  lemma NoneIsConcrete(c: Computation, syms: seq<SymExpr>)
    requires NoneSymbolic(syms)
    ensures AllConcrete(c, syms)
  {
    hide Inputs;
  }

  lemma UsedIsNone(c: Computation, syms: seq<SymExpr>, k: nat)
    requires AllConcrete(c, syms) && In(k) in Inputs(c) && k < |syms|
    ensures syms[k] == None
  {
    hide Inputs;
    var i :| 0 <= i < |Inputs(c)| && Inputs(c)[i] == In(k);
    assert DynamicOperand(Inputs(c)[i], syms) == syms[k];
  }

  lemma OneReads(fn: RuntimeFn, b: Arg)
    ensures In(0) in Inputs(One(fn, In(0), b))
    ensures b.In? && !Unary1(fn) ==> b in Inputs(One(fn, In(0), b))
  {
    var c := Call(fn, In(0), b);
    assert [c][..0] == [];
    assert ChainInputs([c]) == ChainInputs([]) + CallInputs(c);
    assert In(0) == CallInputs(c)[0];
    if b.In? && !Unary1(fn) { assert CallInputs(c)[1] == b; }
  }

  lemma MergeReads(c: Computation, call: Call, k: nat)
    requires In(k) in Inputs(c) && (c.result == In(k) ==> call.a == c.result || (call.b == c.result && !Unary1(call.fn)))
    ensures In(k) in Inputs(Merge(c, call))
  {
    hide CallInputs;
    InputsLast(c.calls, call);
    if c.result == In(k) { CallHasInput(call, c.result); }
  }

  lemma CallHasInput(call: Call, a: Arg)
    requires !a.Res? && (call.a == a || (call.b == a && !Unary1(call.fn)))
    ensures a in CallInputs(call)
  {
    var s := CallInputs(call);
    if call.a == a { assert s[0] == a; } else { assert s[|s| - 1] == a; }
  }

  lemma MergeReadsNew(c: Computation, call: Call, a: Arg)
    requires !a.Res? && (call.a == a || (call.b == a && !Unary1(call.fn)))
    ensures a in Inputs(Merge(c, call))
  {
    hide CallInputs;
    InputsLast(c.calls, call);
    CallHasInput(call, a);
  }

  lemma CastReads(k: CastKind, from: nat, to: nat)
    ensures In(0) in Inputs(CastChain(k, from, to))
  {
    hide Inputs, ExtendFn;
    OneReads(BuildTrunc(to), In(0));
    OneReads(BuildBoolToBit, In(0));
    OneReads(ExtendFn(k, if from <= to then to - from else 0), In(0));
    var t, b := One(BuildTrunc(to), In(0), In(0)), One(BuildBoolToBit, In(0), In(0));
    MergeReads(t, Call(BuildBitToBool, Res(0), Res(0)), 0);
    MergeReads(b, Call(ExtendFn(k, if to == 0 then 0 else to - 1), Res(0), Res(0)), 0);
  }

  /** Scaling reads the index and keeps everything that was read before. */
  lemma ScaleReads(c: Computation, k: nat, w: nat, size: nat, p: nat, j: nat)
    ensures In(k) in Inputs(Scale(c, k, w, size, p)) && Scale(c, k, w, size, p).result.Res?
    ensures In(j) in Inputs(c) && c.result != In(j) ==> In(j) in Inputs(Scale(c, k, w, size, p))
  {
    hide Inputs, Immediate;
    var size' := Lit(Immediate(size, p));
    if w < p {
      var zext := Call(BuildZExt(p - w), In(k), In(k));
      var z := Merge(c, zext);
      MergeReadsNew(c, zext, In(k));
      MergeReads(z, Call(BuildArith(Mul), z.result, size'), k);
      if In(j) in Inputs(c) && c.result != In(j) {
        MergeReads(c, zext, j);
        MergeReads(z, Call(BuildArith(Mul), z.result, size'), j);
      }
    } else {
      var mul := Call(BuildArith(Mul), In(k), size');
      MergeReadsNew(c, mul, In(k));
      if In(j) in Inputs(c) && c.result != In(j) { MergeReads(c, mul, j); }
    }
  }

  /** What a chain has read or carries as its address so far stays an input. */
  lemma {:induction false} GepKeeps(c: Computation, steps: seq<Step>, k: nat, p: nat, j: nat)
    requires In(j) in Inputs(c)
    ensures In(j) in Inputs(GepChain(c, steps, k, p))
    decreases |steps|
  {
    hide Inputs, Immediate, Scale;
    if steps != [] {
      match steps[0]
      case Field(_, off) =>
        var add := Call(BuildArith(Add), Lit(Immediate(off, p)), c.result);
        MergeReads(c, add, j);
        GepKeeps(Merge(c, add), steps[1..], k, p, j);
      case Elem(o, w, size) =>
        if IsZero(o) {
          GepKeeps(c, steps[1..], k + 1, p, j);
        } else {
          var scaled := Scale(c, k, w, size, p);
          var add := Call(BuildArith(Add), scaled.result, c.result);
          ScaleReads(c, k, w, size, p, j);
          if c.result == In(j) { MergeReadsNew(scaled, add, In(j)); } else { MergeReads(scaled, add, j); }
          GepKeeps(Merge(scaled, add), steps[1..], k + 1, p, j);
        }
    }
  }

  /** The operand of index `m`, in order of the indices. */
  lemma {:induction false} GepReadsIndex(c: Computation, steps: seq<Step>, k: nat, p: nat, m: nat)
    requires m < |IndexOperands(steps)| && !IsZero(IndexOperands(steps)[m])
    ensures In(k + m) in Inputs(GepChain(c, steps, k, p))
    decreases |steps|
  {
    hide Inputs, Immediate, Scale;
    match steps[0]
    case Field(_, off) =>
      GepReadsIndex(Merge(c, Call(BuildArith(Add), Lit(Immediate(off, p)), c.result)), steps[1..], k, p, m);
    case Elem(o, w, size) =>
      if m > 0 {
        var next := if IsZero(o) then c else Merge(Scale(c, k, w, size, p), Call(BuildArith(Add), Scale(c, k, w, size, p).result, c.result));
        assert IndexOperands(steps)[m] == IndexOperands(steps[1..])[m - 1];
        GepReadsIndex(next, steps[1..], k + 1, p, m - 1);
      } else {
        var scaled := Scale(c, k, w, size, p);
        ScaleReads(c, k, w, size, p, k);
        var add := Call(BuildArith(Add), scaled.result, c.result);
        MergeReads(scaled, add, k);
        GepKeeps(Merge(scaled, add), steps[1..], k + 1, p, k);
      }
  }

  /** Immediate operands have no expression. */
  predicate ConstantsAreNull(os: seq<Operand>, syms: seq<SymExpr>)
  {
    |syms| == |os| && forall k :: 0 <= k < |os| && os[k].Imm? ==> syms[k] == None
  }

  lemma GepSkipped(base: Operand, steps: seq<Step>, p: nat, syms: seq<SymExpr>)
    requires ConstantsAreNull([base] + IndexOperands(steps), syms)
    ensures AllConcrete(GepChain(Itself(), steps, 1, p), syms) <==> NoneSymbolic(syms)
  {
    hide AllConcrete, GepChain;
    var c := GepChain(Itself(), steps, 1, p);
    if NoneSymbolic(syms) { NoneIsConcrete(c, syms); }
    if AllConcrete(c, syms) {
      assert In(0) in Inputs(Itself()) by { assert Inputs(Itself()) == [In(0)]; }
      GepKeeps(Itself(), steps, 1, p, 0);
      UsedIsNone(c, syms, 0);
      forall k | 0 <= k < |syms|
        ensures syms[k] == None
      {
        if k > 0 {
          var o := IndexOperands(steps)[k - 1];
          assert ([base] + IndexOperands(steps))[k] == o;
          if !IsZero(o) {
            GepReadsIndex(Itself(), steps, 1, p, k - 1);
            UsedIsNone(c, syms, k);
          }
        }
      }
    }
  }

  /** A call with two operands is skipped if and only if both are null, one with a single
      operand if and only if that is. */
  lemma OneSkipped(fn: RuntimeFn, syms: seq<SymExpr>)
    ensures !Unary1(fn) && |syms| == 2 ==> (AllConcrete(One(fn, In(0), In(1)), syms) <==> NoneSymbolic(syms))
    ensures |syms| == 1 ==> (AllConcrete(One(fn, In(0), In(0)), syms) <==> NoneSymbolic(syms))
  {
    hide AllConcrete, Inputs;
    OneReads(fn, In(1));
    OneReads(fn, In(0));
    if NoneSymbolic(syms) {
      NoneIsConcrete(One(fn, In(0), In(1)), syms);
      NoneIsConcrete(One(fn, In(0), In(0)), syms);
    }
    if !Unary1(fn) && |syms| == 2 && AllConcrete(One(fn, In(0), In(1)), syms) {
      UsedIsNone(One(fn, In(0), In(1)), syms, 0);
      UsedIsNone(One(fn, In(0), In(1)), syms, 1);
    }
    if |syms| == 1 && AllConcrete(One(fn, In(0), In(0)), syms) { UsedIsNone(One(fn, In(0), In(0)), syms, 0); }
  }

  lemma CastSkipped(k: CastKind, from: nat, to: nat, syms: seq<SymExpr>)
    requires |syms| == 1
    ensures AllConcrete(CastChain(k, from, to), syms) <==> NoneSymbolic(syms)
  {
    hide AllConcrete, Inputs, CastChain;
    CastReads(k, from, to);
    if NoneSymbolic(syms) { NoneIsConcrete(CastChain(k, from, to), syms); }
    if AllConcrete(CastChain(k, from, to), syms) { UsedIsNone(CastChain(k, from, to), syms, 0); }
  }

  // ------------------------------------------------------------- one instruction

  function Somes(syms: seq<SymExpr>): (ms: seq<bool>)
    ensures |ms| == |syms| && forall k :: 0 <= k < |syms| ==> (ms[k] <==> syms[k].Some?)
  {
    seq(|syms|, k requires 0 <= k < |syms| => syms[k].Some?)
  }

  function Flags(log: seq<Constraint>): (fs: seq<bool>)
    ensures |fs| == |log| && forall k :: 0 <= k < |log| ==> fs[k] == log[k].taken
  {
    seq(|log|, k requires 0 <= k < |log| => log[k].taken)
  }

  lemma AnyExactly(syms: seq<SymExpr>)
    ensures AnyMark(Somes(syms)) <==> !NoneSymbolic(syms)
  {
    var ms := Somes(syms);
    if k :| 0 <= k < |syms| && syms[k] != None { assert ms[k]; }
  }

  /** What the visitor took for concrete is concrete, and so are constants. */
  predicate Known(act: Action, visited: seq<Slot>, slots: seq<Slot>, syms: seq<SymExpr>)
  {
    |slots| == |syms| == |visited| == |Operands(act)| && Respects(slots, syms) && Respects(visited, syms) &&
    ConstantsAreNull(Operands(act), syms)
  }

  /** The emitted code leaves an expression, shadow bytes and constraints exactly where the
      marks say. */
  predicate MarksResult(l: Layout, act: Action, visited: seq<Slot>, slots: seq<Slot>, args: seq<Val>, syms: seq<SymExpr>,
                        st: State, eff: Effect, s: SymEffect)
    requires |slots| == |args| == |syms| == |visited| == |Operands(act)|
  {
    var code := Code(l, act, visited);
    var r := RunCode(l, code, slots, args, syms, st, eff, s);
    r.Some? && st.pos <= eff.pos &&
    (eff.result.Some? ==> (Registers(act, code) && r.value.result.Some? <==> ResultMark(act, args, Somes(syms), s.shadow.Keys))) &&
    r.value.shadow.Keys == MemoryMarks(act, args, Somes(syms), s.shadow.Keys, eff.pos - st.pos) &&
    Flags(r.value.log) == Flags(s.log) + DecisionMarks(act, args, Somes(syms))
  }

  lemma NothingMarked(l: Layout, act: Action, visited: seq<Slot>, slots: seq<Slot>, args: seq<Val>, syms: seq<SymExpr>,
                      st: State, eff: Effect, s: SymEffect)
    requires Known(act, visited, slots, syms) && |args| == |syms| && AllNull(visited) && s.result == None && st.pos == eff.pos
    requires act.BinOp? || act.ICmp? || act.Cast? || act.Gep? || act.Intrinsic?
    requires Code(l, act, visited) == []
    ensures MarksResult(l, act, visited, slots, args, syms, st, eff, s)
  {
    hide Code, Operands;
    assert NoneSymbolic(syms);
    AnyExactly(syms);
    assert Flags(s.log) + [] == Flags(s.log);
  }

  lemma AssignKeeps(l: Layout, c: Computation, slots: seq<Slot>, args: seq<Val>, syms: seq<SymExpr>, st: State, eff: Effect, s: SymEffect)
    requires |slots| == |args| == |syms|
    ensures var r := RunCode(l, [Assign(c)], slots, args, syms, st, eff, s);
            r.Some? ==> r.value.shadow == s.shadow && r.value.log == s.log
  {
    hide RunGuarded, ComputationOk;
    SingleEmit(l, Assign(c), slots, args, syms, st, eff, s);
  }

  lemma AssignMarked(l: Layout, act: Action, c: Computation, visited: seq<Slot>, slots: seq<Slot>, args: seq<Val>, syms: seq<SymExpr>,
                     st: State, eff: Effect, s: SymEffect)
    requires Known(act, visited, slots, syms) && |args| == |syms| && st.pos == eff.pos && ComputationOk(c, |args|)
    requires act.BinOp? || act.ICmp? || act.Cast? || act.Gep? || act.Intrinsic?
    requires Code(l, act, visited) == [Assign(c)] && (AllConcrete(c, syms) <==> NoneSymbolic(syms))
    ensures MarksResult(l, act, visited, slots, args, syms, st, eff, s)
  {
    hide Code, Operands, RunCode, AllConcrete, NoneSymbolic, ComputationOk, AnyMark, Meaning;
    AssignRuns(l, c, slots, args, syms, st, eff, s);
    AssignKeeps(l, c, slots, args, syms, st, eff, s);
    AnyExactly(syms);
    assert Flags(s.log) + [] == Flags(s.log);
  }

  lemma SelectMarked(l: Layout, act: Action, visited: seq<Slot>, slots: seq<Slot>, args: seq<Val>, syms: seq<SymExpr>,
                     st: State, eff: Effect, s: SymEffect)
    requires act.Select? && Known(act, visited, slots, syms) && |args| == |syms| && s.result == None && st.pos == eff.pos
    ensures MarksResult(l, act, visited, slots, args, syms, st, eff, s)
  {
    hide RunGuarded, Itself, AllConcrete, ComputationOk, Meaning, RunCode;
    assert Operands(act) == [act.c, act.a, act.b];
    var code, tail := Code(l, act, visited), if visited[1].Null? && visited[2].Null? then [] else [Pick];
    PushMarked(l, slots, args, syms, st, eff, s);
    if visited[0].Null? {
      assert code == tail;
      PickMarked(l, tail, slots, args, syms, st, eff, s);
      assert Flags(s.log) + [] == Flags(s.log);
    } else {
      assert code == [Push(Itself())] + tail && code[1..] == tail;
      var s1 := RunEmit(l, Push(Itself()), slots, args, syms, st, eff, s).value;
      PushThen(l, tail, slots, args, syms, st, eff, s);
      PickMarked(l, tail, slots, args, syms, st, eff, s1);
    }
  }

  lemma PushThen(l: Layout, tail: seq<Emit>, slots: seq<Slot>, args: seq<Val>, syms: seq<SymExpr>, st: State, eff: Effect, s: SymEffect)
    requires |slots| == |args| == |syms| && RunEmit(l, Push(Itself()), slots, args, syms, st, eff, s).Some?
    ensures RunCode(l, [Push(Itself())] + tail, slots, args, syms, st, eff, s)
         == RunCode(l, tail, slots, args, syms, st, eff, RunEmit(l, Push(Itself()), slots, args, syms, st, eff, s).value)
  {
    hide RunEmit;
    assert ([Push(Itself())] + tail)[1..] == tail;
  }

  lemma PickMarked(l: Layout, tail: seq<Emit>, slots: seq<Slot>, args: seq<Val>, syms: seq<SymExpr>, st: State, eff: Effect, s: SymEffect)
    requires |slots| == |args| == |syms| == 3 && (tail == [] || tail == [Pick])
    ensures var r := RunCode(l, tail, slots, args, syms, st, eff, s);
            r.Some? && r.value.shadow == s.shadow && r.value.log == s.log &&
            r.value.result == if tail == [] then s.result else if args[0].bits == 1 then syms[1] else syms[2]
  {
  }

  lemma PushMarked(l: Layout, slots: seq<Slot>, args: seq<Val>, syms: seq<SymExpr>, st: State, eff: Effect, s: SymEffect)
    requires |slots| == |args| == |syms| && |args| >= 1 && Respects(slots, syms)
    ensures var r := RunEmit(l, Push(Itself()), slots, args, syms, st, eff, s);
            r.Some? && r.value.result == s.result && r.value.shadow == s.shadow &&
            r.value.log == s.log + (if syms[0].Some? then [Constraint(syms[0].value, args[0].bits == 1)] else [])
  {
    hide RunGuarded, Meaning, ComputationOk, ValueExpr;
    ItselfMeans(Completed(args, syms));
    ShortCircuitMeaning(Itself(), slots, args, syms);
    assert Inputs(Itself()) == [In(0)];
    assert AllConcrete(Itself(), syms) <==> syms[0] == None by {
      if AllConcrete(Itself(), syms) { assert DynamicOperand(Inputs(Itself())[0], syms) == None; }
    }
  }

  // ------------------------------------------------------------------- memory

  lemma ConcreteExactly(sh: ShadowMap, a: nat, n: nat)
    ensures Concrete(sh, a, n) <==> !AnyByte(sh.Keys, a, n)
  {
    if AnyByte(sh.Keys, a, n) { var x :| a <= x < a + n && x in sh.Keys; }
  }

  lemma LoadMarked(l: Layout, act: Action, visited: seq<Slot>, slots: seq<Slot>, args: seq<Val>, syms: seq<SymExpr>,
                   st: State, eff: Effect, s: SymEffect)
    requires act.LoadI? && Known(act, visited, slots, syms) && |args| == |syms| && PerformLoad(l, args[0], act.width, st) == Some(eff)
    ensures MarksResult(l, act, visited, slots, args, syms, st, eff, s)
  {
    hide Read, AnyByte, Concrete, RunCode, BinaryValue, Comparison, Convert, IntrinsicValue, RunGuarded, ComputationOk, One, CastChain,
         GepChain, Itself, IntrinsicCall, AllNull, AllZero,
         BinaryFn, ComparisonFn, Respects, ConstantsAreNull, LoadValue, Displacement, IndicesFit;
    var a, n := args[0].bits, StoreSize(act.width);
    SingleEmit(l, ReadShadow(act.width), slots, args, syms, st, eff, s);
    ConcreteExactly(s.shadow, a, n);
    ReadExactly(s.shadow, st.mem, a, n, l.littleEndian);
    assert Flags(s.log) + [] == Flags(s.log);
  }

  lemma ReadExactly(sh: ShadowMap, mem: Memory, a: nat, n: nat, le: bool)
    requires n >= 1 && Backed(mem, a, n)
    ensures Read(sh, mem, a, n, le) == None <==> Concrete(sh, a, n)
  {
    hide Joined, Concrete;
  }

  lemma WriteKeys(sh: ShadowMap, a: nat, n: nat, e: SymExpr, le: bool)
    ensures Write(sh, a, n, e, le).Keys == SetRange(sh.Keys, a, n, e.Some?)
    ensures Fill(sh, a, n, e).Keys == SetRange(sh.Keys, a, n, e.Some?)
  {
    hide ByteOf;
  }

  lemma MoveKeys(sh: ShadowMap, dest: nat, src: nat, n: nat)
    ensures Move(sh, dest, src, n).Keys == set x | x in sh.Keys + Span(dest, n) && Origin(x, dest, src, n) in sh.Keys
  {
  }

  lemma InputKeys(sh: ShadowMap, a: nat, n: nat, pos: nat)
    ensures InputShadow(sh, a, n, pos).Keys == SetRange(sh.Keys, a, n, true)
  {
  }

  lemma MemoryMarked(l: Layout, file: seq<Byte>, act: Action, visited: seq<Slot>, slots: seq<Slot>, args: seq<Val>, syms: seq<SymExpr>,
                     st: State, s: SymEffect)
    requires act.StoreI? || act.MemMoveI? || act.MemSetI? || act.ReadInput?
    requires Known(act, visited, slots, syms) && |args| == |syms| && Perform(l, file, act, args, st).Some? && s.result == None
    ensures MarksResult(l, act, visited, slots, args, syms, st, Perform(l, file, act, args, st).value, s)
  {
    hide Write, Fill, Move, InputShadow, SetRange, Store, Load, Ordered, ValueBytes, RunCode, BinaryValue, Comparison, Convert,
         IntrinsicValue, RunGuarded, ComputationOk, One, CastChain, GepChain, Itself, IntrinsicCall, AllNull, AllZero,
         BinaryFn, ComparisonFn, Backed, Respects, ConstantsAreNull, LoadValue, Displacement, IndicesFit;
    var eff := Perform(l, file, act, args, st).value;
    assert Flags(s.log) + [] == Flags(s.log);
    match act
    case StoreI(_, _, w) =>
      SingleEmit(l, WriteShadow(w), slots, args, syms, st, eff, s);
      WriteKeys(s.shadow, args[0].bits, StoreSize(w), ToMemory(syms[1], w), l.littleEndian);
    case MemMoveI(_, _, _) =>
      SingleEmit(l, MoveShadow, slots, args, syms, st, eff, s);
      MoveKeys(s.shadow, args[0].bits, args[1].bits, args[2].bits);
    case MemSetI(_, _, _) =>
      SingleEmit(l, FillShadow, slots, args, syms, st, eff, s);
      WriteKeys(s.shadow, args[0].bits, args[2].bits, syms[1], true);
    case ReadInput(_, _) =>
      SingleEmit(l, MakeSymbolic, slots, args, syms, st, eff, s);
      InputKeys(s.shadow, args[0].bits, eff.pos - st.pos, st.pos);
    case _ =>
  }

  /** Every instruction: expression, shadow and constraints are exactly where the marks say. */
  lemma InstrMarked(l: Layout, file: seq<Byte>, act: Action, visited: seq<Slot>, slots: seq<Slot>, args: seq<Val>, syms: seq<SymExpr>,
                    st: State, s: SymEffect)
    requires Known(act, visited, slots, syms) && |args| == |syms| && Perform(l, file, act, args, st).Some? && s.result == None
    ensures MarksResult(l, act, visited, slots, args, syms, st, Perform(l, file, act, args, st).value, s)
  {
    hide MarksResult, BinaryValue, Comparison, Convert, IntrinsicValue, PerformStore, PerformMove, PerformSet, PerformRead, PerformLoad,
         One, CastChain, GepChain, Itself, AllConcrete, NoneSymbolic, ComputationOk, Wrap, Displacement, IndicesFit, AllNull, IntrinsicCall, AllZero;
    var eff := Perform(l, file, act, args, st).value;
    match act
    case BinOp(op, _, _, w) =>
      OneOk(BinaryFn(op, w));
      OneSkipped(BinaryFn(op, w), syms);
      if AllNull(visited) { NothingMarked(l, act, visited, slots, args, syms, st, eff, s); }
      else { AssignMarked(l, act, One(BinaryFn(op, w), In(0), In(1)), visited, slots, args, syms, st, eff, s); }
    case ICmp(p, _, _) =>
      OneOk(ComparisonFn(p));
      OneSkipped(ComparisonFn(p), syms);
      if AllNull(visited) { NothingMarked(l, act, visited, slots, args, syms, st, eff, s); }
      else { AssignMarked(l, act, One(ComparisonFn(p), In(0), In(1)), visited, slots, args, syms, st, eff, s); }
    case Cast(k, _, from, to) =>
      CastChainOk(k, from, to);
      CastSkipped(k, from, to, syms);
      if AllNull(visited) && (from != 1 || k.Truncate?) { NothingMarked(l, act, visited, slots, args, syms, st, eff, s); }
      else { AssignMarked(l, act, CastChain(k, from, to), visited, slots, args, syms, st, eff, s); }
    case Gep(_, _) => GepMarked(l, file, act, visited, slots, args, syms, st, s);
    case Intrinsic(f, _, _, w) =>
      IntrinsicOk(l, f, w);
      IntrinsicSkipped(l, f, w, syms);
      if AllNull(visited) { NothingMarked(l, act, visited, slots, args, syms, st, eff, s); }
      else { AssignMarked(l, act, IntrinsicCall(l, f, w), visited, slots, args, syms, st, eff, s); }
    case Select(_, _, _) => SelectMarked(l, act, visited, slots, args, syms, st, eff, s);
    case LoadI(_, _) => LoadMarked(l, act, visited, slots, args, syms, st, eff, s);
    case _ => MemoryMarked(l, file, act, visited, slots, args, syms, st, s);
  }

  lemma IntrinsicSkipped(l: Layout, f: IntrinsicFn, w: nat, syms: seq<SymExpr>)
    requires |syms| == if UnaryIntrinsic(f) then 1 else 2
    ensures AllConcrete(IntrinsicCall(l, f, w), syms) <==> NoneSymbolic(syms)
  {
    hide AllConcrete, NoneSymbolic, One, Wrap;
    OneSkipped(BuildIntrinsic(f, w, Wrap(l.wild, 64)), syms);
  }

  lemma GepMarked(l: Layout, file: seq<Byte>, act: Action, visited: seq<Slot>, slots: seq<Slot>, args: seq<Val>, syms: seq<SymExpr>,
                  st: State, s: SymEffect)
    requires act.Gep? && Known(act, visited, slots, syms) && |args| == |syms| && Perform(l, file, act, args, st).Some? && s.result == None
    ensures MarksResult(l, act, visited, slots, args, syms, st, Perform(l, file, act, args, st).value, s)
  {
    hide GepChain, Itself, AllConcrete, NoneSymbolic, ComputationOk, Wrap, Displacement, IndicesFit, AllNull, AllZero, RunCode, AnyMark;
    var eff, c := Perform(l, file, act, args, st).value, GepChain(Itself(), act.steps, 1, l.ptrBits);
    GepOk(act.steps, args[1..], l.ptrBits);
    GepSkipped(act.base, act.steps, l.ptrBits, syms);
    if AllNull(visited) {
      NothingMarked(l, act, visited, slots, args, syms, st, eff, s);
    } else if AllZero(act.steps) {
      CopyRuns(l, slots, args, syms, st, eff, s);
      ZeroMarks(act.base, act.steps, syms);
      assert Flags(s.log) + [] == Flags(s.log);
    } else {
      AssignMarked(l, act, c, visited, slots, args, syms, st, eff, s);
    }
  }

  /** With indices that are all the constant 0 only the base can be symbolic. */
  lemma ZeroMarks(base: Operand, steps: seq<Step>, syms: seq<SymExpr>)
    requires AllZero(steps) && ConstantsAreNull([base] + IndexOperands(steps), syms)
    ensures AnyMark(Somes(syms)) <==> syms[0].Some?
  {
    var os := [base] + IndexOperands(steps);
    ZeroOperands(steps);
    var ms := Somes(syms);
    if syms[0].Some? { assert ms[0]; }
    forall k | 1 <= k < |syms|
      ensures !ms[k]
    {
      assert os[k] == IndexOperands(steps)[k - 1];
    }
  }

  lemma {:induction false} ZeroOperands(steps: seq<Step>)
    requires AllZero(steps)
    ensures forall k :: 0 <= k < |IndexOperands(steps)| ==> IndexOperands(steps)[k].Imm?
  {
    if steps != [] {
      assert ZeroStep(steps[0]);
      forall k | 0 <= k < |steps| - 1
        ensures ZeroStep(steps[1..][k])
      {
        assert ZeroStep(steps[k + 1]);
      }
      ZeroOperands(steps[1..]);
    }
  }

  // ------------------------------------------------------------------ whole runs

  /** Expressions, shadow bytes, passed loop conditions and pushed directions are those
      that the marks say. */
  ghost predicate Exactly(ts: TState, t: Taint)
  {
    (forall id :: id in t.regs <==> id in ts.slots && ts.slots[id].Some?) &&
    ts.shadow.Keys == t.mem && ts.seen == t.seen && Flags(ts.log) == t.flags
  }

  lemma SlotsKnown(ti: TInstr, ts: TState, l: Layout, usable: set<Id>)
    requires InstrSound(ti) && InstrAware(l, ti, usable) && SlotsWithin(ts.slots, usable)
    ensures Known(ti.instr.act, ti.visited, ti.slots, SlotValues(ts.slots, ti.slots))
  {
    hide Operands, Code, Registers;
    var os, syms := Operands(ti.instr.act), SlotValues(ts.slots, ti.slots);
    forall k | 0 <= k < |os| && ti.visited[k].Null?
      ensures syms[k] == None
    {
      assert SlotFits(os[k], ti.visited[k], usable);
    }
  }

  lemma MarksAre(ti: TInstr, ts: TState, t: Taint, l: Layout, usable: set<Id>)
    requires InstrSound(ti) && InstrAware(l, ti, usable) && SlotsWithin(ts.slots, usable) && Exactly(ts, t)
    ensures Somes(SlotValues(ts.slots, ti.slots)) == Marks(Operands(ti.instr.act), t.regs)
  {
    hide Operands, Code, Registers;
    var os, syms := Operands(ti.instr.act), SlotValues(ts.slots, ti.slots);
    CoveredBy(os, ti.slots, ts.slots, usable);
    forall k | 0 <= k < |os|
      ensures syms[k].Some? <==> os[k].Reg? && os[k].id in t.regs
    {
      if ti.slots[k].Held? { assert os[k] == Reg(ti.slots[k].id); }
    }
  }

  /** One instruction of the instrumented program against the marks. */
  lemma ExecExactly(l: Layout, file: seq<Byte>, ti: TInstr, ts: TState, t: Taint, usable: set<Id>)
    requires InstrSound(ti) && InstrAware(l, ti, usable) && SlotsWithin(ts.slots, usable) && Exactly(ts, t)
    requires TExec(l, file, ti, ts).Some?
    ensures Exactly(TExec(l, file, ti, ts).value, TaintExec(l, file, ti.instr, ts.st, t))
  {
    hide RunCode, Perform, Code, Operands, ReadAll, ExactStep, Registers, SlotsFit, InstrAware, InstrSound, SlotsWithin, ResultMark,
         MemoryMarks, DecisionMarks, Known, Commit;
    var args := ReadAll(ts.st.regs, Operands(ti.instr.act)).value;
    SlotsKnown(ti, ts, l, usable);
    MarksAre(ti, ts, t, l, usable);
    KnownSizes(ti.instr.act, ti.visited, ti.slots, SlotValues(ts.slots, ti.slots));
    InstrMarked(l, file, ti.instr.act, ti.visited, ti.slots, args, SlotValues(ts.slots, ti.slots), ts.st, SymEffect(None, ts.shadow, ts.log));
  }

  lemma KnownSizes(act: Action, visited: seq<Slot>, slots: seq<Slot>, syms: seq<SymExpr>)
    requires Known(act, visited, slots, syms)
    ensures |slots| == |syms| == |visited| == |Operands(act)|
  {
  }

  lemma {:induction false} BodyExactly(l: Layout, file: seq<Byte>, body: seq<TInstr>, ts: TState, t: Taint, usable: set<Id>)
    requires BodySound(body) && BodyAware(l, body, usable) && SlotsWithin(ts.slots, usable) && Exactly(ts, t)
    requires TExecBody(l, file, body, ts).Some?
    ensures Exactly(TExecBody(l, file, body, ts).value, TaintBody(l, file, Originals(body), ts.st, t))
    ensures SlotsWithin(TExecBody(l, file, body, ts).value.slots, usable)
  {
    hide TExec, Exec, TaintExec, InstrSound, InstrAware, SlotsWithin, Exactly;
    if body != [] {
      ExecErases(l, file, body[0], ts);
      ExecExactly(l, file, body[0], ts, t, usable);
      ExecWithin(l, file, body[0], ts, usable);
      assert Originals(body)[1..] == Originals(body[1..]);
      BodyExactly(l, file, body[1..], TExec(l, file, body[0], ts).value, TaintExec(l, file, body[0].instr, ts.st, t), usable);
    }
  }

  // ----------------------------------------------------------------- PHI nodes

  /** The chosen edge carries an expression exactly if its operand is marked. */
  lemma IncomingMarked(phi: Phi, known: set<Id>, erased: set<Id>, pred: Label, slots: map<Id, SymExpr>, regs: set<Id>)
    requires pred in phi.incoming && SlotsWithin(slots, known - erased) && forall id :: id in regs <==> id in slots && slots[id].Some?
    ensures var s := if OnlyConstants(phi, known) then Null else Forget(SlotOf(known, phi.incoming[pred]), erased);
            SlotValue(slots, s).Some? <==> phi.incoming[pred].Reg? && phi.incoming[pred].id in regs
  {
  }

  lemma {:induction false} PhiMarksWithin(phis: seq<Phi>, pred: Label, regs: set<Id>)
    ensures PhiMarks(phis, pred, regs) <= PhiKeys(phis)
  {
    if phis != [] { PhiMarksWithin(phis[1..], pred, regs); }
  }

  lemma {:induction false} PhiValueKeys(phis: seq<Phi>, pred: Label, regs: map<Id, Val>)
    requires PhiValues(phis, pred, regs).Some?
    ensures PhiValues(phis, pred, regs).value.Keys == PhiKeys(phis)
  {
    if phis != [] { PhiValueKeys(phis[1..], pred, regs); }
  }

  lemma {:induction false} PhisMarked(phis: seq<Phi>, known: set<Id>, erased: set<Id>, pred: Label, slots: map<Id, SymExpr>,
                                      regs: set<Id>, vals: map<Id, Val>, id: Id)
    requires DistinctPhis(phis) && SlotsWithin(slots, known - erased) && PhiValues(phis, pred, vals).Some?
    requires forall id :: id in regs <==> id in slots && slots[id].Some?
    ensures var es := SymPhiValues(FinalPhis(phis, known, erased), pred, slots);
            id in PhiMarks(phis, pred, regs) <==> id in es && es[id].Some?
  {
    hide OnlyConstants, SlotsWithin, SlotOf, Forget, SlotValue, Read1;
    if phis != [] {
      var phi, rest := phis[0], FinalPhis(phis[1..], known, erased);
      PhisMarked(phis[1..], known, erased, pred, slots, regs, vals, id);
      IncomingMarked(phi, known, erased, pred, slots, regs);
      NullValue(slots);
      if OnlyConstants(phi, known) {
        if phi.id in SymPhiValues(rest, pred, slots) { SymPhiKeys(phis[1..], known, erased, pred, slots, phi.id); }
      } else {
        assert FinalPhis(phis, known, erased)[1..] == rest;
      }
    }
  }

  lemma NullValue(slots: map<Id, SymExpr>)
    ensures SlotValue(slots, Null) == None
  {
  }

  lemma EnterExactly(tf: TFunction, f: Function, known: set<Id>, erased: set<Id>, l: Label, pred: Label, ts: TState, t: Taint)
    requires Aware(tf, f, known, erased) && WellFormed(f) && l in f.blocks && SlotsWithin(ts.slots, known - erased) && Exactly(ts, t)
    requires TEnter(tf.blocks[l], pred, ts).Some?
    ensures Exactly(TEnter(tf.blocks[l], pred, ts).value, TaintEnter(f.blocks[l], pred, t))
  {
    hide PhiValues, SymPhiValues, FinalPhis, PhiMarks, PhiKeys, BlockAware, SlotsWithin, DistinctPhis, IsPhi, BodySound, TermSound;
    var phis := f.blocks[l].phis;
    PhiValueKeys(phis, pred, ts.st.regs);
    var es := SymPhiValues(FinalPhis(phis, known, erased), pred, ts.slots);
    var r := TEnter(tf.blocks[l], pred, ts).value.slots;
    PhiMarksWithin(phis, pred, t.regs);
    forall id
      ensures id in (t.regs - PhiKeys(phis)) + PhiMarks(phis, pred, t.regs) <==> id in r && r[id].Some?
    {
      PhisMarked(phis, known, erased, pred, ts.slots, t.regs, ts.st.regs, id);
      if id in es { SymPhiIsPhi(phis, known, erased, pred, ts.slots, id); }
    }
  }

  lemma SymPhiIsPhi(phis: seq<Phi>, known: set<Id>, erased: set<Id>, pred: Label, slots: map<Id, SymExpr>, id: Id)
    requires id in SymPhiValues(FinalPhis(phis, known, erased), pred, slots)
    ensures id in PhiKeys(phis)
  {
    SymPhiKeys(phis, known, erased, pred, slots, id);
    var k :| 0 <= k < |phis| && phis[k].id == id;
    PhiKeyAt(phis, k);
  }

  lemma {:induction false} PhiKeyAt(phis: seq<Phi>, k: nat)
    requires k < |phis|
    ensures phis[k].id in PhiKeys(phis)
  {
    if k > 0 { PhiKeyAt(phis[1..], k - 1); }
  }

  // ----------------------------------------------------------------- terminators

  lemma {:induction false} CasesFlagged(cases: seq<(Val, Label)>, e: Expr, v: Val)
    ensures Flags(CaseConstraints(cases, e, v)) == CaseFlags(cases, v)
  {
    hide ValueExpr;
    if cases != [] {
      CasesFlagged(cases[1..], e, v);
      var fs, gs := Flags(CaseConstraints(cases, e, v)), CaseFlags(cases, v);
      assert |fs| == |gs| && forall k :: 0 <= k < |fs| ==> fs[k] == gs[k] by {
        forall k | 0 <= k < |fs|
          ensures fs[k] == gs[k]
        {
          if k > 0 { assert Flags(CaseConstraints(cases[1..], e, v))[k - 1] == CaseFlags(cases[1..], v)[k - 1]; }
        }
      }
    }
  }

  lemma FlagsConcat(a: seq<Constraint>, b: seq<Constraint>)
    ensures Flags(a + b) == Flags(a) + Flags(b)
  {
  }

  lemma ConditionMarked(t: TTerm, c: Operand, slots: map<Id, SymExpr>, regs: set<Id>, usable: set<Id>)
    requires TermSound(t) && TermAware(t, usable) && SlotsWithin(slots, usable) && Condition(t.term) == Some(c)
    requires forall id :: id in regs <==> id in slots && slots[id].Some?
    ensures t.visited.Held? && SlotValue(slots, t.slot).Some? <==> Marked(c, regs)
  {
    assert SlotFits(c, t.visited, usable) && SlotFits(c, t.slot, usable);
  }

  lemma LeaveExactly(loops: LoopInfo, tt: TTerm, here: Label, ts: TState, t: Taint, usable: set<Id>)
    requires TermSound(tt) && TermAware(tt, usable) && SlotsWithin(ts.slots, usable) && Exactly(ts, t)
    requires tt.guarded == IsLoopCondition(loops, here, tt.term) && !TLeave(tt, here, ts).TStuck?
    ensures Exactly(BeforeLeaving(tt, here, ts), TaintLeave(loops, here, tt.term, ts.st, t))
  {
    hide IsLoopCondition, SlotValue, CaseConstraints, CaseTarget, TermAware, TermSound, SlotsWithin;
    match tt.term
    case CondBr(c, _, _) =>
      ConditionMarked(tt, c, ts.slots, t.regs, usable);
      var e, v := SlotValue(ts.slots, tt.slot), Read1(ts.st.regs, c).value;
      if e.Some? { FlagsConcat(ts.log, [Constraint(e.value, v.bits == 1)]); }
    case Switch(c, cases, _) =>
      ConditionMarked(tt, c, ts.slots, t.regs, usable);
      var e, v := SlotValue(ts.slots, tt.slot), Read1(ts.st.regs, c).value;
      if e.Some? {
        FlagsConcat(ts.log, CaseConstraints(cases, e.value, v));
        CasesFlagged(cases, e.value, v);
      }
    case _ =>
  }

  // ---------------------------------------------------------------- main theorem

  ghost predicate OutcomeExactly(o: TOutcome, t: Taint, usable: set<Id>)
  {
    o.TStuck? || (Exactly(o.ts, t) && SlotsWithin(o.ts.slots, usable))
  }

  lemma LeaveSlots(tt: TTerm, here: Label, ts: TState)
    ensures BeforeLeaving(tt, here, ts).slots == ts.slots && BeforeLeaving(tt, here, ts).shadow == ts.shadow
    ensures !TLeave(tt, here, ts).TStuck? ==> TLeave(tt, here, ts).ts == BeforeLeaving(tt, here, ts)
  {
    hide CaseConstraints, SlotValue, CaseTarget;
  }

  lemma BlockExactly(tf: TFunction, f: Function, loops: LoopInfo, known: set<Id>, erased: set<Id>, file: seq<Byte>, o: TOutcome, t: Taint)
    requires Aware(tf, f, known, erased) && WellFormed(f) && OutcomeExactly(o, t, known - erased)
    requires forall l :: l in f.blocks ==> tf.blocks[l].term.guarded == IsLoopCondition(loops, l, f.blocks[l].term)
    ensures OutcomeExactly(TRunBlock(tf, file, o), TaintBlock(f, loops, file, Erase(o), t), known - erased)
  {
    hide TExecBody, TEnter, TLeave, BeforeLeaving, TaintBody, TaintEnter, TaintLeave, FinalPhis, BodySound, TermSound, BodyAware, TermAware,
         Exactly, SlotsWithin, DistinctPhis, IsPhi, IsLoopCondition, ExecBody, EnterBlock, OnlyConstants;
    if o.TAt? && !TRunBlock(tf, file, o).TStuck? {
      var l, tb, usable := o.block, tf.blocks[o.block], known - erased;
      assert BlockAware(f.layout, tb, usable) && BlockVisited(tb, f.blocks[l]);
      var entered := TEnter(tb, o.pred, o.ts).value;
      EnterErases(tb, f.blocks[l], o.pred, o.ts);
      EnterExactly(tf, f, known, erased, l, o.pred, o.ts, t);
      EnterWithin(tf, f, known, erased, l, o.pred, o.ts);
      BodyErases(f.layout, file, tb.body, entered);
      BodyExactly(f.layout, file, tb.body, entered, TaintEnter(f.blocks[l], o.pred, t), usable);
      var end, t' := TExecBody(f.layout, file, tb.body, entered).value, TaintBody(f.layout, file, f.blocks[l].body, entered.st, TaintEnter(f.blocks[l], o.pred, t));
      LeaveExactly(loops, tb.term, l, end, t', usable);
      LeaveSlots(tb.term, l, end);
    }
  }

  lemma EnterErases(tb: TBlock, b: Block, pred: Label, ts: TState)
    requires tb.phis == b.phis && TEnter(tb, pred, ts).Some?
    ensures EnterBlock(b, pred, ts.st) == Some(TEnter(tb, pred, ts).value.st)
  {
    hide PhiValues, SymPhiValues;
  }

  lemma {:induction false} RunExactly(tf: TFunction, f: Function, loops: LoopInfo, known: set<Id>, erased: set<Id>, file: seq<Byte>, o: TOutcome, n: nat)
    requires Aware(tf, f, known, erased) && WellFormed(f) && o.TAt? && o.ts == Start(o.ts.st)
    requires forall l :: l in f.blocks ==> tf.blocks[l].term.guarded == IsLoopCondition(loops, l, f.blocks[l].term)
    ensures Erase(TRun(tf, file, o, n)) == Run(f, file, Erase(o), n)
    ensures OutcomeExactly(TRun(tf, file, o, n), TaintRun(f, loops, file, Erase(o), n), known - erased)
  {
    hide TRunBlock, RunBlock, TaintBlock, Aware, WellFormed, Instruments, IsLoopCondition;
    if n > 0 {
      RunExactly(tf, f, loops, known, erased, file, o, n - 1);
      AwareInstruments(tf, f, known, erased);
      BlockErases(tf, f, known, erased, file, TRun(tf, file, o, n - 1));
      BlockExactly(tf, f, loops, known, erased, file, TRun(tf, file, o, n - 1), TaintRun(f, loops, file, Erase(o), n - 1));
    }
  }

  lemma AwareInstruments(tf: TFunction, f: Function, known: set<Id>, erased: set<Id>)
    requires Aware(tf, f, known, erased)
    ensures Instruments(tf, f, known, erased)
  {
    hide Instruments, BlockAware, IsPhi, OnlyConstants;
  }

  /** Precision. After any number of blocks the instrumented program has an expression for a
      value or a byte if and only if the original program computed it from input bytes, and
      it has pushed one constraint for each decision on such a value, in order and with the
      direction taken: branches (loop conditions the first time), selects, and every case of
      a switch. */
  lemma TaintIsExact(f: Function, loops: LoopInfo, file: seq<Byte>, pred: Label, st: State, n: nat)
    requires WellFormed(f) && DefsFirst(f)
    ensures var o := TRun(Instrument(f, loops), file, TAt(f.entry, pred, Start(st)), n);
            o.TStuck? || Exactly(o.ts, TaintRun(f, loops, file, At(f.entry, pred, st), n))
  {
    hide Instrument, TRun, Run, WellFormed, DefsFirst, Aware, Exactly, SlotsWithin, TaintRun, IsLoopCondition;
    var known, erased := InstrumentAware(f, loops);
    forall l | l in f.blocks
      ensures l in Instrument(f, loops).blocks && Instrument(f, loops).blocks[l].term.guarded == IsLoopCondition(loops, l, f.blocks[l].term)
    {
      InstrumentGuards(f, loops, l);
    }
    RunExactly(Instrument(f, loops), f, loops, known, erased, file, TAt(f.entry, pred, Start(st)), n);
  }
}
