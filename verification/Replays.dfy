/** What the expressions and constraints of a run say about other inputs: any input that
    satisfies the pushed constraints takes the same path, with the same expressions, and
    these evaluate to the values that it leads to. */
module Replays {
  import opened Bits
  import opened Exprs
  import opened Builders
  import opened ShadowMaps
  import opened IR
  import opened Symbolizer
  import opened Instrumentation
  import opened Concolic
  import opened Awareness
  import opened Taints
  import opened TaintRuns

  // -------------------------------------------------------- two runs side by side

  predicate RegsAlike(slots: map<Id, SymExpr>, regs: map<Id, Val>, regs': map<Id, Val>)
  {
    regs.Keys == regs'.Keys && forall id :: id in regs && (id !in slots || slots[id] == None) ==> regs[id] == regs'[id]
  }

  predicate SameInstrs(t: seq<Event>, t': seq<Event>)
  {
    |t| == |t'| && forall k :: 0 <= k < |t| ==> t[k].instr == t'[k].instr
  }

  /** The same symbolic state, and concrete states that differ only where it has expressions. */
  predicate Together(ts: TState, ts': TState)
  {
    ts.slots == ts'.slots && ts.shadow == ts'.shadow && ts.seen == ts'.seen && ts.log == ts'.log &&
    RegsAlike(ts.slots, ts.st.regs, ts'.st.regs) && Alike(ts.shadow, ts.st.mem, ts'.st.mem) &&
    ts.st.pos == ts'.st.pos && SameInstrs(ts.st.trace, ts'.st.trace)
  }

  /** The pass fixes addresses and lengths to their concrete values without a constraint. */
  predicate SameAddresses(act: Action, args: seq<Val>, args': seq<Val>)
  {
    |args| == |args'| == |Operands(act)| ==>
    match act
    case LoadI(_, _) => args[0] == args'[0]
    case StoreI(_, _, _) => args[0] == args'[0]
    case MemMoveI(_, _, _) => args == args'
    case MemSetI(_, _, _) => args[0] == args'[0] && args[2] == args'[2]
    case ReadInput(_, _) => args == args'
    case _ => true
  }

  predicate Conforms(t: seq<Event>, t': seq<Event>)
  {
    forall k :: 0 <= k < |t| && k < |t'| && t[k].instr == t'[k].instr ==> SameAddresses(t[k].instr.act, t[k].args, t'[k].args)
  }

  // ---------------------------------------------------------------- the emitted code

  /** Operands without an expression have the same values. */
  predicate ArgsAlike(syms: seq<SymExpr>, args: seq<Val>, args': seq<Val>)
  {
    |syms| == |args| == |args'| && forall k :: 0 <= k < |syms| && syms[k] == None ==> args[k] == args'[k]
  }

  lemma CompletedSame(syms: seq<SymExpr>, args: seq<Val>, args': seq<Val>)
    requires ArgsAlike(syms, args, args')
    ensures Completed(args, syms) == Completed(args', syms)
  {
    hide ValueExpr;
  }

  lemma GuardedSame(c: Computation, slots: seq<Slot>, syms: seq<SymExpr>, args: seq<Val>, args': seq<Val>)
    requires ArgsAlike(syms, args, args') && |slots| == |args| && Respects(slots, syms) && ComputationOk(c, |args|)
    ensures RunGuarded(c, slots, args, syms) == RunGuarded(c, slots, args', syms)
  {
    hide Meaning, Completed, AllConcrete, RunGuarded, ComputationOk;
    CompletedSame(syms, args, args');
    ShortCircuitMeaning(c, slots, args, syms);
    ShortCircuitMeaning(c, slots, args', syms);
  }

  /** What the two runs have in common at an instruction. */
  predicate Meet(act: Action, visited: seq<Slot>, slots: seq<Slot>, syms: seq<SymExpr>, args: seq<Val>, args': seq<Val>,
                 st: State, st': State, sh: ShadowMap)
  {
    Known(act, visited, slots, syms) && ArgsAlike(syms, args, args') && SameAddresses(act, args, args') &&
    Alike(sh, st.mem, st'.mem) && st.pos == st'.pos && (act.Select? ==> (args[0].bits == 1 <==> args'[0].bits == 1))
  }

  lemma AssignSame(l: Layout, c: Computation, slots: seq<Slot>, syms: seq<SymExpr>, args: seq<Val>, args': seq<Val>,
                   st: State, st': State, eff: Effect, eff': Effect, s: SymEffect)
    requires ArgsAlike(syms, args, args') && |slots| == |args| && Respects(slots, syms)
    ensures RunCode(l, [Assign(c)], slots, args, syms, st, eff, s) == RunCode(l, [Assign(c)], slots, args', syms, st', eff', s)
  {
    hide RunGuarded, ComputationOk;
    SingleEmit(l, Assign(c), slots, args, syms, st, eff, s);
    SingleEmit(l, Assign(c), slots, args', syms, st', eff', s);
    if ComputationOk(c, |args|) { GuardedSame(c, slots, syms, args, args'); }
  }

  lemma SelectSame(l: Layout, act: Action, visited: seq<Slot>, slots: seq<Slot>, syms: seq<SymExpr>, args: seq<Val>, args': seq<Val>,
                   st: State, st': State, eff: Effect, eff': Effect, s: SymEffect)
    requires act.Select? && Meet(act, visited, slots, syms, args, args', st, st', s.shadow)
    ensures RunCode(l, Code(l, act, visited), slots, args, syms, st, eff, s) == RunCode(l, Code(l, act, visited), slots, args', syms, st', eff', s)
  {
    hide RunGuarded, Itself, RunCode, Alike, ConstantsAreNull;
    assert Operands(act) == [act.c, act.a, act.b];
    var code, tail := Code(l, act, visited), if visited[1].Null? && visited[2].Null? then [] else [Pick];
    PushMarked(l, slots, args, syms, st, eff, s);
    PushMarked(l, slots, args', syms, st', eff', s);
    if visited[0].Null? {
      assert code == tail;
      PickSame(l, tail, slots, syms, args, args', st, st', eff, eff', s);
    } else {
      assert code == [Push(Itself())] + tail;
      var s1 := RunEmit(l, Push(Itself()), slots, args, syms, st, eff, s).value;
      PushThen(l, tail, slots, args, syms, st, eff, s);
      PushThen(l, tail, slots, args', syms, st', eff', s);
      PickSame(l, tail, slots, syms, args, args', st, st', eff, eff', s1);
    }
  }

  lemma PickSame(l: Layout, tail: seq<Emit>, slots: seq<Slot>, syms: seq<SymExpr>, args: seq<Val>, args': seq<Val>,
                 st: State, st': State, eff: Effect, eff': Effect, s: SymEffect)
    requires |slots| == |syms| == |args| == |args'| == 3 && (tail == [] || tail == [Pick]) && (args[0].bits == 1 <==> args'[0].bits == 1)
    ensures RunCode(l, tail, slots, args, syms, st, eff, s) == RunCode(l, tail, slots, args', syms, st', eff', s)
  {
  }

  lemma MemorySame(l: Layout, file: seq<Byte>, file': seq<Byte>, act: Action, visited: seq<Slot>, slots: seq<Slot>, syms: seq<SymExpr>,
                   args: seq<Val>, args': seq<Val>, st: State, st': State, s: SymEffect)
    requires act.LoadI? || act.StoreI? || act.MemMoveI? || act.MemSetI? || act.ReadInput?
    requires Meet(act, visited, slots, syms, args, args', st, st', s.shadow) && |file| == |file'|
    requires Perform(l, file, act, args, st).Some? && Perform(l, file', act, args', st').Some?
    ensures RunCode(l, Code(l, act, visited), slots, args, syms, st, Perform(l, file, act, args, st).value, s)
         == RunCode(l, Code(l, act, visited), slots, args', syms, st', Perform(l, file', act, args', st').value, s)
  {
    hide Read, Write, Move, Fill, InputShadow, Alike, Store, Load, Backed, Ordered, ValueBytes, ToMemory, FromMemory, LoadValue, ConstantsAreNull, Respects,
         RunCode, RunGuarded, ComputationOk, One, CastChain, GepChain, Itself, IntrinsicCall, AllNull, AllZero, BinaryFn, ComparisonFn,
         BinaryValue, Comparison, Convert, IntrinsicValue, Displacement, IndicesFit;
    var eff, eff' := Perform(l, file, act, args, st).value, Perform(l, file', act, args', st').value;
    var e := Code(l, act, visited)[0];
    assert Code(l, act, visited) == [e];
    SingleEmit(l, e, slots, args, syms, st, eff, s);
    SingleEmit(l, e, slots, args', syms, st', eff', s);
    match act
    case LoadI(_, w) => ReadSameExpr(s.shadow, st.mem, st'.mem, args[0].bits, StoreSize(w), l.littleEndian);
    case _ =>
  }

  /** The emitted code does the same in both runs. */
  lemma CodeSame(l: Layout, file: seq<Byte>, file': seq<Byte>, act: Action, visited: seq<Slot>, slots: seq<Slot>, syms: seq<SymExpr>,
                 args: seq<Val>, args': seq<Val>, st: State, st': State, s: SymEffect)
    requires Meet(act, visited, slots, syms, args, args', st, st', s.shadow) && |file| == |file'|
    requires Perform(l, file, act, args, st).Some? && Perform(l, file', act, args', st').Some?
    ensures RunCode(l, Code(l, act, visited), slots, args, syms, st, Perform(l, file, act, args, st).value, s)
         == RunCode(l, Code(l, act, visited), slots, args', syms, st', Perform(l, file', act, args', st').value, s)
  {
    hide RunCode, Perform, One, CastChain, GepChain, Itself, IntrinsicCall, AllNull, AllZero, Alike, ConstantsAreNull, Respects, BinaryFn, ComparisonFn;
    var eff, eff' := Perform(l, file, act, args, st).value, Perform(l, file', act, args', st').value;
    NoCodeRuns(l, slots, args, syms, st, eff, s);
    NoCodeRuns(l, slots, args', syms, st', eff', s);
    match act
    case Select(_, _, _) => SelectSame(l, act, visited, slots, syms, args, args', st, st', eff, eff', s);
    case BinOp(op, _, _, w) => AssignSame(l, One(BinaryFn(op, w), In(0), In(1)), slots, syms, args, args', st, st', eff, eff', s);
    case ICmp(p, _, _) => AssignSame(l, One(ComparisonFn(p), In(0), In(1)), slots, syms, args, args', st, st', eff, eff', s);
    case Cast(k, _, from, to) => AssignSame(l, CastChain(k, from, to), slots, syms, args, args', st, st', eff, eff', s);
    case Intrinsic(f, _, _, w) => AssignSame(l, IntrinsicCall(l, f, w), slots, syms, args, args', st, st', eff, eff', s);
    case Gep(_, steps) =>
      AssignSame(l, GepChain(Itself(), steps, 1, l.ptrBits), slots, syms, args, args', st, st', eff, eff', s);
      CopyRuns(l, slots, args, syms, st, eff, s);
      CopyRuns(l, slots, args', syms, st', eff', s);
    case _ => MemorySame(l, file, file', act, visited, slots, syms, args, args', st, st', s);
  }

  // ----------------------------------------------------------- values without marks

  lemma LoadSame(l: Layout, sh: ShadowMap, mem: Memory, mem': Memory, a: nat, w: nat)
    requires Alike(sh, mem, mem') && Storable(w) && Backed(mem, a, StoreSize(w)) && Backed(mem', a, StoreSize(w))
    requires !AnyByte(sh.Keys, a, StoreSize(w))
    ensures LoadValue(l, mem, a, w) == LoadValue(l, mem', a, w)
  {
    hide Wrap, Number, Reversed;
    var n := StoreSize(w);
    forall x | a <= x < a + n
      ensures mem[x] == mem'[x]
    {
      assert x !in sh.Keys;
    }
    assert Load(mem, a, n) == Load(mem', a, n);
  }

  lemma NoMarks(syms: seq<SymExpr>, args: seq<Val>, args': seq<Val>)
    requires ArgsAlike(syms, args, args') && !AnyMark(Somes(syms))
    ensures args == args'
  {
    AnyExactly(syms);
  }

  /** Which instructions have a result, and what `read` advances. */
  lemma EffectShape(l: Layout, file: seq<Byte>, act: Action, args: seq<Val>, st: State)
    requires |args| == |Operands(act)| && Perform(l, file, act, args, st).Some?
    ensures var eff := Perform(l, file, act, args, st).value;
            (eff.result.None? <==> act.StoreI? || act.MemMoveI? || act.MemSetI?) &&
            eff.pos == if act.ReadInput? then st.pos + Min(args[1].bits, |file| - st.pos) else st.pos
  {
    hide BinaryValue, Comparison, Convert, IntrinsicValue, Store, Load, Backed, LoadValue, Displacement, IndicesFit, Ordered, ValueBytes, Wrap;
  }

  /** Without memory, a result depends on the operands alone. */
  lemma SameOperandsSameResult(l: Layout, file: seq<Byte>, file': seq<Byte>, act: Action, args: seq<Val>, st: State, st': State)
    requires |args| == |Operands(act)| && Perform(l, file, act, args, st).Some? && Perform(l, file', act, args, st').Some?
    requires act.ReadInput? ==> st.pos == st'.pos && |file| == |file'|
    requires !act.LoadI?
    ensures Perform(l, file, act, args, st).value.result == Perform(l, file', act, args, st').value.result
  {
    hide BinaryValue, Comparison, Convert, IntrinsicValue, Store, Load, Backed, LoadValue, Displacement, IndicesFit, Ordered, ValueBytes, Wrap;
  }

  lemma SelectUnmarked(args: seq<Val>, args': seq<Val>, syms: seq<SymExpr>)
    requires ArgsAlike(syms, args, args') && |args| == 3 && (args[0].bits == 1 <==> args'[0].bits == 1)
    requires (if args[0].bits == 1 then syms[1] else syms[2]) == None
    ensures (if args[0].bits == 1 then args[1] else args[2]) == (if args'[0].bits == 1 then args'[1] else args'[2])
  {
  }

  /** An unmarked result is the same in both runs. */
  lemma UnmarkedSame(l: Layout, file: seq<Byte>, file': seq<Byte>, act: Action, visited: seq<Slot>, slots: seq<Slot>, syms: seq<SymExpr>,
                     args: seq<Val>, args': seq<Val>, st: State, st': State, sh: ShadowMap)
    requires Meet(act, visited, slots, syms, args, args', st, st', sh) && |file| == |file'|
    requires Perform(l, file, act, args, st).Some? && Perform(l, file', act, args', st').Some?
    ensures Perform(l, file, act, args, st).value.result.Some? <==> Perform(l, file', act, args', st').value.result.Some?
    ensures Perform(l, file, act, args, st).value.pos == Perform(l, file', act, args', st').value.pos
    ensures !ResultMark(act, args, Somes(syms), sh.Keys) ==>
              Perform(l, file, act, args, st).value.result == Perform(l, file', act, args', st').value.result
  {
    hide BinaryValue, Comparison, Convert, IntrinsicValue, Alike, Respects, ConstantsAreNull, PerformStore, PerformMove, PerformSet, PerformRead,
         LoadValue, PerformGep, AnyMark, AnyByte, Backed;
    EffectShape(l, file, act, args, st);
    EffectShape(l, file', act, args', st');
    if !ResultMark(act, args, Somes(syms), sh.Keys) {
      match act
      case LoadI(_, w) => LoadSame(l, sh, st.mem, st'.mem, args[0].bits, w);
      case Select(_, _, _) => SelectUnmarked(args, args', syms);
      case StoreI(_, _, _) =>
      case MemMoveI(_, _, _) =>
      case MemSetI(_, _, _) =>
      case ReadInput(_, _) => SameOperandsSameResult(l, file, file', act, args, st, st');
      case _ =>
        NoMarks(syms, args, args');
        SameOperandsSameResult(l, file, file', act, args, st, st');
    }
  }

  // ------------------------------------------------------------------- memory

  lemma AlikeInput(sh: ShadowMap, mem: Memory, mem': Memory, a: nat, s: seq<Byte>, s': seq<Byte>, pos: nat)
    requires Alike(sh, mem, mem') && |s| == |s'|
    ensures Alike(InputShadow(sh, a, |s|, pos), Store(mem, a, s), Store(mem', a, s'))
  {
  }

  lemma StoreAlike(l: Layout, act: Action, syms: seq<SymExpr>, args: seq<Val>, args': seq<Val>, st: State, st': State, sh: ShadowMap)
    requires act.StoreI? && |args| == 2 && ArgsAlike(syms, args, args') && args[0] == args'[0] && Alike(sh, st.mem, st'.mem)
    requires PerformStore(l, args[0], args[1], act.width, st).Some? && PerformStore(l, args'[0], args'[1], act.width, st').Some?
    ensures Alike(Write(sh, args[0].bits, StoreSize(act.width), ToMemory(syms[1], act.width), l.littleEndian),
                  PerformStore(l, args[0], args[1], act.width, st).value.mem, PerformStore(l, args'[0], args'[1], act.width, st').value.mem)
  {
    hide Alike, Write, Store, Ordered, ValueBytes;
    AlikeWrite(sh, st.mem, st'.mem, args[0].bits, Ordered(ValueBytes(args[1]), l.littleEndian), Ordered(ValueBytes(args'[1]), l.littleEndian),
               ToMemory(syms[1], act.width), l.littleEndian);
  }

  lemma SetAlike(l: Layout, syms: seq<SymExpr>, args: seq<Val>, args': seq<Val>, st: State, st': State, sh: ShadowMap)
    requires |args| == 3 && ArgsAlike(syms, args, args') && args[0] == args'[0] && args[2] == args'[2] && Alike(sh, st.mem, st'.mem)
    requires PerformSet(l, args[0], args[1], args[2], st).Some? && PerformSet(l, args'[0], args'[1], args'[2], st').Some?
    ensures Alike(Fill(sh, args[0].bits, args[2].bits, syms[1]),
                  PerformSet(l, args[0], args[1], args[2], st).value.mem, PerformSet(l, args'[0], args'[1], args'[2], st').value.mem)
  {
    hide Alike, Fill, Store;
    ByteOfValue(args[1]);
    ByteOfValue(args'[1]);
    var b: Byte, b': Byte, n := args[1].bits, args'[1].bits, args[2].bits;
    SetMemory(l, args[0], args[1], args[2], st, b);
    SetMemory(l, args'[0], args'[1], args'[2], st', b');
    AlikeFill(sh, st.mem, st'.mem, args[0].bits, seq(n, i => b), seq(n, i => b'), syms[1]);
  }

  /** What the emitted code does to the shadow. */
  function NewShadow(l: Layout, act: Action, args: seq<Val>, syms: seq<SymExpr>, sh: ShadowMap, from: nat, to: nat): (r: ShadowMap)
    requires |args| == |syms| == |Operands(act)| && from <= to
  {
    match act
    case StoreI(_, _, w) => Write(sh, args[0].bits, StoreSize(w), ToMemory(syms[1], w), l.littleEndian)
    case MemMoveI(_, _, _) => Move(sh, args[0].bits, args[1].bits, args[2].bits)
    case MemSetI(_, _, _) => Fill(sh, args[0].bits, args[2].bits, syms[1])
    case ReadInput(_, _) => InputShadow(sh, args[0].bits, to - from, from)
    case _ => sh
  }

  lemma CodeShadow(l: Layout, act: Action, visited: seq<Slot>, slots: seq<Slot>, args: seq<Val>, syms: seq<SymExpr>, st: State,
                   eff: Effect, s: SymEffect)
    requires Known(act, visited, slots, syms) && |args| == |syms| && st.pos <= eff.pos
    ensures var r := RunCode(l, Code(l, act, visited), slots, args, syms, st, eff, s);
            r.Some? ==> r.value.shadow == NewShadow(l, act, args, syms, s.shadow, st.pos, eff.pos)
  {
    hide RunCode, Write, Move, Fill, InputShadow, ToMemory, RunGuarded, ComputationOk, One, CastChain, GepChain, Itself, IntrinsicCall, AllNull,
         AllZero, BinaryFn, ComparisonFn, Read, FromMemory, Backed, Respects, ConstantsAreNull;
    match act
    case StoreI(_, _, w) => SingleEmit(l, WriteShadow(w), slots, args, syms, st, eff, s);
    case MemMoveI(_, _, _) => SingleEmit(l, MoveShadow, slots, args, syms, st, eff, s);
    case MemSetI(_, _, _) => SingleEmit(l, FillShadow, slots, args, syms, st, eff, s);
    case ReadInput(_, _) => SingleEmit(l, MakeSymbolic, slots, args, syms, st, eff, s);
    case _ => NoMemoryCode(l, act, visited, slots, args, syms, st, eff, s);
  }

  lemma PositionGrows(l: Layout, file: seq<Byte>, act: Action, args: seq<Val>, st: State)
    requires |args| == |Operands(act)| && Perform(l, file, act, args, st).Some?
    ensures st.pos <= Perform(l, file, act, args, st).value.pos
  {
    hide BinaryValue, Comparison, Convert, IntrinsicValue, Store, Load, Backed, LoadValue, Displacement, IndicesFit, Ordered, ValueBytes;
  }

  lemma InputAlike(l: Layout, file: seq<Byte>, file': seq<Byte>, args: seq<Val>, st: State, st': State, sh: ShadowMap)
    requires |args| == 2 && Alike(sh, st.mem, st'.mem) && st.pos == st'.pos && |file| == |file'|
    requires PerformRead(l, file, args[0], args[1], st).Some? && PerformRead(l, file', args[0], args[1], st').Some?
    ensures var eff, eff' := PerformRead(l, file, args[0], args[1], st).value, PerformRead(l, file', args[0], args[1], st').value;
            st.pos <= eff.pos && Alike(InputShadow(sh, args[0].bits, eff.pos - st.pos, st.pos), eff.mem, eff'.mem)
  {
    hide Alike, InputShadow, Store;
    var k := PerformRead(l, file, args[0], args[1], st).value.pos - st.pos;
    AlikeInput(sh, st.mem, st'.mem, args[0].bits, file[st.pos..st.pos + k], file'[st.pos..st.pos + k], st.pos);
  }

  lemma MoveAlike(l: Layout, args: seq<Val>, st: State, st': State, sh: ShadowMap)
    requires |args| == 3 && Alike(sh, st.mem, st'.mem)
    requires PerformMove(l, args[0], args[1], args[2], st).Some? && PerformMove(l, args[0], args[1], args[2], st').Some?
    ensures Alike(Move(sh, args[0].bits, args[1].bits, args[2].bits), PerformMove(l, args[0], args[1], args[2], st).value.mem,
                  PerformMove(l, args[0], args[1], args[2], st').value.mem)
  {
    hide Alike, Move, Store, Load;
    AlikeMove(sh, st.mem, st'.mem, args[0].bits, args[1].bits, args[2].bits);
  }

  /** Afterwards the memories are alike again. */
  lemma MemoryAlike(l: Layout, file: seq<Byte>, file': seq<Byte>, act: Action, visited: seq<Slot>, slots: seq<Slot>, syms: seq<SymExpr>,
                    args: seq<Val>, args': seq<Val>, st: State, st': State, s: SymEffect)
    requires Meet(act, visited, slots, syms, args, args', st, st', s.shadow) && |file| == |file'|
    requires Perform(l, file, act, args, st).Some? && Perform(l, file', act, args', st').Some?
    ensures var r := RunCode(l, Code(l, act, visited), slots, args, syms, st, Perform(l, file, act, args, st).value, s);
            r.Some? ==> Alike(r.value.shadow, Perform(l, file, act, args, st).value.mem, Perform(l, file', act, args', st').value.mem)
  {
    hide Alike, Write, Move, Fill, InputShadow, BinaryValue, Comparison, Convert, IntrinsicValue, Respects, ConstantsAreNull, Code, RunCode,
         PerformStore, PerformSet, PerformMove, PerformRead, LoadValue, Wrap, Displacement, IndicesFit, ToMemory, SameAddresses;
    var eff := Perform(l, file, act, args, st).value;
    PositionGrows(l, file, act, args, st);
    CodeShadow(l, act, visited, slots, args, syms, st, eff, s);
    SameAddressesOf(act, args, args');
    match act
    case StoreI(_, _, _) => StoreAlike(l, act, syms, args, args', st, st', s.shadow);
    case MemMoveI(_, _, _) => MoveAlike(l, args, st, st', s.shadow);
    case MemSetI(_, _, _) => SetAlike(l, syms, args, args', st, st', s.shadow);
    case ReadInput(_, _) => InputAlike(l, file, file', args, st, st', s.shadow);
    case _ =>
  }

  lemma SameAddressesOf(act: Action, args: seq<Val>, args': seq<Val>)
    requires SameAddresses(act, args, args') && |args| == |args'| == |Operands(act)|
    ensures act.StoreI? ==> args[0] == args'[0]
    ensures act.MemMoveI? || act.ReadInput? ==> args == args'
    ensures act.MemSetI? ==> args[0] == args'[0] && args[2] == args'[2]
  {
  }

  lemma NoMemoryCode(l: Layout, act: Action, visited: seq<Slot>, slots: seq<Slot>, args: seq<Val>, syms: seq<SymExpr>, st: State,
                     eff: Effect, s: SymEffect)
    requires Known(act, visited, slots, syms) && |args| == |syms|
    requires !act.StoreI? && !act.MemMoveI? && !act.MemSetI? && !act.ReadInput?
    ensures var r := RunCode(l, Code(l, act, visited), slots, args, syms, st, eff, s); r.Some? ==> r.value.shadow == s.shadow
  {
    hide RunCode, One, CastChain, GepChain, Itself, IntrinsicCall, AllNull, AllZero, ConstantsAreNull, Respects, BinaryFn, ComparisonFn;
    NoCodeRuns(l, slots, args, syms, st, eff, s);
    match act
    case Select(_, _, _) => SelectKeeps(l, act, visited, slots, args, syms, st, eff, s);
    case BinOp(op, _, _, w) => AssignKeeps(l, One(BinaryFn(op, w), In(0), In(1)), slots, args, syms, st, eff, s);
    case ICmp(p, _, _) => AssignKeeps(l, One(ComparisonFn(p), In(0), In(1)), slots, args, syms, st, eff, s);
    case Cast(k, _, from, to) => AssignKeeps(l, CastChain(k, from, to), slots, args, syms, st, eff, s);
    case Intrinsic(f, _, _, w) => AssignKeeps(l, IntrinsicCall(l, f, w), slots, args, syms, st, eff, s);
    case Gep(_, steps) =>
      AssignKeeps(l, GepChain(Itself(), steps, 1, l.ptrBits), slots, args, syms, st, eff, s);
      CopyRuns(l, slots, args, syms, st, eff, s);
    case LoadI(_, w) => SingleEmit(l, ReadShadow(w), slots, args, syms, st, eff, s);
  }

  lemma SelectKeeps(l: Layout, act: Action, visited: seq<Slot>, slots: seq<Slot>, args: seq<Val>, syms: seq<SymExpr>, st: State,
                    eff: Effect, s: SymEffect)
    requires act.Select? && Known(act, visited, slots, syms) && |args| == |syms|
    ensures var r := RunCode(l, Code(l, act, visited), slots, args, syms, st, eff, s); r.Some? ==> r.value.shadow == s.shadow
  {
    hide RunGuarded, Itself, RunCode, ConstantsAreNull;
    assert Operands(act) == [act.c, act.a, act.b];
    var code, tail := Code(l, act, visited), if visited[1].Null? && visited[2].Null? then [] else [Pick];
    PushMarked(l, slots, args, syms, st, eff, s);
    if visited[0].Null? {
      assert code == tail;
      PickMarked(l, tail, slots, args, syms, st, eff, s);
    } else {
      assert code == [Push(Itself())] + tail;
      PushThen(l, tail, slots, args, syms, st, eff, s);
      PickMarked(l, tail, slots, args, syms, st, eff, RunEmit(l, Push(Itself()), slots, args, syms, st, eff, s).value);
    }
  }

  // ---------------------------------------------------------- one instruction

  lemma ArgsTogether(os: seq<Operand>, slots: seq<Slot>, ts: TState, ts': TState, args: seq<Val>, args': seq<Val>)
    requires SlotsSound(os, slots) && Covered(os, slots, ts.slots) && RegsAlike(ts.slots, ts.st.regs, ts'.st.regs)
    requires ReadAll(ts.st.regs, os) == Some(args) && ReadAll(ts'.st.regs, os) == Some(args')
    ensures ArgsAlike(SlotValues(ts.slots, slots), args, args')
  {
    var syms := SlotValues(ts.slots, slots);
    forall k | 0 <= k < |syms| && syms[k] == None
      ensures args[k] == args'[k]
    {
      assert Read1(ts.st.regs, os[k]) == Some(args[k]) && Read1(ts'.st.regs, os[k]) == Some(args'[k]);
      if slots[k].Held? { assert os[k] == Reg(slots[k].id); }
    }
  }

  /** Constraints pushed at the same position have the same direction. */
  predicate SameFlags(log: seq<Constraint>, log': seq<Constraint>)
  {
    forall k :: 0 <= k < |log| && k < |log'| ==> (log[k].taken <==> log'[k].taken)
  }

  /** The second input satisfies the constraints of the first run, or the second run takes
      the same directions. */
  ghost predicate Agreeing(log: seq<Constraint>, log': seq<Constraint>, input: Input)
  {
    AllTruthful(log, input) || SameFlags(log, log')
  }

  /** Then a decision on the same expression goes the same way. */
  lemma SameDecision(log: seq<Constraint>, log': seq<Constraint>, k: nat, e: Expr, p: bool, q: bool, input: Input)
    requires Agreeing(log, log', input) && k < |log| && k < |log'| && log[k] == Constraint(e, p) && log'[k] == Constraint(e, q)
    requires Truthful(Constraint(e, q), input)
    ensures p == q
  {
    hide Truthful;
    if AllTruthful(log, input) {
      assert Truthful(log[k], input);
      OneTruth(e, p, q, input);
    }
  }

  /** A select whose condition satisfies the pushed constraint goes the same way. */
  lemma SelectDirection(l: Layout, act: Action, visited: seq<Slot>, slots: seq<Slot>, syms: seq<SymExpr>, args: seq<Val>, args': seq<Val>,
                        st: State, st': State, eff: Effect, eff': Effect, s: SymEffect, input: Input)
    requires act.Select? && Known(act, visited, slots, syms) && ArgsAlike(syms, args, args')
    requires var r, r' := RunCode(l, Code(l, act, visited), slots, args, syms, st, eff, s), RunCode(l, Code(l, act, visited), slots, args', syms, st', eff', s);
             r.Some? && r'.Some? && Agreeing(r.value.log, r'.value.log, input) && AllTruthful(r'.value.log, input)
    ensures args[0].bits == 1 <==> args'[0].bits == 1
  {
    hide RunCode, Alike, ConstantsAreNull, Denotes, Agreeing;
    SelectLog(l, act, visited, slots, args, syms, st, eff, s);
    SelectLog(l, act, visited, slots, args', syms, st', eff', s);
    if syms[0].Some? {
      var r, r' := RunCode(l, Code(l, act, visited), slots, args, syms, st, eff, s).value, RunCode(l, Code(l, act, visited), slots, args', syms, st', eff', s).value;
      assert Truthful(r'.log[|s.log|], input);
      SameDecision(r.log, r'.log, |s.log|, syms[0].value, args[0].bits == 1, args'[0].bits == 1, input);
    }
  }

  lemma OneTruth(e: Expr, p: bool, q: bool, input: Input)
    requires Truthful(Constraint(e, p), input) && Truthful(Constraint(e, q), input)
    ensures p == q
  {
  }

  lemma SelectLog(l: Layout, act: Action, visited: seq<Slot>, slots: seq<Slot>, args: seq<Val>, syms: seq<SymExpr>, st: State,
                  eff: Effect, s: SymEffect)
    requires act.Select? && Known(act, visited, slots, syms) && |args| == |syms| == 3
    ensures var r := RunCode(l, Code(l, act, visited), slots, args, syms, st, eff, s);
            r.Some? && r.value.log == s.log + (if syms[0].Some? then [Constraint(syms[0].value, args[0].bits == 1)] else [])
  {
    hide RunGuarded, Itself, RunCode, ConstantsAreNull;
    assert Operands(act) == [act.c, act.a, act.b];
    var code, tail := Code(l, act, visited), if visited[1].Null? && visited[2].Null? then [] else [Pick];
    PushMarked(l, slots, args, syms, st, eff, s);
    if visited[0].Null? {
      assert code == tail;
      PickMarked(l, tail, slots, args, syms, st, eff, s);
    } else {
      assert code == [Push(Itself())] + tail;
      PushThen(l, tail, slots, args, syms, st, eff, s);
      PickMarked(l, tail, slots, args, syms, st, eff, RunEmit(l, Push(Itself()), slots, args, syms, st, eff, s).value);
    }
  }

  ghost predicate Invariant(ts: TState, ts': TState, usable: set<Id>, input: Input)
  {
    Together(ts, ts') && Consistent(ts', input) && !ts'.misled && SlotsWithin(ts.slots, usable)
  }

  lemma DefineAlike(slots: map<Id, SymExpr>, regs: map<Id, Val>, regs': map<Id, Val>, id: Id, v: Val, v': Val, registers: bool, e: SymExpr)
    requires RegsAlike(slots, regs, regs') && (!(registers && e.Some?) ==> v == v')
    ensures RegsAlike(Define(slots, id, registers, e), regs[id := v], regs'[id := v'])
  {
  }

  lemma StaysExact(l: Layout, file: seq<Byte>, ti: TInstr, ts: TState)
    requires !ts.misled && TExec(l, file, ti, ts).Some? && ReadAll(ts.st.regs, Operands(ti.instr.act)).Some?
    requires ExactStep(l, ti.instr.act, ReadAll(ts.st.regs, Operands(ti.instr.act)).value)
    ensures !TExec(l, file, ti, ts).value.misled
  {
    hide RunCode, Perform, Code, Operands, ReadAll, ExactStep, Registers, Define;
  }

  /** The parts of an instrumented step. */
  lemma StepParts(l: Layout, file: seq<Byte>, ti: TInstr, ts: TState)
    requires TExec(l, file, ti, ts).Some?
    ensures ReadAll(ts.st.regs, Operands(ti.instr.act)).Some?
    ensures var args := ReadAll(ts.st.regs, Operands(ti.instr.act)).value;
            |ti.visited| == |ti.slots| == |args| && Perform(l, file, ti.instr.act, args, ts.st).Some? &&
            var eff, code := Perform(l, file, ti.instr.act, args, ts.st).value, Code(l, ti.instr.act, ti.visited);
            var r := RunCode(l, code, ti.slots, args, SlotValues(ts.slots, ti.slots), ts.st, eff, SymEffect(None, ts.shadow, ts.log));
            r.Some? &&
            var after := TExec(l, file, ti, ts).value;
            after.st == Commit(ts.st, ti.instr, args, eff) && after.shadow == r.value.shadow && after.log == r.value.log && after.seen == ts.seen &&
            after.slots == if eff.result.None? then ts.slots else Define(ts.slots, ti.instr.id, Registers(ti.instr.act, code), r.value.result)
  {
    hide RunCode, Perform, Code, Operands, ReadAll, ExactStep, Registers, Define, Commit;
  }

  lemma CommitAlike(slots: map<Id, SymExpr>, slots': map<Id, SymExpr>, st: State, st': State, i: Instr, args: seq<Val>, args': seq<Val>,
                    eff: Effect, eff': Effect, registers: bool, e: SymExpr)
    requires RegsAlike(slots, st.regs, st'.regs) && SameInstrs(st.trace, st'.trace) && eff.pos == eff'.pos
    requires eff.result.Some? <==> eff'.result.Some?
    requires eff.result.Some? && !(registers && e.Some?) ==> eff.result == eff'.result
    requires slots' == if eff.result.None? then slots else Define(slots, i.id, registers, e)
    ensures var r, r' := Commit(st, i, args, eff), Commit(st', i, args', eff');
            RegsAlike(slots', r.regs, r'.regs) && SameInstrs(r.trace, r'.trace) && r.pos == r'.pos && r.mem == eff.mem && r'.mem == eff'.mem
  {
    hide RegsAlike, Define;
    if eff.result.Some? { DefineAlike(slots, st.regs, st'.regs, i.id, eff.result.value, eff'.result.value, registers, e); }
  }

  /** One instruction in both runs: if the second input satisfies what was pushed, or goes
      the same way, the two stay together. */
  lemma StepTogether(l: Layout, file: seq<Byte>, file': seq<Byte>, ti: TInstr, ts: TState, ts': TState, usable: set<Id>)
    requires InstrSound(ti) && InstrAware(l, ti, usable) && Invariant(ts, ts', usable, InputOf(file')) && |file| == |file'|
    requires TExec(l, file, ti, ts).Some? && TExec(l, file', ti, ts').Some?
    requires var os := Operands(ti.instr.act);
             var args, args' := ReadAll(ts.st.regs, os), ReadAll(ts'.st.regs, os);
             args.Some? && args'.Some? ==> SameAddresses(ti.instr.act, args.value, args'.value) && ExactStep(l, ti.instr.act, args'.value)
    requires Agreeing(TExec(l, file, ti, ts).value.log, TExec(l, file', ti, ts').value.log, InputOf(file'))
    ensures Invariant(TExec(l, file, ti, ts).value, TExec(l, file', ti, ts').value, usable, InputOf(file'))
  {
    hide TExec, RunCode, Perform, Code, Operands, ReadAll, ExactStep, Registers, Define, Commit, InstrSound, InstrAware, SlotsWithin, Consistent,
         RegsAlike, Alike, SameInstrs, SameAddresses, ConstantsAreNull, Respects, ResultMark, MemoryMarks, DecisionMarks, SlotsSound,
         Covered, Agreeing, AllTruthful, InputOf;
    var i, input := ti.instr, InputOf(file');
    StepParts(l, file, ti, ts);
    StepParts(l, file', ti, ts');
    var args, args' := ReadAll(ts.st.regs, Operands(i.act)).value, ReadAll(ts'.st.regs, Operands(i.act)).value;
    var syms, s := SlotValues(ts.slots, ti.slots), SymEffect(None, ts.shadow, ts.log);
    var eff, eff' := Perform(l, file, i.act, args, ts.st).value, Perform(l, file', i.act, args', ts'.st).value;
    SlotsKnown(ti, ts, l, usable);
    OperandsCovered(ti, ts, l, usable);
    ArgsTogether(Operands(i.act), ti.slots, ts, ts', args, args');
    ExecConsistent(l, file', ti, ts');
    StaysExact(l, file', ti, ts');
    ConsistentLog(TExec(l, file', ti, ts').value, input);
    if i.act.Select? {
      SelectDirection(l, i.act, ti.visited, ti.slots, syms, args, args', ts.st, ts'.st, eff, eff', s, input);
    }
    CodeSame(l, file, file', i.act, ti.visited, ti.slots, syms, args, args', ts.st, ts'.st, s);
    InstrMarked(l, file, i.act, ti.visited, ti.slots, args, syms, ts.st, s);
    UnmarkedSame(l, file, file', i.act, ti.visited, ti.slots, syms, args, args', ts.st, ts'.st, ts.shadow);
    MemoryAlike(l, file, file', i.act, ti.visited, ti.slots, syms, args, args', ts.st, ts'.st, s);
    var code := Code(l, i.act, ti.visited);
    var r := RunCode(l, code, ti.slots, args, syms, ts.st, eff, s).value;
    CommitAlike(ts.slots, TExec(l, file, ti, ts).value.slots, ts.st, ts'.st, i, args, args', eff, eff', Registers(i.act, code), r.result);
    ExecWithin(l, file, ti, ts, usable);
  }

  lemma ConsistentLog(ts: TState, input: Input)
    requires Consistent(ts, input)
    ensures AllTruthful(ts.log, input)
  {
    hide RegistersFaithful, Faithful, AllTruthful;
  }

  lemma OperandsCovered(ti: TInstr, ts: TState, l: Layout, usable: set<Id>)
    requires InstrSound(ti) && InstrAware(l, ti, usable) && SlotsWithin(ts.slots, usable)
    ensures SlotsSound(Operands(ti.instr.act), ti.slots) && Covered(Operands(ti.instr.act), ti.slots, ts.slots)
  {
    hide Operands, Code, Registers;
    CoveredBy(Operands(ti.instr.act), ti.slots, ts.slots, usable);
  }
}
