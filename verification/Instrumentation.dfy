/** The instrumented program: what each visitor of the pass emits, how the pass
    walks a function, and how the result runs. */
module Instrumentation {
  import opened Bits
  import opened Exprs
  import opened Builders
  import opened ShadowMaps
  import opened Intrinsics
  import opened IR
  import opened Handlers
  import opened Symbolizer

  // ---------------------------------------------------------------- visitors

  datatype Emit =
    | Assign(c: Computation)       // the result expression, short-circuited
    | Push(c: Computation)         // a path constraint, short-circuited
    | Pick                         // select between two expressions
    | CopyOf(k: nat)               // reuse the expression of operand `k`
    | ReadShadow(width: nat)
    | WriteShadow(width: nat)
    | MoveShadow
    | FillShadow
    | MakeSymbolic

  function One(fn: RuntimeFn, a: Arg, b: Arg): (c: Computation) { Computation([Call(fn, a, b)], Res(0)) }

  /** The expression of operand 0 itself, for a path constraint. */
  function Itself(): (c: Computation) { Computation([], In(0)) }

  function Immediate(n: nat, w: nat): (v: Val)
  {
    if Supported(w) then Value(Wrap(n, w), w) else Value(0, 1)
  }

  function AllNull(slots: seq<Slot>): (b: bool)
  {
    forall k :: 0 <= k < |slots| ==> slots[k].Null?
  }

  function BinaryFn(op: Opcode, w: nat): (fn: RuntimeFn)
  {
    if w == 1 && Logical(op) then BuildConnective(BoolHandler(op)) else BuildArith(BinaryHandler(op))
  }

  function ComparisonFn(p: Predicate): (fn: RuntimeFn)
  {
    match ComparisonHandler(p)
    case Some(r) => BuildRelation(r)
    case None => BuildNotEqual
  }

  function ExtendFn(k: CastKind, bits: nat): (fn: RuntimeFn)
  {
    if k.SignExt? then BuildSExt(bits) else BuildZExt(bits)
  }

  function CastChain(k: CastKind, from: nat, to: nat): (c: Computation)
  {
    if k.Truncate? then
      var t := One(BuildTrunc(to), In(0), In(0));
      if to == 1 then Merge(t, Call(BuildBitToBool, Res(0), Res(0))) else t
    else if from == 1 then
      Merge(One(BuildBoolToBit, In(0), In(0)), Call(ExtendFn(k, if to == 0 then 0 else to - 1), Res(0), Res(0)))
    else One(ExtendFn(k, if from <= to then to - from else 0), In(0), In(0))
  }

  /** The one call for an intrinsic function. */
  function IntrinsicCall(l: Layout, f: IntrinsicFn, w: nat): (c: Computation)
  {
    One(BuildIntrinsic(f, w, Wrap(l.wild, 64)), In(0), if UnaryIntrinsic(f) then In(0) else In(1))
  }

  predicate ZeroStep(s: Step)
  {
    match s
    case Field(m, _) => m == 0
    case Elem(o, _, _) => IsZero(o)
  }

  predicate AllZero(steps: seq<Step>)
  {
    forall k :: 0 <= k < |steps| ==> ZeroStep(steps[k])
  }

  /** Scale an index: extend it with zeros to pointer width if it is narrower, then multiply. */
  function Scale(c: Computation, k: nat, w: nat, size: nat, ptrBits: nat): (r: Computation)
  {
    var size' := Lit(Immediate(size, ptrBits));
    if w < ptrBits then
      var z := Merge(c, Call(BuildZExt(ptrBits - w), In(k), In(k)));
      Merge(z, Call(BuildArith(Mul), z.result, size'))
    else Merge(c, Call(BuildArith(Mul), In(k), size'))
  }

  /** The address computation, one contribution per index; `c.result` is the address
      so far and `k` the operand that holds the next index. */
  function GepChain(c: Computation, steps: seq<Step>, k: nat, ptrBits: nat): (r: Computation)
    decreases |steps|
  {
    if steps == [] then c
    else match steps[0]
      case Field(_, off) =>
        GepChain(Merge(c, Call(BuildArith(Add), Lit(Immediate(off, ptrBits)), c.result)), steps[1..], k, ptrBits)
      case Elem(o, w, size) =>
        if IsZero(o) then GepChain(c, steps[1..], k + 1, ptrBits)
        else
          var scaled := Scale(c, k, w, size, ptrBits);
          GepChain(Merge(scaled, Call(BuildArith(Add), scaled.result, c.result)), steps[1..], k + 1, ptrBits)
  }

  /** The code a visitor emits, given what it knows about the operands' expressions. */
  function Code(l: Layout, act: Action, slots: seq<Slot>): (code: seq<Emit>)
    requires |slots| == |Operands(act)|
  {
    match act
    case BinOp(op, _, _, w) => if AllNull(slots) then [] else [Assign(One(BinaryFn(op, w), In(0), In(1)))]
    case ICmp(p, _, _) => if AllNull(slots) then [] else [Assign(One(ComparisonFn(p), In(0), In(1)))]
    case Cast(k, _, from, to) =>
      if AllNull(slots) && (from != 1 || k.Truncate?) then [] else [Assign(CastChain(k, from, to))]
    case Select(_, _, _) =>
      (if slots[0].Null? then [] else [Push(Itself())]) + (if slots[1].Null? && slots[2].Null? then [] else [Pick])
    case LoadI(_, w) => [ReadShadow(w)]
    case StoreI(_, _, w) => [WriteShadow(w)]
    case Gep(_, steps) =>
      if AllNull(slots) then []
      else if AllZero(steps) then [CopyOf(0)]
      else [Assign(GepChain(Itself(), steps, 1, l.ptrBits))]
    case MemMoveI(_, _, _) => [MoveShadow]
    case MemSetI(_, _, _) => [FillShadow]
    case ReadInput(_, _) => [MakeSymbolic]
    case Intrinsic(f, _, _, w) => if AllNull(slots) then [] else [Assign(IntrinsicCall(l, f, w))]
  }

  /** Whether the visitor records an expression for the value it defines. */
  predicate Registers(act: Action, code: seq<Emit>)
  {
    match act
    case StoreI(_, _, _) => false
    case MemMoveI(_, _, _) => false
    case MemSetI(_, _, _) => false
    case Select(_, _, _) => Pick in code
    case _ => code != []
  }

  // ---------------------------------------------------------- target programs

  /** An instruction with its instrumentation: `visited` is what the visitor knew,
      `slots` what is left of it after PHI finalisation. */
  datatype TInstr = TInstr(instr: Instr, visited: seq<Slot>, slots: seq<Slot>)

  datatype SymPhi = SymPhi(id: Id, incoming: map<Label, Slot>)

  datatype TTerm = TTerm(term: Terminator, visited: Slot, slot: Slot, guarded: bool)

  datatype TBlock = TBlock(phis: seq<Phi>, symPhis: seq<SymPhi>, body: seq<TInstr>, term: TTerm)

  datatype TFunction = TFunction(layout: Layout, entry: Label, blocks: map<Label, TBlock>)

  datatype Loop = Loop(header: Label, latch: Option<Label>, members: set<Label>)

  type LoopInfo = map<Label, Loop>

  /** The branch of a loop header or latch that decides whether to stay in the loop. */
  predicate IsLoopCondition(loops: LoopInfo, here: Label, t: Terminator)
  {
    && t.CondBr? && here in loops
    && (here == loops[here].header || Some(here) == loops[here].latch)
    && ((t.yes in loops[here].members) != (t.no in loops[here].members))
  }

  // ------------------------------------------------------------ the pass itself

  function SlotOf(known: set<Id>, o: Operand): (s: Slot)
  {
    if o.Reg? && o.id in known then Held(o.id) else Null
  }

  function SlotsOf(known: set<Id>, os: seq<Operand>): (s: seq<Slot>)
    ensures |s| == |os|
    ensures forall k :: 0 <= k < |os| ==> s[k] == SlotOf(known, os[k])
  {
    if os == [] then [] else [SlotOf(known, os[0])] + SlotsOf(known, os[1..])
  }

  /** PHI nodes get an expression before their inputs are known. */
  function VisitPhis(phis: seq<Phi>, known: set<Id>): (r: set<Id>)
  {
    if phis == [] then known else VisitPhis(phis[1..], known + {phis[0].id})
  }

  function VisitInstr(l: Layout, i: Instr, known: set<Id>): (r: (TInstr, set<Id>))
  {
    var slots := SlotsOf(known, Operands(i.act));
    var registers := Registers(i.act, Code(l, i.act, slots));
    (TInstr(i, slots, slots), if registers then known + {i.id} else known)
  }

  function VisitBody(l: Layout, body: seq<Instr>, known: set<Id>): (r: (seq<TInstr>, set<Id>))
    ensures |r.0| == |body|
  {
    if body == [] then ([], known)
    else
      var (ti, known') := VisitInstr(l, body[0], known);
      var (rest, final) := VisitBody(l, body[1..], known');
      ([ti] + rest, final)
  }

  function Condition(t: Terminator): (o: Option<Operand>)
  {
    match t
    case CondBr(c, _, _) => Some(c)
    case Switch(c, _, _) => Some(c)
    case _ => None
  }

  function VisitTerm(loops: LoopInfo, here: Label, t: Terminator, known: set<Id>): (r: TTerm)
  {
    var s := match Condition(t) case Some(c) => SlotOf(known, c) case None => Null;
    TTerm(t, s, s, IsLoopCondition(loops, here, t))
  }

  function VisitBlock(l: Layout, loops: LoopInfo, here: Label, b: Block, known: set<Id>): (r: (TBlock, set<Id>))
  {
    var withPhis := VisitPhis(b.phis, known);
    var (body, final) := VisitBody(l, b.body, withPhis);
    (TBlock(b.phis, [], body, VisitTerm(loops, here, b.term, final)), final)
  }

  /** All blocks in layout order. */
  function VisitBlocks(f: Function, loops: LoopInfo, order: seq<Label>, known: set<Id>): (r: (map<Label, TBlock>, set<Id>))
    ensures r.0.Keys <= f.blocks.Keys
  {
    if order == [] then (map[], known)
    else if order[0] !in f.blocks then VisitBlocks(f, loops, order[1..], known)
    else
      var (tb, known') := VisitBlock(f.layout, loops, order[0], f.blocks[order[0]], known);
      var (rest, final) := VisitBlocks(f, loops, order[1..], known');
      (map[order[0] := tb] + rest, final)
  }

  /** A PHI node that receives only values without an expression. */
  predicate OnlyConstants(phi: Phi, known: set<Id>)
  {
    forall p :: p in phi.incoming ==> SlotOf(known, phi.incoming[p]).Null?
  }

  function ErasedPhis(phis: seq<Phi>, known: set<Id>): (r: set<Id>)
  {
    if phis == [] then {}
    else (if OnlyConstants(phis[0], known) then {phis[0].id} else {}) + ErasedPhis(phis[1..], known)
  }

  function AllErased(blocks: map<Label, TBlock>, order: seq<Label>, known: set<Id>): (r: set<Id>)
  {
    if order == [] then {}
    else (if order[0] in blocks then ErasedPhis(blocks[order[0]].phis, known) else {}) + AllErased(blocks, order[1..], known)
  }

  function Forget(s: Slot, erased: set<Id>): (r: Slot)
  {
    if s.Held? && s.id in erased then Null else s
  }

  function FinalInstr(ti: TInstr, erased: set<Id>): (r: TInstr)
    ensures |r.slots| == |ti.slots|
    ensures forall k :: 0 <= k < |ti.slots| ==> r.slots[k] == Forget(ti.slots[k], erased)
  {
    ti.(slots := seq(|ti.slots|, k requires 0 <= k < |ti.slots| => Forget(ti.slots[k], erased)))
  }

  /** The symbolic PHI node, unless it is replaced by null. */
  function FinalPhis(phis: seq<Phi>, known: set<Id>, erased: set<Id>): (r: seq<SymPhi>)
  {
    if phis == [] then []
    else
      var rest := FinalPhis(phis[1..], known, erased);
      if OnlyConstants(phis[0], known) then rest
      else [SymPhi(phis[0].id, map p | p in phis[0].incoming :: Forget(SlotOf(known, phis[0].incoming[p]), erased))] + rest
  }

  function FinalBody(body: seq<TInstr>, erased: set<Id>): (r: seq<TInstr>)
    ensures |r| == |body| && forall k :: 0 <= k < |body| ==> r[k] == FinalInstr(body[k], erased)
  {
    seq(|body|, k requires 0 <= k < |body| => FinalInstr(body[k], erased))
  }

  function FinalBlock(b: TBlock, known: set<Id>, erased: set<Id>): (r: TBlock)
  {
    TBlock(b.phis, FinalPhis(b.phis, known, erased), FinalBody(b.body, erased),
           b.term.(slot := Forget(b.term.slot, erased)))
  }

  /** `instrumentFunction`: visit everything, then finalise the PHI nodes. */
  function Instrument(f: Function, loops: LoopInfo): (tf: TFunction)
  {
    var (blocks, known) := VisitBlocks(f, loops, f.order, {});
    var erased := AllErased(blocks, f.order, known);
    TFunction(f.layout, f.entry, map l | l in blocks :: FinalBlock(blocks[l], known, erased))
  }

  // ----------------------------------------------------------------- execution

  /** The state of an instrumented run. `misled` is a monitor that no emitted code
      reads or writes: it records that an expression was built where the builder departs
      from the instruction, for an index whose zero extension changes the address or for
      operands that a saturating builder gets wrong. */
  datatype TState = TState(st: State, slots: map<Id, SymExpr>, shadow: ShadowMap, seen: set<Label>, log: seq<Constraint>,
                           misled: bool)

  datatype TOutcome = TAt(block: Label, pred: Label, ts: TState) | TDone(ts: TState) | TStuck

  function SlotValue(slots: map<Id, SymExpr>, s: Slot): (e: SymExpr)
  {
    if s.Held? && s.id in slots then slots[s.id] else None
  }

  function SlotValues(slots: map<Id, SymExpr>, ss: seq<Slot>): (es: seq<SymExpr>)
    ensures |es| == |ss|
    ensures forall k :: 0 <= k < |ss| ==> es[k] == SlotValue(slots, ss[k])
  {
    seq(|ss|, k requires 0 <= k < |ss| => SlotValue(slots, ss[k]))
  }

  /** The symbolic effect of the emitted code so far. */
  datatype SymEffect = SymEffect(result: SymExpr, shadow: ShadowMap, log: seq<Constraint>)

  function Mapped(e: SymExpr, f: Expr -> Expr): (r: SymExpr)
  {
    if e.Some? then Some(f(e.value)) else None
  }

  /** `convertBitVectorExprForType` and its inverse, for Booleans. */
  function FromMemory(e: SymExpr, w: nat): (r: SymExpr)
  {
    if w == 1 then Mapped(e, x => BitToBool(TruncTo(x, 1))) else e
  }

  function ToMemory(e: SymExpr, w: nat): (r: SymExpr)
  {
    if w == 1 then Mapped(e, x => ZExt(BoolToBit(x), 7)) else e
  }

  /** Shadows of `n` input bytes read at file position `pos`. */
  function InputShadow(sh: ShadowMap, a: nat, n: nat, pos: nat): (r: ShadowMap)
  {
    map x | x in sh.Keys + Span(a, n) :: if a <= x < a + n then InputByte(pos + (x - a)) else sh[x]
  }

  function RunEmit(l: Layout, e: Emit, slots: seq<Slot>, args: seq<Val>, syms: seq<SymExpr>,
                   st: State, eff: Effect, s: SymEffect): (r: Option<SymEffect>)
    requires |slots| == |args| == |syms|
  {
    match e
    case Assign(c) =>
      if !ComputationOk(c, |args|) then None else
      (match RunGuarded(c, slots, args, syms)
       case Skipped => Some(s.(result := None))
       case Built(x) => Some(s.(result := Some(x)))
       case NullPassed => None)
    case Push(c) =>
      if !ComputationOk(c, |args|) || |args| == 0 then None else
      (match RunGuarded(c, slots, args, syms)
       case Skipped => Some(s)
       case Built(x) => Some(s.(log := s.log + [Constraint(x, args[0].bits == 1)]))
       case NullPassed => None)
    case Pick => if |args| == 3 then Some(s.(result := if args[0].bits == 1 then syms[1] else syms[2])) else None
    case CopyOf(k) => if k < |syms| then Some(s.(result := syms[k])) else None
    case ReadShadow(w) =>
      if |args| == 1 && StoreSize(w) >= 1 && Backed(st.mem, args[0].bits, StoreSize(w))
      then Some(s.(result := FromMemory(Read(s.shadow, st.mem, args[0].bits, StoreSize(w), l.littleEndian), w))) else None
    case WriteShadow(w) =>
      if |args| == 2 then
        Some(s.(shadow := Write(s.shadow, args[0].bits, StoreSize(w), ToMemory(syms[1], w), l.littleEndian))) else None
    case MoveShadow =>
      if |args| == 3 then Some(s.(shadow := Move(s.shadow, args[0].bits, args[1].bits, args[2].bits))) else None
    case FillShadow =>
      if |args| == 3 then Some(s.(shadow := Fill(s.shadow, args[0].bits, args[2].bits, syms[1]))) else None
    case MakeSymbolic =>
      if |args| == 2 && st.pos <= eff.pos
      then Some(s.(result := None, shadow := InputShadow(s.shadow, args[0].bits, eff.pos - st.pos, st.pos))) else None
  }

  function RunCode(l: Layout, code: seq<Emit>, slots: seq<Slot>, args: seq<Val>, syms: seq<SymExpr>,
                   st: State, eff: Effect, s: SymEffect): (r: Option<SymEffect>)
    requires |slots| == |args| == |syms|
  {
    if code == [] then Some(s)
    else
      var s' := RunEmit(l, code[0], slots, args, syms, st, eff, s);
      if s'.None? then None else RunCode(l, code[1..], slots, args, syms, st, eff, s'.value)
  }

  /** A value without a recorded expression has no register for one. */
  function Define(slots: map<Id, SymExpr>, id: Id, registers: bool, e: SymExpr): (r: map<Id, SymExpr>)
  {
    if registers then slots[id := e] else slots - {id}
  }

  /** What zero extension adds for negative indices that are narrower than a pointer. */
  function Skew(steps: seq<Step>, idx: seq<Val>, ptrBits: nat): (d: int)
    requires IndicesFit(steps, idx, ptrBits)
  {
    if steps == [] then 0
    else match steps[0]
      case Field(_, _) => Skew(steps[1..], idx, ptrBits)
      case Elem(_, w, size) =>
        (if w < ptrBits && ToSigned(idx[0].bits, w) < 0 then size * Pow2(w) else 0) + Skew(steps[1..], idx[1..], ptrBits)
  }

  /** Zero extension of the indices does not change the address. */
  predicate ExactIndices(l: Layout, steps: seq<Step>, args: seq<Val>)
  {
    args != [] && IndicesFit(steps, args[1..], l.ptrBits) ==> Wrap(Skew(steps, args[1..], l.ptrBits), l.ptrBits) == 0
  }

  /** The builder gets the intrinsic function right on these operands. */
  predicate ExactIntrinsic(l: Layout, f: IntrinsicFn, args: seq<Val>)
  {
    args != [] && args[0].width == args[|args| - 1].width && IntrinsicDefined(f, args[|args| - 1].bits, args[0].width) ==>
      IntrinsicRight(f, args[0].bits, args[|args| - 1].bits, args[0].width, Wrap(l.wild, 64))
  }

  /** The code emitted for the instruction describes its result on these operands. */
  predicate ExactStep(l: Layout, act: Action, args: seq<Val>)
  {
    match act
    case Gep(_, steps) => ExactIndices(l, steps, args)
    case Intrinsic(f, _, _, _) => ExactIntrinsic(l, f, args)
    case _ => true
  }

  /** One original instruction together with the code emitted for it. */
  function TExec(l: Layout, file: seq<Byte>, ti: TInstr, ts: TState): (r: Option<TState>)
  {
    var i := ti.instr;
    var args := ReadAll(ts.st.regs, Operands(i.act));
    if args.None? || |ti.visited| != |args.value| || |ti.slots| != |args.value| then None else
    var eff := Perform(l, file, i.act, args.value, ts.st);
    if eff.None? then None else
    var code := Code(l, i.act, ti.visited);
    var s := RunCode(l, code, ti.slots, args.value, SlotValues(ts.slots, ti.slots), ts.st, eff.value,
                     SymEffect(None, ts.shadow, ts.log));
    if s.None? then None else
    Some(TState(Commit(ts.st, i, args.value, eff.value),
                if eff.value.result.None? then ts.slots else Define(ts.slots, i.id, Registers(i.act, code), s.value.result),
                s.value.shadow, ts.seen, s.value.log,
                ts.misled || (s.value.result.Some? && !ExactStep(l, i.act, args.value))))
  }

  function TExecBody(l: Layout, file: seq<Byte>, body: seq<TInstr>, ts: TState): (r: Option<TState>)
  {
    if body == [] then Some(ts)
    else
      var next := TExec(l, file, body[0], ts);
      if next.None? then None else TExecBody(l, file, body[1..], next.value)
  }

  /** Expressions chosen by the symbolic PHI nodes; all read before any is written. */
  function SymPhiValues(phis: seq<SymPhi>, pred: Label, slots: map<Id, SymExpr>): (r: map<Id, SymExpr>)
  {
    if phis == [] then map[]
    else SymPhiValues(phis[1..], pred, slots)
      [phis[0].id := if pred in phis[0].incoming then SlotValue(slots, phis[0].incoming[pred]) else None]
  }

  function TEnter(b: TBlock, pred: Label, ts: TState): (r: Option<TState>)
  {
    var vs := PhiValues(b.phis, pred, ts.st.regs);
    if vs.None? then None else
    Some(ts.(st := ts.st.(regs := ts.st.regs + vs.value),
             slots := (ts.slots - vs.value.Keys) + SymPhiValues(b.symPhis, pred, ts.slots)))
  }

  /** One constraint per case of a switch. */
  function CaseConstraints(cases: seq<(Val, Label)>, e: Expr, v: Val): (r: seq<Constraint>)
  {
    if cases == [] then []
    else [Constraint(Compare(Eq, e, ValueExpr(cases[0].0)), v == cases[0].0)] + CaseConstraints(cases[1..], e, v)
  }

  /** The code in front of a terminator: a branch pushes its condition (in a loop
      condition only the first time round), a switch one constraint per case. */
  function BeforeLeaving(t: TTerm, here: Label, ts: TState): (r: TState)
  {
    match t.term
    case CondBr(c, _, _) =>
      var v, e := Read1(ts.st.regs, c), SlotValue(ts.slots, t.slot);
      var pushed := if t.visited.Held? && e.Some? && v.Some?
                    then ts.(log := ts.log + [Constraint(e.value, v.value.bits == 1)]) else ts;
      if !t.guarded then pushed
      else if here in ts.seen then ts
      else pushed.(seen := ts.seen + {here})
    case Switch(c, cases, _) =>
      var v, e := Read1(ts.st.regs, c), SlotValue(ts.slots, t.slot);
      if t.visited.Held? && e.Some? && v.Some?
      then ts.(log := ts.log + CaseConstraints(cases, e.value, v.value)) else ts
    case _ => ts
  }

  function TLeave(t: TTerm, here: Label, ts: TState): (r: TOutcome)
  {
    var ts' := BeforeLeaving(t, here, ts);
    match Leave(t.term, here, ts'.st)
    case At(l, p, _) => TAt(l, p, ts')
    case Done(_) => TDone(ts')
    case Stuck => TStuck
  }

  function TRunBlock(tf: TFunction, file: seq<Byte>, o: TOutcome): (r: TOutcome)
  {
    if !o.TAt? then o
    else if o.block !in tf.blocks then TStuck
    else
      var b := tf.blocks[o.block];
      var entered := TEnter(b, o.pred, o.ts);
      if entered.None? then TStuck else
      var ts := TExecBody(tf.layout, file, b.body, entered.value);
      if ts.None? then TStuck else TLeave(b.term, o.block, ts.value)
  }

  function TRun(tf: TFunction, file: seq<Byte>, o: TOutcome, n: nat): (r: TOutcome)
  {
    if n == 0 then o else TRunBlock(tf, file, TRun(tf, file, o, n - 1))
  }
}
