/** A single-function SSA language in the style of LLVM bitcode, with its
    concrete semantics. Values are integers of the widths that the symbolic
    runtime can express; undefined behaviour and everything outside the subset
    stop the machine. */
module IR {
  import opened Bits
  import opened Exprs
  import opened Builders
  import opened Intrinsics
  import opened ShadowMaps

  type Label = nat
  type Id = nat

  predicate Supported(w: nat) { 1 <= w <= 64 || w == 128 }

  datatype RawValue = Value(bits: nat, width: nat)

  predicate ValidValue(v: RawValue) { Supported(v.width) && Fits(v.bits, v.width) }

  type Val = v: RawValue | ValidValue(v) witness Value(0, 1)

  datatype Opcode = IAdd | ISub | IMul | IUDiv | ISDiv | IURem | ISRem | IShl | ILShr | IAShr | IAnd | IOr | IXor

  datatype Predicate = EQ | NE | UGT | UGE | ULT | ULE | SGT | SGE | SLT | SLE

  datatype CastKind = ZeroExt | SignExt | Truncate

  datatype Operand = Imm(value: Val) | Reg(id: Id)

  /** One index of an address computation: a struct member or an array element. */
  datatype Step = Field(member: nat, offset: nat) | Elem(index: Operand, width: nat, size: nat)

  datatype Action =
    | BinOp(op: Opcode, a: Operand, b: Operand, width: nat)
    | ICmp(pred: Predicate, a: Operand, b: Operand)
    | Cast(kind: CastKind, a: Operand, from: nat, to: nat)
    | Select(c: Operand, a: Operand, b: Operand)
    | LoadI(ptr: Operand, width: nat)
    | StoreI(ptr: Operand, a: Operand, width: nat)
    | Gep(base: Operand, steps: seq<Step>)
    | MemMoveI(dest: Operand, src: Operand, len: Operand)
    | MemSetI(dest: Operand, a: Operand, len: Operand)
    | ReadInput(buf: Operand, len: Operand)
    | Intrinsic(fn: IntrinsicFn, a: Operand, b: Operand, width: nat)

  datatype Instr = Instr(id: Id, act: Action)

  datatype Phi = Phi(id: Id, incoming: map<Label, Operand>)

  datatype Terminator =
    | Br(target: Label)
    | CondBr(cond: Operand, yes: Label, no: Label)
    | Switch(cond: Operand, cases: seq<(Val, Label)>, default: Label)
    | Ret

  datatype Block = Block(phis: seq<Phi>, body: seq<Instr>, term: Terminator)

  /** Pointer width, byte order, and what the runtime's undefined shift `1 << 64` yields
      (its low 64 bits). */
  datatype Layout = Layout(ptrBits: nat, littleEndian: bool, wild: nat)

  datatype Function = Function(layout: Layout, entry: Label, order: seq<Label>, blocks: map<Label, Block>)

  /** An instruction that was executed, with the values of its operands. */
  datatype Event = Event(instr: Instr, args: seq<Val>)

  datatype State = State(regs: map<Id, Val>, mem: Memory, pos: nat, trace: seq<Event>)

  datatype Effect = Effect(result: Option<Val>, mem: Memory, pos: nat)

  datatype Outcome = At(block: Label, pred: Label, st: State) | Done(st: State) | Stuck

  // --------------------------------------------------------------- operators

  /** Quotient truncated towards zero. */
  function TruncDiv(x: int, y: int): (q: int)
    requires y != 0
  {
    var ax, ay := if x < 0 then -x else x, if y < 0 then -y else y;
    if (x < 0) == (y < 0) then ax / ay else -(ax / ay)
  }

  predicate Defined(op: Opcode, x: nat, y: nat, w: nat)
    requires w >= 1 && Fits(x, w) && Fits(y, w)
  {
    match op
    case IUDiv => y != 0
    case IURem => y != 0
    case ISDiv => y != 0 && !(ToSigned(x, w) == -Pow2(w - 1) && ToSigned(y, w) == -1)
    case ISRem => y != 0 && !(ToSigned(x, w) == -Pow2(w - 1) && ToSigned(y, w) == -1)
    case IShl => y < w
    case ILShr => y < w
    case IAShr => y < w
    case _ => true
  }

  /** Integer arithmetic as the LLVM language reference defines it. */
  function Calculate(op: Opcode, x: nat, y: nat, w: nat): (z: nat)
    requires w >= 1 && Fits(x, w) && Fits(y, w) && Defined(op, x, y, w)
    ensures Fits(z, w)
  {
    match op
    case IAdd => Wrap(x + y, w)
    case ISub => Wrap(x - y, w)
    case IMul => Wrap(x * y, w)
    case IUDiv => DivNat(x, y); x / y
    case IURem => x % y
    case ISDiv => Wrap(TruncDiv(ToSigned(x, w), ToSigned(y, w)), w)
    case ISRem => Wrap(ToSigned(x, w) - TruncDiv(ToSigned(x, w), ToSigned(y, w)) * ToSigned(y, w), w)
    case IShl => Wrap(x * Pow2(y), w)
    case ILShr => Shr(x, y)
    case IAShr => Wrap(ToSigned(x, w) / Pow2(y), w)
    case IAnd => Bitwise(And, x, y, w)
    case IOr => Bitwise(Or, x, y, w)
    case IXor => Bitwise(Xor, x, y, w)
  }

  /** On Booleans only the logical operators are defined. */
  predicate Logical(op: Opcode) { op.IAnd? || op.IOr? || op.IXor? }

  function BinaryValue(op: Opcode, x: Val, y: Val): (z: Option<Val>)
  {
    if x.width == y.width && (x.width > 1 || Logical(op)) && Defined(op, x.bits, y.bits, x.width)
    then Some(Value(Calculate(op, x.bits, y.bits, x.width), x.width)) else None
  }

  predicate Satisfies(p: Predicate, x: nat, y: nat, w: nat)
    requires w >= 1 && Fits(x, w) && Fits(y, w)
  {
    match p
    case EQ => x == y
    case NE => x != y
    case UGT => x > y
    case UGE => x >= y
    case ULT => x < y
    case ULE => x <= y
    case SGT => ToSigned(x, w) > ToSigned(y, w)
    case SGE => ToSigned(x, w) >= ToSigned(y, w)
    case SLT => ToSigned(x, w) < ToSigned(y, w)
    case SLE => ToSigned(x, w) <= ToSigned(y, w)
  }

  function BoolVal(b: bool): (v: Val)
    ensures v == Value(FlagOf(b), 1)
  {
    Value(FlagOf(b), 1)
  }

  function Comparison(p: Predicate, x: Val, y: Val): (z: Option<Val>)
  {
    if x.width == y.width && (x.width > 1 || p.EQ? || p.NE?)
    then Some(BoolVal(Satisfies(p, x.bits, y.bits, x.width))) else None
  }

  function Convert(k: CastKind, x: Val, from: nat, to: nat): (z: Option<Val>)
  {
    if x.width != from || !Supported(to) then None else
    match k
    case ZeroExt => if from < to then Some(Value(ZeroExtend(x.bits, from, to - from), to)) else None
    case SignExt => if from < to then Some(Value(SignExtend(x.bits, from, to - from), to)) else None
    case Truncate => if to < from then Some(Value(Wrap(x.bits, to), to)) else None
  }

  /** An intrinsic function; one with a single operand gets it twice. */
  function IntrinsicValue(f: IntrinsicFn, x: Val, y: Val): (z: Option<Val>)
  {
    if x.width == y.width && IntrinsicDefined(f, y.bits, x.width)
    then Some(Value(IntrinsicResult(f, x.bits, y.bits, x.width), x.width)) else None
  }

  // ------------------------------------------------------------------ memory

  /** Widths whose memory representation has no partial byte, and Booleans. */
  predicate Storable(w: nat) { Supported(w) && (w == 1 || w % 8 == 0) }

  function StoreSize(w: nat): (n: nat)
  {
    if w == 1 then 1 else w / 8
  }

  /** The bytes of a value, most significant first; a Boolean takes one byte. */
  function ValueBytes(v: Val): (s: seq<Byte>)
    requires Storable(v.width)
    ensures |s| == StoreSize(v.width)
  {
    Bytes(v.bits, StoreSize(v.width))
  }

  function LoadValue(l: Layout, mem: Memory, a: nat, w: nat): (v: Val)
    requires Storable(w) && Backed(mem, a, StoreSize(w))
  {
    var s := Ordered(Load(mem, a, StoreSize(w)), l.littleEndian);
    BytesOfNumber(s);
    Value(Wrap(Number(s), w), w)
  }

  // ----------------------------------------------------- address computation

  predicate IsZero(o: Operand) { o.Imm? && o.value.bits == 0 }

  function IndexOperands(steps: seq<Step>): (os: seq<Operand>)
  {
    if steps == [] then []
    else (if steps[0].Elem? then [steps[0].index] else []) + IndexOperands(steps[1..])
  }

  /** Index types agree with their values and are no wider than a pointer;
      member 0 of a struct lies at offset 0. */
  predicate IndicesFit(steps: seq<Step>, idx: seq<Val>, ptrBits: nat)
  {
    if steps == [] then idx == []
    else match steps[0]
      case Field(m, off) => (m == 0 ==> off == 0) && Fits(off, ptrBits) && IndicesFit(steps[1..], idx, ptrBits)
      case Elem(o, w, size) =>
        idx != [] && idx[0].width == w <= ptrBits && w > 1 && Fits(size, ptrBits) &&
        (o.Imm? ==> o.value == idx[0]) && IndicesFit(steps[1..], idx[1..], ptrBits)
  }

  /** The exact byte offset; indices count as signed. */
  function Displacement(steps: seq<Step>, idx: seq<Val>, ptrBits: nat): (d: int)
    requires IndicesFit(steps, idx, ptrBits)
  {
    if steps == [] then 0
    else match steps[0]
      case Field(_, off) => off + Displacement(steps[1..], idx, ptrBits)
      case Elem(_, w, size) => ToSigned(idx[0].bits, w) * size + Displacement(steps[1..], idx[1..], ptrBits)
  }

  // ------------------------------------------------------------ instructions

  function Operands(act: Action): (os: seq<Operand>)
  {
    match act
    case BinOp(_, a, b, _) => [a, b]
    case ICmp(_, a, b) => [a, b]
    case Cast(_, a, _, _) => [a]
    case Select(c, a, b) => [c, a, b]
    case LoadI(p, _) => [p]
    case StoreI(p, a, _) => [p, a]
    case Gep(p, steps) => [p] + IndexOperands(steps)
    case MemMoveI(d, s, n) => [d, s, n]
    case MemSetI(d, a, n) => [d, a, n]
    case ReadInput(p, n) => [p, n]
    case Intrinsic(f, a, b, _) => if UnaryIntrinsic(f) then [a] else [a, b]
  }

  function Min(a: int, b: int): (m: int)
  {
    if a < b then a else b
  }

  function PerformLoad(l: Layout, p: Val, w: nat, st: State): (r: Option<Effect>)
  {
    if p.width == l.ptrBits && Storable(w) && Backed(st.mem, p.bits, StoreSize(w))
    then Some(Effect(Some(LoadValue(l, st.mem, p.bits, w)), st.mem, st.pos)) else None
  }

  function PerformStore(l: Layout, p: Val, v: Val, w: nat, st: State): (r: Option<Effect>)
  {
    if p.width == l.ptrBits && v.width == w && Storable(w) && Backed(st.mem, p.bits, StoreSize(w))
    then Some(Effect(None, Store(st.mem, p.bits, Ordered(ValueBytes(v), l.littleEndian)), st.pos)) else None
  }

  function PerformGep(l: Layout, p: Val, steps: seq<Step>, idx: seq<Val>, st: State): (r: Option<Effect>)
  {
    if p.width == l.ptrBits && l.ptrBits > 1 && IndicesFit(steps, idx, l.ptrBits)
    then Some(Effect(Some(Value(Wrap(p.bits + Displacement(steps, idx, l.ptrBits), l.ptrBits), l.ptrBits)), st.mem, st.pos))
    else None
  }

  predicate AddressAndLength(l: Layout, p: Val, n: Val)
  {
    p.width == l.ptrBits && n.width <= l.ptrBits
  }

  function PerformMove(l: Layout, d: Val, s: Val, n: Val, st: State): (r: Option<Effect>)
  {
    if AddressAndLength(l, d, n) && s.width == l.ptrBits && Backed(st.mem, s.bits, n.bits) && Backed(st.mem, d.bits, n.bits)
    then Some(Effect(None, Store(st.mem, d.bits, Load(st.mem, s.bits, n.bits)), st.pos)) else None
  }

  function PerformSet(l: Layout, d: Val, v: Val, n: Val, st: State): (r: Option<Effect>)
  {
    if AddressAndLength(l, d, n) && v.width == 8 && Backed(st.mem, d.bits, n.bits)
    then ByteOfValue(v); Some(Effect(None, Store(st.mem, d.bits, seq(n.bits, i => v.bits)), st.pos)) else None
  }

  lemma ByteOfValue(v: Val)
    requires v.width == 8
    ensures v.bits < 256
  {
    Pow2Of8();
  }

  /** `read` on the input descriptor: as many bytes as asked for and available. */
  function PerformRead(l: Layout, file: seq<Byte>, p: Val, n: Val, st: State): (r: Option<Effect>)
  {
    if AddressAndLength(l, p, n) && n.width == l.ptrBits && st.pos <= |file| &&
       Backed(st.mem, p.bits, Min(n.bits, |file| - st.pos))
    then
      var k := Min(n.bits, |file| - st.pos);
      Some(Effect(Some(Value(k, l.ptrBits)), Store(st.mem, p.bits, file[st.pos..st.pos + k]), st.pos + k))
    else None
  }

  function Pure(v: Option<Val>, st: State): (r: Option<Effect>)
  {
    if v.Some? then Some(Effect(v, st.mem, st.pos)) else None
  }

  /** The effect of an instruction on given operand values. */
  function Perform(l: Layout, file: seq<Byte>, act: Action, args: seq<Val>, st: State): (r: Option<Effect>)
    requires |args| == |Operands(act)|
  {
    match act
    case BinOp(op, _, _, w) => if args[0].width == w then Pure(BinaryValue(op, args[0], args[1]), st) else None
    case ICmp(p, _, _) => Pure(Comparison(p, args[0], args[1]), st)
    case Cast(k, _, from, to) => Pure(Convert(k, args[0], from, to), st)
    case Select(_, _, _) =>
      if args[0].width == 1 && args[1].width == args[2].width
      then Pure(Some(if args[0].bits == 1 then args[1] else args[2]), st) else None
    case LoadI(_, w) => PerformLoad(l, args[0], w, st)
    case StoreI(_, _, w) => PerformStore(l, args[0], args[1], w, st)
    case Gep(_, steps) => PerformGep(l, args[0], steps, args[1..], st)
    case MemMoveI(_, _, _) => PerformMove(l, args[0], args[1], args[2], st)
    case MemSetI(_, _, _) => PerformSet(l, args[0], args[1], args[2], st)
    case ReadInput(_, _) => PerformRead(l, file, args[0], args[1], st)
    case Intrinsic(f, _, _, w) =>
      if args[0].width == w then Pure(IntrinsicValue(f, args[0], args[|args| - 1]), st) else None
  }

  function Read1(regs: map<Id, Val>, o: Operand): (v: Option<Val>)
  {
    match o
    case Imm(v) => Some(v)
    case Reg(id) => if id in regs then Some(regs[id]) else None
  }

  function ReadAll(regs: map<Id, Val>, os: seq<Operand>): (vs: Option<seq<Val>>)
    ensures vs.Some? ==> |vs.value| == |os|
    ensures vs.Some? ==> forall i :: 0 <= i < |os| ==> Read1(regs, os[i]) == Some(vs.value[i])
    ensures vs.None? ==> exists i :: 0 <= i < |os| && Read1(regs, os[i]) == None
  {
    if os == [] then Some([])
    else
      var first, rest := Read1(regs, os[0]), ReadAll(regs, os[1..]);
      if first.Some? && rest.Some? then Some([first.value] + rest.value) else None
  }

  function Commit(st: State, i: Instr, args: seq<Val>, eff: Effect): (r: State)
  {
    State(if eff.result.Some? then st.regs[i.id := eff.result.value] else st.regs,
          eff.mem, eff.pos, st.trace + [Event(i, args)])
  }

  function Exec(l: Layout, file: seq<Byte>, i: Instr, st: State): (r: Option<State>)
  {
    var args := ReadAll(st.regs, Operands(i.act));
    if args.None? then None else
    var eff := Perform(l, file, i.act, args.value, st);
    if eff.None? then None else Some(Commit(st, i, args.value, eff.value))
  }

  function ExecBody(l: Layout, file: seq<Byte>, body: seq<Instr>, st: State): (r: Option<State>)
  {
    if body == [] then Some(st)
    else
      var next := Exec(l, file, body[0], st);
      if next.None? then None else ExecBody(l, file, body[1..], next.value)
  }

  // ------------------------------------------------------------ control flow

  /** All PHI nodes of a block read their operands before any of them is written. */
  function PhiValues(phis: seq<Phi>, pred: Label, regs: map<Id, Val>): (r: Option<map<Id, Val>>)
  {
    if phis == [] then Some(map[])
    else
      var rest := PhiValues(phis[1..], pred, regs);
      if rest.None? || pred !in phis[0].incoming then None else
      var v := Read1(regs, phis[0].incoming[pred]);
      if v.None? then None else Some(rest.value[phis[0].id := v.value])
  }

  function EnterBlock(b: Block, pred: Label, st: State): (r: Option<State>)
  {
    var vs := PhiValues(b.phis, pred, st.regs);
    if vs.None? then None else Some(st.(regs := st.regs + vs.value))
  }

  function CaseTarget(cases: seq<(Val, Label)>, v: Val, default: Label): (l: Label)
  {
    if cases == [] then default
    else if cases[0].0 == v then cases[0].1
    else CaseTarget(cases[1..], v, default)
  }

  function Leave(term: Terminator, here: Label, st: State): (r: Outcome)
  {
    match term
    case Br(l) => At(l, here, st)
    case CondBr(c, yes, no) =>
      var v := Read1(st.regs, c);
      if v.Some? && v.value.width == 1 then At(if v.value.bits == 1 then yes else no, here, st) else Stuck
    case Switch(c, cases, default) =>
      var v := Read1(st.regs, c);
      if v.Some? && (forall k :: 0 <= k < |cases| ==> cases[k].0.width == v.value.width)
      then At(CaseTarget(cases, v.value, default), here, st) else Stuck
    case Ret => Done(st)
  }

  function RunBlock(f: Function, file: seq<Byte>, o: Outcome): (r: Outcome)
  {
    if !o.At? then o
    else if o.block !in f.blocks then Stuck
    else
      var b := f.blocks[o.block];
      var entered := EnterBlock(b, o.pred, o.st);
      if entered.None? then Stuck else
      var st := ExecBody(f.layout, file, b.body, entered.value);
      if st.None? then Stuck else Leave(b.term, o.block, st.value)
  }

  /** The configuration after `n` basic blocks. */
  function Run(f: Function, file: seq<Byte>, o: Outcome, n: nat): (r: Outcome)
  {
    if n == 0 then o else RunBlock(f, file, Run(f, file, o, n - 1))
  }
}
