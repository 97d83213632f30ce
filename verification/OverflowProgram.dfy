/** The overflow checker over a whole function: the instructions present at the start
    are listed first and then visited one after the other. */
module OverflowProgram {
  import opened Bits
  import opened Exprs
  import opened IR
  import opened OverflowChecks
  import opened OverflowPass
  import opened OverflowSplit
  import opened OverflowRuns

  /** A function with its first unused block label and value id. */
  datatype Program = Program(f: Function, base: Label, next: Id)

  function IndexOf(body: seq<Instr>, id: Id): (r: Option<nat>)
    ensures r.Some? ==> r.value < |body| && body[r.value].id == id
    ensures r.None? ==> forall k :: 0 <= k < |body| ==> body[k].id != id
  {
    if body == [] then None
    else if body[0].id == id then Some(0)
    else var r := IndexOf(body[1..], id); if r.Some? then Some(r.value + 1) else None
  }

  /** The block and position of an instruction. */
  function Locate(f: Function, order: seq<Label>, id: Id): (r: Option<(Label, nat)>)
    ensures r.Some? ==> Sits(f, r.value.0, r.value.1, id)
    ensures r.None? ==> forall l, k: nat :: l in order ==> !Sits(f, l, k, id)
  {
    if order == [] then None
    else
      var here := if order[0] in f.blocks then IndexOf(f.blocks[order[0]].body, id) else None;
      if here.Some? then Some((order[0], here.value)) else Locate(f, order[1..], id)
  }

  function AfterSplit(checks: seq<Term>, id: Id, bounds: Bounds, next: Id): (n: Id)
    ensures n >= next
  {
    Emit(BoundCheck(ULT, id, bounds.min), ChainNext(checks, next)).next
  }

  /** Visiting one instruction. */
  function Visit(p: Program, id: Id, bounds: Bounds): (r: Program)
  {
    var pos := Locate(p.f, p.f.order, id);
    if pos.Some? && IsChecked(p.f.blocks[pos.value.0].body[pos.value.1].act) then
      var (at, i) := pos.value;
      Program(Split(p.f, at, i, p.base, p.next, bounds), p.base + NEW_BLOCKS,
              AfterSplit(Checks(p.f.blocks[at].body[i], bounds), id, bounds, p.next))
    else p
  }

  function VisitAll(p: Program, ids: seq<Id>, bounds: Bounds): (r: Program)
  {
    if ids == [] then p else Visit(VisitAll(p, ids[..|ids| - 1], bounds), ids[|ids| - 1], bounds)
  }

  // ------------------------------------------------------------------- fresh code

  /** Code that defines ids from `next` up to `end` and reads only what was defined before. */
  predicate Fresh(instrs: seq<Instr>, next: Id, end: Id)
  {
    forall k :: 0 <= k < |instrs| ==> next <= instrs[k].id && InstrBelow(instrs[k], end)
  }

  lemma OperandsMore(os: seq<Operand>, next: Id, end: Id)
    requires OperandsBelow(os, next) && next <= end
    ensures OperandsBelow(os, end)
  {
    forall k | 0 <= k < |os|
      ensures OperandBelow(os[k], end)
    {
      assert OperandBelow(os[k], next);
    }
  }

  lemma InstrMore(i: Instr, next: Id, end: Id)
    requires InstrBelow(i, next) && next <= end
    ensures InstrBelow(i, end)
  {
    hide OperandsBelow, Operands;
    OperandsMore(Operands(i.act), next, end);
  }

  lemma BodyMore(body: seq<Instr>, next: Id, end: Id)
    requires BodyBelow(body, next) && next <= end
    ensures BodyBelow(body, end)
  {
    hide InstrBelow;
    forall k | 0 <= k < |body|
      ensures InstrBelow(body[k], end)
    {
      InstrMore(body[k], next, end);
    }
  }

  lemma FreshJoin(a: seq<Instr>, b: seq<Instr>, next: Id, mid: Id, end: Id)
    requires Fresh(a, next, mid) && Fresh(b, mid, end) && next <= mid <= end
    ensures Fresh(a + b, next, end)
  {
    hide InstrBelow;
    forall k | 0 <= k < |a + b|
      ensures next <= (a + b)[k].id && InstrBelow((a + b)[k], end)
    {
      if k < |a| { InstrMore(a[k], mid, end); } else { assert (a + b)[k] == b[k - |a|]; }
    }
  }

  lemma FreshLast(i: Instr, next: Id)
    requires i.id == next && OperandsBelow(Operands(i.act), next)
    ensures Fresh([i], next, next + 1)
  {
    hide Operands;
    OperandsMore(Operands(i.act), next, next + 1);
    forall k | 0 <= k < |Operands(i.act)|
      ensures Operands(i.act)[k] != Reg(next)
    {
      assert OperandBelow(Operands(i.act)[k], next);
    }
  }

  lemma OneFresh(front: seq<Instr>, i: Instr, os: seq<Operand>, next: Id)
    requires next <= i.id && Fresh(front, next, i.id) && Operands(i.act) == os && OperandsBelow(os, i.id)
    ensures Fresh(front + [i], next, i.id + 1)
  {
    hide Fresh, Operands;
    FreshLast(i, i.id);
    FreshJoin(front, [i], next, i.id, i.id + 1);
  }

  predicate FreshCode(c: Code, next: Id)
  {
    next <= c.next && Fresh(c.instrs, next, c.next) && OperandBelow(c.result, c.next)
  }

  lemma JoinCode(ca: Code, cb: Code, next: Id)
    requires FreshCode(ca, next) && FreshCode(cb, ca.next)
    ensures FreshCode(Code(ca.instrs + cb.instrs, ca.result, cb.next), next)
    ensures FreshCode(Code(ca.instrs + cb.instrs, cb.result, cb.next), next)
  {
    hide Fresh;
    FreshJoin(ca.instrs, cb.instrs, next, ca.next, cb.next);
  }

  /** Emitted code has fresh ids only and never reads what it defines later. */
  lemma {:induction false} EmitFresh(t: Term, next: Id)
    requires TermBelow(t, next)
    ensures FreshCode(Emit(t, next), next)
  {
    hide Fresh, OperandsBelow, FreshCode;
    match t
    case Leaf(o) => LeafFresh(o, next);
    case Op2(op, a, b, w) =>
      EmitFresh(a, next);
      TermBelowMore(b, next, Emit(a, next).next);
      EmitFresh(b, Emit(a, next).next);
      OpFresh(op, a, b, w, next);
    case Rel(p, a, b) =>
      EmitFresh(a, next);
      TermBelowMore(b, next, Emit(a, next).next);
      EmitFresh(b, Emit(a, next).next);
      RelFresh(p, a, b, next);
    case If(c, a, b) =>
      EmitFresh(c, next);
      var cc := Emit(c, next);
      TermBelowMore(a, next, cc.next);
      EmitFresh(a, cc.next);
      TermBelowMore(b, next, Emit(a, cc.next).next);
      EmitFresh(b, Emit(a, cc.next).next);
      IfFresh(c, a, b, next);
  }

  lemma LeafFresh(o: Operand, next: Id)
    requires OperandBelow(o, next)
    ensures FreshCode(Emit(Leaf(o), next), next)
  {
  }

  lemma OpFresh(op: Opcode, a: Term, b: Term, w: nat, next: Id)
    requires var ca := Emit(a, next); FreshCode(ca, next) && FreshCode(Emit(b, ca.next), ca.next)
    ensures FreshCode(Emit(Op2(op, a, b, w), next), next)
  {
    hide Fresh;
    var ca := Emit(a, next);
    var cb := Emit(b, ca.next);
    JoinCode(ca, cb, next);
    OneFresh(ca.instrs + cb.instrs, Instr(cb.next, BinOp(op, ca.result, cb.result, w)), [ca.result, cb.result], next);
  }

  lemma RelFresh(p: Predicate, a: Term, b: Term, next: Id)
    requires var ca := Emit(a, next); FreshCode(ca, next) && FreshCode(Emit(b, ca.next), ca.next)
    ensures FreshCode(Emit(Rel(p, a, b), next), next)
  {
    hide Fresh;
    var ca := Emit(a, next);
    var cb := Emit(b, ca.next);
    JoinCode(ca, cb, next);
    OneFresh(ca.instrs + cb.instrs, Instr(cb.next, ICmp(p, ca.result, cb.result)), [ca.result, cb.result], next);
  }

  lemma IfFresh(c: Term, a: Term, b: Term, next: Id)
    requires var cc := Emit(c, next);
             var ca := Emit(a, cc.next);
             FreshCode(cc, next) && FreshCode(ca, cc.next) && FreshCode(Emit(b, ca.next), ca.next)
    ensures FreshCode(Emit(If(c, a, b), next), next)
  {
    hide Fresh, FreshCode, OperandsBelow, Emit;
    var cc := Emit(c, next);
    var ca := Emit(a, cc.next);
    var cb := Emit(b, ca.next);
    IfEmits(c, a, b, next, cc, ca, cb);
    JoinCode(cc, ca, next);
    JoinCode(Code(cc.instrs + ca.instrs, ca.result, ca.next), cb, next);
    JoinCode(Code(cc.instrs + ca.instrs, cc.result, ca.next), cb, next);
    SelectFresh(cc.instrs + ca.instrs + cb.instrs, cc.result, ca.result, cb.result, cb.next, next);
  }

  lemma IfEmits(c: Term, a: Term, b: Term, next: Id, cc: Code, ca: Code, cb: Code)
    requires cc == Emit(c, next) && ca == Emit(a, cc.next) && cb == Emit(b, ca.next)
    ensures Emit(If(c, a, b), next) == SelectCode(cc, ca, cb)
  {
    hide SelectCode;
  }

  lemma SelectFresh(front: seq<Instr>, z: Operand, x: Operand, y: Operand, id: Id, next: Id)
    requires FreshCode(Code(front, z, id), next) && FreshCode(Code(front, x, id), next) && FreshCode(Code(front, y, id), next)
    ensures FreshCode(Code(front + [Instr(id, Select(z, x, y))], Reg(id), id + 1), next)
  {
    hide Fresh;
    OneFresh(front, Instr(id, Select(z, x, y)), [z, x, y], next);
  }

  // ---------------------------------------------------------- the new function is fine

  lemma TermBelowOfSound(t: Term, regs: map<Id, Val>, next: Id)
    requires Sound(t, regs, next)
    ensures TermBelow(t, next)
  {
  }

  function WithValue(o: Operand, regs: map<Id, Val>): (r: map<Id, Val>) { if o.Reg? then regs[o.id := Value(0, 32)] else regs }

  lemma ChecksBelow(i: Instr, bounds: Bounds, next: Id)
    requires IsChecked(i.act) && InstrBelow(i, next)
    ensures forall k :: 0 <= k < 7 ==> TermBelow(Checks(i, bounds)[k], next)
    ensures TermBelow(BoundCheck(ULT, i.id, bounds.min), next)
  {
    hide OverflowTerm, Sound, Number1;
    var a, b := i.act.a, i.act.b;
    assert Operands(i.act) == [a, b];
    assert OperandBelow(Operands(i.act)[0], next) && OperandBelow(Operands(i.act)[1], next);
    var regs := WithValue(a, WithValue(b, map[]));
    SoundLeaf(a, regs, next);
    SoundLeaf(b, regs, next);
    SoundOverflowTerm(i.act, regs, next);
    TermBelowOfSound(OverflowTerm(i.act), regs, next);
    forall p, n
      ensures TermBelow(BoundCheck(p, i.id, n), next)
    {
      NumberBelow(n, next);
    }
  }

  lemma NumberBelow(n: int, next: Id)
    ensures TermBelow(Number1(n, 32), next)
  {
  }

  lemma CheckBlockBelow(t: Term, next: Id, target: Label, base: Label, end: Id)
    requires TermBelow(t, next) && target < base && Emit(t, next).next <= end
    ensures var c := Emit(t, next); BlockBelow(Block([], c.instrs, CondBr(c.result, target, target)), base, end)
    ensures Fresh(Emit(t, next).instrs, next, end)
  {
    hide InstrBelow, Emit;
    EmitFresh(t, next);
    var c := Emit(t, next);
    forall k | 0 <= k < |c.instrs|
      ensures InstrBelow(c.instrs[k], end)
    {
      InstrMore(c.instrs[k], c.next, end);
    }
  }

  /** The blocks of the chain are closed and define fresh ids only. */
  lemma {:induction false} ChainFresh(ts: seq<Term>, here: Label, next: Id, cont: Label, base: Label, end: Id)
    requires forall k :: 0 <= k < |ts| ==> TermBelow(ts[k], next)
    requires cont < base && here + |ts| <= base && ChainNext(ts, next) <= end
    ensures forall l :: l in Chain(ts, here, next, cont) ==>
              BlockBelow(Chain(ts, here, next, cont)[l], base, end) && Fresh(Chain(ts, here, next, cont)[l].body, next, end)
  {
    hide TermBelow, Emit, BlockBelow, Fresh;
    if ts != [] {
      var c, target := Emit(ts[0], next), if |ts| == 1 then cont else here + 1;
      CheckBlockBelow(ts[0], next, target, base, end);
      forall k | 0 <= k < |ts| - 1
        ensures TermBelow(ts[1..][k], c.next)
      {
        TermBelowMore(ts[k + 1], next, c.next);
      }
      ChainFresh(ts[1..], here + 1, c.next, cont, base, end);
      var tail := Chain(ts[1..], here + 1, c.next, cont);
      forall l | l in tail
        ensures Fresh(tail[l].body, next, end)
      {
        FreshFromBelow(tail[l].body, next, c.next, end);
      }
    }
  }

  lemma FreshFromBelow(body: seq<Instr>, next: Id, mid: Id, end: Id)
    requires Fresh(body, mid, end) && next <= mid
    ensures Fresh(body, next, end)
  {
    hide InstrBelow;
  }

  lemma RenamedBelow(b: Block, at: Label, base: Label, next: Id, base': Label, end: Id)
    requires BlockBelow(b, base, next) && base < base' && next <= end
    ensures BlockBelow(RenameBlock(b, at, base), base', end)
    ensures PhisBelow(RenamePhis(b.phis, at, base), base', end) && BodyBelow(b.body, end) && TermLabelsBelow(b.term, base', end)
  {
    hide InstrBelow;
    BodyMore(b.body, next, end);
    TermLabelsMore(b.term, base, next, base', end);
    forall k | 0 <= k < |b.phis|
      ensures PhiBelow(RenamePhi(b.phis[k], at, base), base', end)
    {
      PhiMore(b.phis[k], at, base, next, base', end);
    }
  }

  lemma PhiMore(phi: Phi, at: Label, base: Label, next: Id, base': Label, end: Id)
    requires PhiBelow(phi, base, next) && base < base' && next <= end
    ensures PhiBelow(RenamePhi(phi, at, base), base', end)
  {
  }

  lemma TermLabelsMore(t: Terminator, base: Label, next: Id, base': Label, end: Id)
    requires TermLabelsBelow(t, base, next) && base <= base' && next <= end
    ensures TermLabelsBelow(t, base', end)
  {
  }

  lemma PartsBelow(b: Block, phis: seq<Phi>, i: nat, t: Terminator, base: Label, next: Id)
    requires PhisBelow(phis, base, next) && BodyBelow(b.body, next) && TermLabelsBelow(t, base, next) && i < |b.body|
    ensures BlockBelow(Block(phis, b.body[..i + 1], t), base, next) && BlockBelow(Block([], b.body[i + 1..], t), base, next)
  {
    hide InstrBelow, PhiBelow;
  }

  function DeadCheck(i: Instr, bounds: Bounds, base: Label, next: Id): (b: Block)
  {
    var c := Emit(BoundCheck(ULT, i.id, bounds.min), next);
    Block([], c.instrs, CondBr(c.result, base + 6, base + 6))
  }

  /** Where each block of the result comes from. */
  lemma BlockOrigins(f: Function, at: Label, i: nat, base: Label, next: Id, bounds: Bounds)
    requires Splittable(f, at, i, base, next)
    ensures var f', ins := Split(f, at, i, base, next, bounds), f.blocks[at].body[i];
            var chain := Chain(Checks(ins, bounds), base + 1, next, base);
            forall l :: l in f'.blocks ==>
              (l == at && f'.blocks[l] == Head(f, at, i, base))
              || (l == base && f'.blocks[l] == Cont(f, at, i))
              || (l in f.blocks && l != at && l != base && f'.blocks[l] == RenameBlock(f.blocks[l], at, base))
              || (l in chain && f'.blocks[l] == chain[l])
              || (l == base + 8 && f'.blocks[l] == DeadCheck(ins, bounds, base, ChainNext(Checks(ins, bounds), next)))
  {
    hide BlockBelow, IsChecked, Checks, RenameBlock, RenamePhis, Chain, NewOrder, Emit, ChainNext;
  }

  /** Blocks inserted by a split: everything they define is new. */
  lemma InsertedFresh(f: Function, at: Label, i: nat, base: Label, next: Id, bounds: Bounds)
    requires Splittable(f, at, i, base, next)
    ensures var ins := f.blocks[at].body[i];
            var checks := Checks(ins, bounds);
            var chain, end := Chain(checks, base + 1, next, base), AfterSplit(checks, ins.id, bounds, next);
            var dead := DeadCheck(ins, bounds, base, ChainNext(checks, next));
            BlockBelow(dead, base + NEW_BLOCKS, end) && Fresh(dead.body, next, end) &&
            forall l :: l in chain ==> BlockBelow(chain[l], base + NEW_BLOCKS, end) && Fresh(chain[l].body, next, end)
  {
    hide BlockBelow, IsChecked, Checks, Chain, Emit, ChainNext, InstrBelow, TermBelow, Fresh, BoundCheck;
    var ins := f.blocks[at].body[i];
    AtBelow(f, at, i, base, next);
    ChecksBelow(ins, bounds, next);
    var checks := Checks(ins, bounds);
    var mid, end := ChainNext(checks, next), AfterSplit(checks, ins.id, bounds, next);
    ChainFresh(checks, base + 1, next, base, base + NEW_BLOCKS, end);
    TermBelowMore(BoundCheck(ULT, ins.id, bounds.min), next, mid);
    CheckBlockBelow(BoundCheck(ULT, ins.id, bounds.min), mid, base + 6, base + NEW_BLOCKS, end);
    FreshFromBelow(Emit(BoundCheck(ULT, ins.id, bounds.min), mid).instrs, next, mid, end);
  }

  lemma AtBelow(f: Function, at: Label, i: nat, base: Label, next: Id)
    requires Splittable(f, at, i, base, next)
    ensures at < base && BlockBelow(f.blocks[at], base, next) && InstrBelow(f.blocks[at].body[i], next)
  {
    hide IsChecked, InstrBelow;
  }

  /** The result is again closed under its new bounds. */
  lemma SplitBelow(f: Function, at: Label, i: nat, base: Label, next: Id, bounds: Bounds)
    requires Splittable(f, at, i, base, next)
    ensures var ins := f.blocks[at].body[i];
            FunctionBelow(Split(f, at, i, base, next, bounds), base + NEW_BLOCKS, AfterSplit(Checks(ins, bounds), ins.id, bounds, next))
  {
    hide BlockBelow, IsChecked, Checks, Split, AfterSplit, Chain, DeadCheck, ChainNext, Fresh, RenameBlock, PhisBelow, BodyBelow, RenamePhis;
    var f', ins := Split(f, at, i, base, next, bounds), f.blocks[at].body[i];
    var base', end := base + NEW_BLOCKS, AfterSplit(Checks(ins, bounds), ins.id, bounds, next);
    BlockOrigins(f, at, i, base, next, bounds);
    InsertedFresh(f, at, i, base, next, bounds);
    SplitLayout(f, at, i, base, next, bounds);
    forall l | l in f.blocks
      ensures l < base && BlockBelow(RenameBlock(f.blocks[l], at, base), base', end)
      ensures PhisBelow(RenamePhis(f.blocks[l].phis, at, base), base', end)
      ensures BodyBelow(f.blocks[l].body, end) && TermLabelsBelow(f.blocks[l].term, base', end)
    {
      RenamedBelow(f.blocks[l], at, base, next, base', end);
    }
    PartsBelow(f.blocks[at], RenamePhis(f.blocks[at].phis, at, base), i, Br(base + 1), base', end);
    NoPhisBelow(base', end);
    PartsBelow(f.blocks[at], [], i, f.blocks[at].term, base', end);
  }

  lemma NoPhisBelow(base: Label, next: Id)
    ensures PhisBelow([], base, next)
  {
  }

  // ------------------------------------------------------- where instructions end up

  /** The position before the split of what is at a position after it. */
  function Before(l: Label, k: nat, at: Label, i: nat, base: Label): (r: (Label, nat))
  {
    if l == base then (at, i + 1 + k) else (l, k)
  }

  lemma FreshAbove(body: seq<Instr>, k: nat, next: Id, end: Id)
    requires Fresh(body, next, end) && k < |body|
    ensures body[k].id >= next
  {
    hide InstrBelow;
  }

  /** Everything below `next` in the result was there before. */
  lemma SitsBefore(f: Function, at: Label, i: nat, base: Label, next: Id, bounds: Bounds, l: Label, k: nat, id: Id)
    requires Splittable(f, at, i, base, next) && Sits(Split(f, at, i, base, next, bounds), l, k, id) && id < next
    ensures var (l0, k0) := Before(l, k, at, i, base);
            Sits(f, l0, k0, id) && f.blocks[l0].body[k0] == Split(f, at, i, base, next, bounds).blocks[l].body[k]
    ensures l == at ==> k <= i
  {
    hide BlockBelow, IsChecked, Checks, Split, AfterSplit, Chain, DeadCheck, ChainNext, Fresh, RenamePhis;
    var f', ins := Split(f, at, i, base, next, bounds), f.blocks[at].body[i];
    BlockOrigins(f, at, i, base, next, bounds);
    InsertedFresh(f, at, i, base, next, bounds);
    AtBelow(f, at, i, base, next);
    var chain := Chain(Checks(ins, bounds), base + 1, next, base);
    var end := AfterSplit(Checks(ins, bounds), ins.id, bounds, next);
    if l in chain && f'.blocks[l] == chain[l] {
      FreshAbove(chain[l].body, k, next, end);
    } else if l == base + 8 && f'.blocks[l] == DeadCheck(ins, bounds, base, ChainNext(Checks(ins, bounds), next)) {
      FreshAbove(f'.blocks[l].body, k, next, end);
    }
  }

  /** No instruction is lost. */
  lemma SitsAfter(f: Function, at: Label, i: nat, base: Label, next: Id, bounds: Bounds, l: Label, k: nat, id: Id) returns (l': Label, k': nat)
    requires Splittable(f, at, i, base, next) && Sits(f, l, k, id)
    ensures Sits(Split(f, at, i, base, next, bounds), l', k', id)
    ensures Split(f, at, i, base, next, bounds).blocks[l'].body[k'] == f.blocks[l].body[k]
  {
    hide BlockBelow, IsChecked, Checks, Split, Chain, RenamePhis;
    SplitBlocks(f, at, i, base, next, bounds);
    if l != at {
      l', k' := l, k;
    } else if k <= i {
      l', k' := at, k;
    } else {
      l', k' := base, k - i - 1;
    }
  }

  /** Values below `next` are defined in one place. */
  ghost predicate Unique(f: Function, next: Id)
  {
    forall l, k: nat, l', k': nat, id: nat :: Sits(f, l, k, id) && Sits(f, l', k', id) && id < next ==> l == l' && k == k'
  }

  ghost predicate Ordered(f: Function)
  {
    forall l :: l in f.blocks ==> l in f.order
  }

  ghost predicate HasInstr(f: Function, i: Instr)
  {
    exists l, k: nat :: Sits(f, l, k, i.id) && f.blocks[l].body[k] == i
  }

  lemma SplitUnique(f: Function, at: Label, i: nat, base: Label, next: Id, bounds: Bounds, next0: Id)
    requires Splittable(f, at, i, base, next) && Unique(f, next0) && next0 <= next
    ensures Unique(Split(f, at, i, base, next, bounds), next0)
  {
    hide FunctionBelow, IsChecked, Split, Sits;
    var f' := Split(f, at, i, base, next, bounds);
    forall l, k: nat, l', k': nat, id: nat | Sits(f', l, k, id) && Sits(f', l', k', id) && id < next0
      ensures l == l' && k == k'
    {
      SitsBefore(f, at, i, base, next, bounds, l, k, id);
      SitsBefore(f, at, i, base, next, bounds, l', k', id);
      var p, p' := Before(l, k, at, i, base), Before(l', k', at, i, base);
      assert p.0 == p'.0 && p.1 == p'.1;
    }
  }

  lemma SplitHasInstr(f: Function, at: Label, i: nat, base: Label, next: Id, bounds: Bounds, ins: Instr)
    requires Splittable(f, at, i, base, next) && ins.id < next
    ensures HasInstr(Split(f, at, i, base, next, bounds), ins) <==> HasInstr(f, ins)
  {
    hide FunctionBelow, IsChecked, Split;
    var f' := Split(f, at, i, base, next, bounds);
    if HasInstr(f, ins) {
      var l, k: nat :| Sits(f, l, k, ins.id) && f.blocks[l].body[k] == ins;
      var l', k' := SitsAfter(f, at, i, base, next, bounds, l, k, ins.id);
    }
    if HasInstr(f', ins) {
      var l, k: nat :| Sits(f', l, k, ins.id) && f'.blocks[l].body[k] == ins;
      SitsBefore(f, at, i, base, next, bounds, l, k, ins.id);
    }
  }

  lemma {:induction false} ContOrdered(order: seq<Label>, at: Label, base: Label)
    ensures forall l :: l in order ==> l in WithCont(order, at, base)
    ensures at in order ==> base in WithCont(order, at, base)
  {
    if order != [] && order[0] != at {
      ContOrdered(order[1..], at, base);
    }
  }

  lemma SplitOrdered(f: Function, at: Label, i: nat, base: Label, next: Id, bounds: Bounds)
    requires Splittable(f, at, i, base, next) && Ordered(f)
    ensures Ordered(Split(f, at, i, base, next, bounds))
  {
    hide BlockBelow, IsChecked, Checks, Split, Chain, DeadCheck, ChainNext, RenamePhis, WithCont;
    SplitLayout(f, at, i, base, next, bounds);
    BlockOrigins(f, at, i, base, next, bounds);
    ContOrdered(f.order, at, base);
  }

  // ---------------------------------------------------------------------- the pass

  /** Closed, ordered, and with values below `next0` defined once. */
  ghost predicate WellFormed(p: Program, next0: Id)
  {
    FunctionBelow(p.f, p.base, p.next) && Unique(p.f, next0) && Ordered(p.f) && next0 <= p.next
  }

  predicate Splits(p: Program, id: Id)
  {
    var pos := Locate(p.f, p.f.order, id);
    pos.Some? && IsChecked(p.f.blocks[pos.value.0].body[pos.value.1].act)
  }

  lemma VisitSplits(p: Program, id: Id, bounds: Bounds, next0: Id)
    requires WellFormed(p, next0) && Splits(p, id)
    ensures var (at, i) := Locate(p.f, p.f.order, id).value;
            Splittable(p.f, at, i, p.base, p.next) && p.f.blocks[at].body[i].id == id &&
            Visit(p, id, bounds) == Program(Split(p.f, at, i, p.base, p.next, bounds), p.base + NEW_BLOCKS,
              AfterSplit(Checks(p.f.blocks[at].body[i], bounds), id, bounds, p.next))
    ensures id < next0 ==> OnlyAt(p.f, id, Locate(p.f, p.f.order, id).value.0, Locate(p.f, p.f.order, id).value.1)
  {
    hide FunctionBelow, IsChecked, Locate, Checks, AfterSplit;
    var (at, i) := Locate(p.f, p.f.order, id).value;
    assert Sits(p.f, at, i, id);
  }

  /** A visit keeps the function well-formed and all its instructions. */
  lemma VisitKeeps(p: Program, id: Id, bounds: Bounds, next0: Id)
    requires WellFormed(p, next0)
    ensures WellFormed(Visit(p, id, bounds), next0)
    ensures Visit(p, id, bounds).f.entry == p.f.entry && Visit(p, id, bounds).f.layout == p.f.layout && p.base <= Visit(p, id, bounds).base
    ensures forall ins: Instr :: ins.id < next0 ==> (HasInstr(Visit(p, id, bounds).f, ins) <==> HasInstr(p.f, ins))
  {
    hide FunctionBelow, IsChecked, Locate, HasInstr, Split, Unique, Ordered, Checks, AfterSplit;
    if Splits(p, id) {
      VisitSplits(p, id, bounds, next0);
      var (at, i) := Locate(p.f, p.f.order, id).value;
      SplitBelow(p.f, at, i, p.base, p.next, bounds);
      SplitUnique(p.f, at, i, p.base, p.next, bounds, next0);
      SplitOrdered(p.f, at, i, p.base, p.next, bounds);
      SplitLayout(p.f, at, i, p.base, p.next, bounds);
      forall ins: Instr | ins.id < next0
        ensures HasInstr(Visit(p, id, bounds).f, ins) <==> HasInstr(p.f, ins)
      {
        SplitHasInstr(p.f, at, i, p.base, p.next, bounds, ins);
      }
    }
  }

  // --------------------------------------------------------------- where events come from

  ghost predicate FromFunction(f: Function, trace: seq<Event>)
  {
    forall k :: 0 <= k < |trace| ==> HasInstr(f, trace[k].instr)
  }

  lemma BodyFromFunction(f: Function, file: seq<Byte>, l: Label, st: State)
    requires l in f.blocks && FromFunction(f, st.trace) && ExecBody(f.layout, file, f.blocks[l].body, st).Some?
    ensures FromFunction(f, ExecBody(f.layout, file, f.blocks[l].body, st).value.trace)
  {
    hide ExecBody;
    var body := f.blocks[l].body;
    BodyEvents(f.layout, file, body, st);
    var r, n := ExecBody(f.layout, file, body, st).value.trace, |st.trace|;
    forall k | 0 <= k < |r|
      ensures HasInstr(f, r[k].instr)
    {
      if k < n {
        assert r[k] == r[..n][k];
      } else {
        assert r[n + (k - n)].instr == body[k - n];
        assert Sits(f, l, k - n, body[k - n].id);
      }
    }
  }

  lemma {:induction false} RunFromFunction(f: Function, file: seq<Byte>, o: Outcome, n: nat)
    requires o.At? && o.st.trace == []
    ensures FromFunction(f, History(Run(f, file, o, n)))
  {
    hide ExecBody, PhiValues, CaseTarget, FromFunction;
    if n == 0 {
      assert FromFunction(f, []) by { EmptyFromFunction(f); }
    } else {
      RunFromFunction(f, file, o, n - 1);
      var p := Run(f, file, o, n - 1);
      if p.At? && !RunBlock(f, file, p).Stuck? {
        BodyFromFunction(f, file, p.block, EnterBlock(f.blocks[p.block], p.pred, p.st).value);
      } else {
        EmptyFromFunction(f);
      }
    }
  }

  lemma EmptyFromFunction(f: Function)
    ensures FromFunction(f, [])
  {
  }

  /** An instruction that a visit leaves alone can not stop the machine. */
  lemma UnsplitNeverTraps(p: Program, id: Id, next0: Id, file: seq<Byte>, o: Outcome, n: nat)
    requires WellFormed(p, next0) && !Splits(p, id) && id < next0 && o.At? && o.st.trace == []
    ensures !HasTrap(History(Run(p.f, file, o, n)), id)
  {
    hide FunctionBelow, IsChecked, Locate, MulTrap, Run;
    var t := History(Run(p.f, file, o, n));
    RunFromFunction(p.f, file, o, n);
    if k :| 0 <= k < |t| && t[k].instr.id == id && TrapEvent(t[k]) {
      assert HasInstr(p.f, t[k].instr);
      var l, j: nat :| Sits(p.f, l, j, id) && p.f.blocks[l].body[j] == t[k].instr;
      TrapIsChecked(t[k]);
    }
  }

  lemma TrapIsChecked(e: Event)
    requires TrapEvent(e)
    ensures IsChecked(e.instr.act)
  {
  }

  // ------------------------------------------------------------------ whole runs

  lemma {:induction false} TrapIsOwn(t: seq<Event>, id: Id, next: Id)
    requires id < next
    ensures HasTrap(Own(t, next), id) <==> HasTrap(t, id)
  {
    hide TrapEvent, HasTrap;
    if t != [] {
      var n := |t| - 1;
      TrapIsOwn(t[..n], id, next);
      TrapOfLast(t[..n], t[n], id);
      TrapOfLast(Own(t[..n], next), t[n], id);
      assert t == t[..n] + [t[n]];
    }
  }

  /** The same place and the same state, up to values that the original does not have. */
  predicate Agrees(o: Outcome, o': Outcome, next: Id)
  {
    match o
    case At(l, _, st) => o'.At? && o'.block == l && Same(st, o'.st, next)
    case Done(st) => o'.Done? && Same(st, o'.st, next)
    case Stuck => o'.Stuck?
  }

  ghost predicate Tracks(o: Outcome, o': Outcome, ids: seq<Id>, next: Id)
  {
    if o.Stuck? || (exists id :: id in ids && HasTrap(History(o), id)) then o'.Stuck? else Agrees(o, o', next)
  }

  lemma AgreesHistory(o: Outcome, o': Outcome, id: Id, next: Id)
    requires Agrees(o, o', next) && id < next
    ensures HasTrap(History(o), id) <==> HasTrap(History(o'), id)
  {
    hide HasTrap, Own;
    TrapIsOwn(History(o), id, next);
    TrapIsOwn(History(o'), id, next);
  }

  lemma AgreesMatch(o: Outcome, o1: Outcome, o2: Outcome, at: Label, base: Label, next: Id, next0: Id)
    requires Agrees(o, o1, next0) && Match(o1, o2, at, base, next) && next0 <= next
    ensures Agrees(o, o2, next0)
  {
    hide Same;
    if !o.Stuck? { SameTrans(o.st, o1.st, o2.st, next0, next); }
  }

  lemma TrackSplit(o: Outcome, o1: Outcome, o2: Outcome, ids: seq<Id>, id: Id, at: Label, base: Label, next: Id, next0: Id)
    requires Tracks(o, o1, ids, next0) && Follows(o1, o2, id, at, base, next) && id < next0 <= next
    ensures Tracks(o, o2, ids + [id], next0)
  {
    hide HasTrap, Agrees, Match;
    if o.Stuck? || (exists j :: j in ids && HasTrap(History(o), j)) {
      if !o.Stuck? {
        var j :| j in ids && HasTrap(History(o), j);
        assert j in ids + [id];
      }
    } else {
      AgreesHistory(o, o1, id, next0);
      StuckAgrees(o, o1, next0);
      if HasTrap(History(o), id) {
        assert id in ids + [id];
      } else {
        AgreesMatch(o, o1, o2, at, base, next, next0);
      }
    }
  }

  lemma StuckAgrees(o: Outcome, o': Outcome, next: Id)
    requires Agrees(o, o', next)
    ensures o.Stuck? <==> o'.Stuck?
  {
  }

  lemma TrackKeep(o: Outcome, o1: Outcome, ids: seq<Id>, id: Id, next0: Id)
    requires Tracks(o, o1, ids, next0) && !HasTrap(History(o1), id) && id < next0
    ensures Tracks(o, o1, ids + [id], next0)
  {
    hide HasTrap, Agrees;
    if o.Stuck? || (exists j :: j in ids && HasTrap(History(o), j)) {
      if !o.Stuck? {
        var j :| j in ids && HasTrap(History(o), j);
        assert j in ids + [id];
      }
    } else {
      AgreesHistory(o, o1, id, next0);
    }
  }

  /** A start configuration; the predecessor of the entry block is no block. */
  predicate Start(p: Program, o: Outcome)
  {
    o.At? && o.block < p.base && o.pred < p.base && o.pred !in p.f.blocks && o.st.trace == []
  }

  lemma StartMatches(p: Program, o: Outcome, at: Label)
    requires Start(p, o) && at in p.f.blocks
    ensures Match(o, o, at, p.base, p.next)
  {
    hide Same;
    SameRefl(o.st, p.next);
  }

  lemma StartKept(p: Program, id: Id, bounds: Bounds, next0: Id, o: Outcome)
    requires WellFormed(p, next0) && Start(p, o)
    ensures Start(Visit(p, id, bounds), o)
  {
    hide FunctionBelow, IsChecked, Locate, Split, Checks, AfterSplit, Unique, Ordered;
    if Splits(p, id) {
      VisitSplits(p, id, bounds, next0);
      var (at, i) := Locate(p.f, p.f.order, id).value;
      SplitBlocks(p.f, at, i, p.base, p.next, bounds);
    }
  }

  lemma {:induction false} VisitAllKeeps(p: Program, ids: seq<Id>, bounds: Bounds, o: Outcome)
    requires WellFormed(p, p.next) && Start(p, o)
    ensures WellFormed(VisitAll(p, ids, bounds), p.next) && Start(VisitAll(p, ids, bounds), o)
    ensures VisitAll(p, ids, bounds).f.entry == p.f.entry && VisitAll(p, ids, bounds).f.layout == p.f.layout
    ensures forall ins: Instr :: ins.id < p.next ==> (HasInstr(VisitAll(p, ids, bounds).f, ins) <==> HasInstr(p.f, ins))
  {
    hide WellFormed, Start, HasInstr, Visit;
    if ids != [] {
      var pre, id := ids[..|ids| - 1], ids[|ids| - 1];
      VisitAllKeeps(p, pre, bounds, o);
      VisitKeeps(VisitAll(p, pre, bounds), id, bounds, p.next);
      StartKept(VisitAll(p, pre, bounds), id, bounds, p.next, o);
    }
  }

  lemma VisitTracks(p: Program, id: Id, bounds: Bounds, next0: Id, file: seq<Byte>, o: Outcome, r: Outcome, m: nat, ids: seq<Id>) returns (m': nat)
    requires WellFormed(p, next0) && Start(p, o) && id < next0 && Tracks(r, Run(p.f, file, o, m), ids, next0)
    ensures m' >= m && Tracks(r, Run(Visit(p, id, bounds).f, file, o, m'), ids + [id], next0)
  {
    hide FunctionBelow, IsChecked, Locate, Split, Checks, AfterSplit, Unique, Ordered, Tracks, Run, OnlyAt, Follows, HasTrap, Match;
    if Splits(p, id) {
      VisitSplits(p, id, bounds, next0);
      var (at, i) := Locate(p.f, p.f.order, id).value;
      StartMatches(p, o, at);
      m' := SplitSimulates(p.f, at, i, p.base, p.next, bounds, file, o, m);
      TrackSplit(r, Run(p.f, file, o, m), Run(Visit(p, id, bounds).f, file, o, m'), ids, id, at, p.base, p.next, next0);
    } else {
      m' := m;
      UnsplitNeverTraps(p, id, next0, file, o, m);
      TrackKeep(r, Run(p.f, file, o, m), ids, id, next0);
    }
  }

  lemma {:induction false} VisitAllTracks(p: Program, ids: seq<Id>, bounds: Bounds, file: seq<Byte>, o: Outcome, n: nat) returns (m: nat)
    requires WellFormed(p, p.next) && Start(p, o) && forall k :: 0 <= k < |ids| ==> ids[k] < p.next
    ensures m >= n && Tracks(Run(p.f, file, o, n), Run(VisitAll(p, ids, bounds).f, file, o, m), ids, p.next)
  {
    hide WellFormed, Start, Visit, Tracks, Run;
    if ids == [] {
      m := n;
      TracksItself(Run(p.f, file, o, n), p.next);
    } else {
      var pre, id := ids[..|ids| - 1], ids[|ids| - 1];
      var k := VisitAllTracks(p, pre, bounds, file, o, n);
      VisitAllKeeps(p, pre, bounds, o);
      m := VisitTracks(VisitAll(p, pre, bounds), id, bounds, p.next, file, o, Run(p.f, file, o, n), k, pre);
      assert pre + [id] == ids;
    }
  }

  lemma TracksItself(o: Outcome, next: Id)
    ensures Tracks(o, o, [], next)
  {
    hide Same, HasTrap;
    if !o.Stuck? { SameRefl(o.st, next); }
  }

  // --------------------------------------------------------------- the snapshot

  function Ids(body: seq<Instr>): (r: seq<Id>)
    ensures |r| == |body| && forall k :: 0 <= k < |body| ==> r[k] == body[k].id
  {
    seq(|body|, k requires 0 <= k < |body| => body[k].id)
  }

  /** The instructions of a function, block by block. */
  function Snapshot(f: Function, order: seq<Label>): (r: seq<Id>)
  {
    if order == [] then []
    else (if order[0] in f.blocks then Ids(f.blocks[order[0]].body) else []) + Snapshot(f, order[1..])
  }

  lemma {:induction false} SnapshotMembers(f: Function, order: seq<Label>, id: Id)
    ensures id in Snapshot(f, order) <==> exists l, k: nat :: l in order && Sits(f, l, k, id)
  {
    if order != [] {
      SnapshotMembers(f, order[1..], id);
      var here := if order[0] in f.blocks then Ids(f.blocks[order[0]].body) else [];
      if id in here {
        var k :| 0 <= k < |here| && here[k] == id;
        assert Sits(f, order[0], k, id);
      }
      if l, k: nat :| l in order && Sits(f, l, k, id) {
        if l == order[0] { assert here[k] == id; } else { assert l in order[1..]; }
      }
    }
  }

  predicate Trapping(t: seq<Event>)
  {
    exists k :: 0 <= k < |t| && TrapEvent(t[k])
  }

  lemma TrappingSnapshot(f: Function, t: seq<Event>)
    requires Ordered(f) && FromFunction(f, t)
    ensures Trapping(t) <==> exists id :: id in Snapshot(f, f.order) && HasTrap(t, id)
  {
    hide TrapEvent;
    if Trapping(t) {
      var k :| 0 <= k < |t| && TrapEvent(t[k]);
      var id := t[k].instr.id;
      assert HasInstr(f, t[k].instr);
      SnapshotMembers(f, f.order, id);
      assert HasTrap(t, id);
    }
  }

  lemma SnapshotBelow(p: Program)
    requires FunctionBelow(p.f, p.base, p.next)
    ensures forall j :: 0 <= j < |Snapshot(p.f, p.f.order)| ==> Snapshot(p.f, p.f.order)[j] < p.next
  {
    hide TermLabelsBelow, PhisBelow;
    var ids := Snapshot(p.f, p.f.order);
    forall j | 0 <= j < |ids|
      ensures ids[j] < p.next
    {
      var id := ids[j];
      SnapshotMembers(p.f, p.f.order, id);
      var l, k: nat :| l in p.f.order && Sits(p.f, l, k, id);
      assert BlockBelow(p.f.blocks[l], p.base, p.next);
      assert InstrBelow(p.f.blocks[l].body[k], p.next);
    }
  }

  /** The pass as a whole preserves every run: the instrumented function reaches the same
      block with the same memory, input position and values, having executed the same
      sequence of original instructions; only a multiplication of -1 by the smallest
      integer stops it, in the check that divides the product again. */
  lemma OverflowPassPreserves(p: Program, bounds: Bounds, file: seq<Byte>, o: Outcome, n: nat) returns (m: nat)
    requires WellFormed(p, p.next) && Start(p, o)
    ensures m >= n
    ensures var r := Run(p.f, file, o, n);
            var r' := Run(VisitAll(p, Snapshot(p.f, p.f.order), bounds).f, file, o, m);
            if r.Stuck? || Trapping(r.st.trace) then r'.Stuck? else Agrees(r, r', p.next)
  {
    hide FunctionBelow, Unique, Start, Visit, Run, Snapshot, FromFunction, Trapping, Agrees, HasTrap;
    var ids := Snapshot(p.f, p.f.order);
    SnapshotBelow(p);
    StartAt(p, o);
    m := VisitAllTracks(p, ids, bounds, file, o, n);
    RunFromFunction(p.f, file, o, n);
    TrappingSnapshot(p.f, History(Run(p.f, file, o, n)));
  }

  lemma StartAt(p: Program, o: Outcome)
    requires Start(p, o)
    ensures o.At? && o.st.trace == []
  {
  }

  // ------------------------------------------------------------- what gets split

  lemma SplitsIff(p: Program, id: Id, next0: Id)
    requires WellFormed(p, next0) && id < next0
    ensures Splits(p, id) <==> exists ins: Instr :: HasInstr(p.f, ins) && ins.id == id && IsChecked(ins.act)
  {
    hide FunctionBelow, IsChecked, Locate;
    if Splits(p, id) {
      var (at, i) := Locate(p.f, p.f.order, id).value;
      assert HasInstr(p.f, p.f.blocks[at].body[i]);
    }
    if ins: Instr :| HasInstr(p.f, ins) && ins.id == id && IsChecked(ins.act) {
      var l, k: nat :| Sits(p.f, l, k, ins.id) && p.f.blocks[l].body[k] == ins;
      assert l in p.f.order;
    }
  }

  function CountChecked(p: Program, ids: seq<Id>): (n: nat)
  {
    if ids == [] then 0 else CountChecked(p, ids[..|ids| - 1]) + if Splits(p, ids[|ids| - 1]) then 1 else 0
  }

  /** Visiting the snapshot splits exactly the checked instructions of the original
      function, and never the arithmetic that the pass itself has inserted. */
  lemma {:induction false} SplitsOriginalOnly(p: Program, ids: seq<Id>, bounds: Bounds, o: Outcome)
    requires WellFormed(p, p.next) && Start(p, o) && forall k :: 0 <= k < |ids| ==> ids[k] < p.next
    ensures VisitAll(p, ids, bounds).base == p.base + NEW_BLOCKS * CountChecked(p, ids)
  {
    hide WellFormed, Start, Splits, HasInstr, IsChecked, Split, AfterSplit, Checks;
    if ids != [] {
      var pre, id := ids[..|ids| - 1], ids[|ids| - 1];
      var q := VisitAll(p, pre, bounds);
      SplitsOriginalOnly(p, pre, bounds, o);
      VisitAllKeeps(p, pre, bounds, o);
      SplitsIff(p, id, p.next);
      SplitsIff(q, id, p.next);
      VisitBase(q, id, bounds);
    }
  }

  lemma VisitBase(p: Program, id: Id, bounds: Bounds)
    ensures Visit(p, id, bounds).base == p.base + if Splits(p, id) then NEW_BLOCKS else 0
  {
    hide Split, AfterSplit, Checks, Locate, IsChecked;
  }

  /** Which instructions get split: at its turn, an instruction of the snapshot is split if
      and only if it is a checked instruction of the original function. */
  lemma SplitAtItsTurn(p: Program, ids: seq<Id>, bounds: Bounds, o: Outcome, k: nat)
    requires WellFormed(p, p.next) && Start(p, o) && k < |ids| && ids[k] < p.next
    ensures Splits(VisitAll(p, ids[..k], bounds), ids[k])
       <==> exists ins: Instr :: HasInstr(p.f, ins) && ins.id == ids[k] && IsChecked(ins.act)
    ensures Splits(VisitAll(p, ids[..k], bounds), ids[k]) <==> Splits(p, ids[k])
  {
    hide WellFormed, Start, Splits, HasInstr, IsChecked, VisitAll;
    var q := VisitAll(p, ids[..k], bounds);
    VisitAllKeeps(p, ids[..k], bounds, o);
    SplitsIff(p, ids[k], p.next);
    SplitsIff(q, ids[k], p.next);
  }

  // ------------------------------------------------- every checked instruction is checked

  /** Block `l` ends with the instruction and branches to a chain of its checks, which
      define new values only and lead to the block in front of the chain. */
  predicate ChecksAt(f: Function, ins: Instr, bounds: Bounds, next0: Id, l: Label, base: Label, next: Id)
    requires IsChecked(ins.act)
  {
    l in f.blocks && f.blocks[l].body != [] && f.blocks[l].body[|f.blocks[l].body| - 1] == ins && f.blocks[l].term == Br(base + 1) &&
    HasBlocks(f, Chain(Checks(ins, bounds), base + 1, next, base)) &&
    forall c :: base + 1 <= c < base + 8 ==> c in f.blocks && f.blocks[c].phis == [] && AllNew(f.blocks[c].body, next0)
  }

  predicate AllNew(body: seq<Instr>, next0: Id) { forall k :: 0 <= k < |body| ==> body[k].id >= next0 }

  ghost predicate EndsChecked(f: Function, ins: Instr, bounds: Bounds, next0: Id)
    requires IsChecked(ins.act)
  {
    exists l: Label, base: Label, next: Id :: ChecksAt(f, ins, bounds, next0, l, base, next)
  }

  lemma FreshIsNew(body: seq<Instr>, next: Id, end: Id, next0: Id)
    requires Fresh(body, next, end) && next0 <= next
    ensures AllNew(body, next0)
  {
    hide InstrBelow;
  }

  lemma {:induction false} ChainWithoutPhis(ts: seq<Term>, here: Label, next: Id, cont: Label)
    ensures forall l :: l in Chain(ts, here, next, cont) ==> Chain(ts, here, next, cont)[l].phis == []
  {
    hide Emit;
    if ts != [] { ChainWithoutPhis(ts[1..], here + 1, Emit(ts[0], next).next, cont); }
  }

  lemma SplitEndsChecked(f: Function, at: Label, i: nat, base: Label, next: Id, bounds: Bounds, next0: Id)
    requires Splittable(f, at, i, base, next) && next0 <= next
    ensures EndsChecked(Split(f, at, i, base, next, bounds), f.blocks[at].body[i], bounds, next0)
  {
    hide FunctionBelow, IsChecked, Checks, Split, Chain, RenamePhis, AllNew, Fresh, BlockBelow, AfterSplit, DeadCheck, ChainNext;
    var f', ins := Split(f, at, i, base, next, bounds), f.blocks[at].body[i];
    var ts := Checks(ins, bounds);
    var chain := Chain(ts, base + 1, next, base);
    SplitBlocks(f, at, i, base, next, bounds);
    InsertedFresh(f, at, i, base, next, bounds);
    ChainWithoutPhis(ts, base + 1, next, base);
    forall c | base + 1 <= c < base + 8
      ensures c in f'.blocks && f'.blocks[c].phis == [] && AllNew(f'.blocks[c].body, next0)
    {
      assert c in chain;
      FreshIsNew(chain[c].body, next, AfterSplit(ts, ins.id, bounds, next), next0);
    }
    assert ChecksAt(f', ins, bounds, next0, at, base, next);
  }

  lemma RenameWithoutPhis(b: Block, at: Label, base: Label)
    requires b.phis == []
    ensures RenameBlock(b, at, base) == b
  {
    assert RenamePhis([], at, base) == [];
  }

  /** Splitting another instruction keeps the checks of this one. */
  lemma SplitKeepsChecks(f: Function, at: Label, i: nat, base: Label, next: Id, bounds: Bounds, next0: Id, ins: Instr)
    requires Splittable(f, at, i, base, next) && f.blocks[at].body[i].id < next0
    requires IsChecked(ins.act) && ins.id != f.blocks[at].body[i].id && EndsChecked(f, ins, bounds, next0)
    ensures EndsChecked(Split(f, at, i, base, next, bounds), ins, bounds, next0)
  {
    hide IsChecked, Checks, Split, Chain, RenamePhis, BlockBelow;
    var l: Label, base': Label, next': Id :| ChecksAt(f, ins, bounds, next0, l, base', next');
    var f', n := Split(f, at, i, base, next, bounds), |f.blocks[l].body|;
    SplitBlocks(f, at, i, base, next, bounds);
    assert f.blocks[l].body[n - 1] == ins;
    forall c | base' + 1 <= c < base' + 8
      ensures c in f'.blocks && f'.blocks[c] == f.blocks[c]
    {
      assert c != at;
      RenameWithoutPhis(f.blocks[c], at, base);
    }
    var chain := Chain(Checks(ins, bounds), base' + 1, next', base');
    assert HasBlocks(f', chain);
    if l == at {
      assert f'.blocks[base].body == f.blocks[l].body[i + 1..];
      assert ChecksAt(f', ins, bounds, next0, base, base', next');
    } else {
      assert ChecksAt(f', ins, bounds, next0, l, base', next');
    }
  }

  lemma VisitChecks(p: Program, id: Id, bounds: Bounds, next0: Id, ins: Instr)
    requires WellFormed(p, next0) && IsChecked(ins.act) && ins.id < next0 && id < next0 && HasInstr(p.f, ins)
    requires ins.id == id || EndsChecked(p.f, ins, bounds, next0)
    ensures EndsChecked(Visit(p, id, bounds).f, ins, bounds, next0)
  {
    hide FunctionBelow, IsChecked, Locate, Checks, AfterSplit, Split, EndsChecked, Ordered;
    if ins.id == id { SplitsIff(p, id, next0); }
    if Splits(p, id) {
      VisitSplits(p, id, bounds, next0);
      var (at, i) := Locate(p.f, p.f.order, id).value;
      if ins.id == id {
        var l, k: nat :| Sits(p.f, l, k, ins.id) && p.f.blocks[l].body[k] == ins;
        SplitEndsChecked(p.f, at, i, p.base, p.next, bounds, next0);
      } else {
        SplitKeepsChecks(p.f, at, i, p.base, p.next, bounds, next0, ins);
      }
    }
  }

  /** After the pass every checked instruction of the snapshot ends its block and branches
      to its own chain of checks. */
  lemma {:induction false} EveryCheckedIsChecked(p: Program, ids: seq<Id>, bounds: Bounds, o: Outcome, ins: Instr)
    requires WellFormed(p, p.next) && Start(p, o) && forall k :: 0 <= k < |ids| ==> ids[k] < p.next
    requires HasInstr(p.f, ins) && ins.id in ids && IsChecked(ins.act)
    ensures EndsChecked(VisitAll(p, ids, bounds).f, ins, bounds, p.next)
  {
    hide WellFormed, Start, HasInstr, IsChecked, Visit, EndsChecked;
    var pre, id := ids[..|ids| - 1], ids[|ids| - 1];
    VisitAllKeeps(p, pre, bounds, o);
    if ins.id != id {
      assert ins.id in pre;
      EveryCheckedIsChecked(p, pre, bounds, o, ins);
    }
    VisitChecks(VisitAll(p, pre, bounds), id, bounds, p.next, ins);
  }

  /** In particular all checked instructions of the function. */
  lemma SnapshotChecks(p: Program, bounds: Bounds, o: Outcome, ins: Instr)
    requires WellFormed(p, p.next) && Start(p, o) && HasInstr(p.f, ins) && IsChecked(ins.act)
    ensures EndsChecked(VisitAll(p, Snapshot(p.f, p.f.order), bounds).f, ins, bounds, p.next)
  {
    hide FunctionBelow, Unique, Start, IsChecked, VisitAll, Snapshot, EndsChecked;
    SnapshotBelow(p);
    SnapshotMembers(p.f, p.f.order, ins.id);
    var l, k: nat :| Sits(p.f, l, k, ins.id) && p.f.blocks[l].body[k] == ins;
    assert l in p.f.order;
    EveryCheckedIsChecked(p, Snapshot(p.f, p.f.order), bounds, o, ins);
  }

  predicate Distinct<T(==)>(s: seq<T>) { forall i, j :: 0 <= i < j < |s| ==> s[i] != s[j] }

  /** Every instruction is visited once. */
  lemma {:induction false} SnapshotDistinct(f: Function, order: seq<Label>, next: Id)
    requires Unique(f, next) && Distinct(order) && forall l, k: nat, id: nat :: Sits(f, l, k, id) ==> id < next
    ensures Distinct(Snapshot(f, order))
  {
    if order != [] {
      var here, rest := if order[0] in f.blocks then Ids(f.blocks[order[0]].body) else [], Snapshot(f, order[1..]);
      SnapshotDistinct(f, order[1..], next);
      var all := here + rest;
      forall i, j | 0 <= i < j < |all|
        ensures all[i] != all[j]
      {
        if i < |here| {
          assert Sits(f, order[0], i, all[i]);
          if j < |here| {
            assert Sits(f, order[0], j, all[j]);
          } else {
            assert all[j] == rest[j - |here|];
            SnapshotMembers(f, order[1..], all[j]);
            var l, k: nat :| l in order[1..] && Sits(f, l, k, all[j]);
          }
        } else {
          assert rest[i - |here|] != rest[j - |here|];
        }
      }
    }
  }

  /** One link of the chain. */
  lemma ChainLink(ts: seq<Term>, k: nat, here: Label, next: Id, cont: Label, bs: map<Label, Block>)
    requires k < |ts|
    ensures var c, target := Emit(ts[k], next), if k == |ts| - 1 then cont else here + 1;
            bs + Chain(ts[k..], here, next, cont)
              == bs[here := Block([], c.instrs, CondBr(c.result, target, target))] + Chain(ts[k + 1..], here + 1, c.next, cont) &&
            ChainNext(ts[k..], next) == ChainNext(ts[k + 1..], c.next)
  {
    hide Emit;
    assert ts[k..][1..] == ts[k + 1..];
  }

  function CutInTwo(f: Function, at: Label, i: nat, base: Label): (r: Function)
    requires at in f.blocks && i < |f.blocks[at].body|
  {
    var kept := map l | l in f.blocks :: RenameBlock(f.blocks[l], at, base);
    Function(f.layout, f.entry, NewOrder(f.order, at, base), kept[at := Head(f, at, i, base)][base := Cont(f, at, i)])
  }

  lemma SplitByParts(f: Function, at: Label, i: nat, base: Label, next: Id, bounds: Bounds)
    requires at in f.blocks && i < |f.blocks[at].body| && IsChecked(f.blocks[at].body[i].act)
    ensures var cut, ins := CutInTwo(f, at, i, base), f.blocks[at].body[i];
            var ts := Checks(ins, bounds);
            var blocks := cut.blocks + Chain(ts, base + 1, next, base);
            Split(f, at, i, base, next, bounds) == cut.(blocks := blocks[base + 8 := DeadCheck(ins, bounds, base, ChainNext(ts, next))])
  {
    hide Emit, Chain, ChainNext, IsChecked, Checks, BoundCheck, RenameBlock, RenamePhis, NewOrder;
  }

  /** The checker as the driver runs it: list first, then visit and change in place. */
  class Checker {
    var f: Function
    var base: Label
    var next: Id

    function Current(): (p: Program)
      reads this
    {
      Program(f, base, next)
    }

    constructor (p: Program)
      ensures Current() == p
    {
      f, base, next := p.f, p.base, p.next;
    }

    /** One check block: its code, then a branch to the same block either way. */
    method AddCheck(t: Term, here: Label, target: Label)
      modifies this`f, this`next
      ensures var c := Emit(t, old(next));
              f == old(f).(blocks := old(f.blocks)[here := Block([], c.instrs, CondBr(c.result, target, target))]) && next == c.next
    {
      var c := Emit(t, next);
      f := f.(blocks := f.blocks[here := Block([], c.instrs, CondBr(c.result, target, target))]);
      next := c.next;
    }

    method AddChain(ts: seq<Term>, here: Label, cont: Label)
      modifies this`f, this`next
      ensures f == old(f).(blocks := old(f.blocks) + Chain(ts, here, old(next), cont))
      ensures next == ChainNext(ts, old(next))
    {
      hide Emit, Chain, ChainNext;
      assert ts[0..] == ts;
      for k := 0 to |ts|
        invariant f == old(f).(blocks := f.blocks)
        invariant f.blocks + Chain(ts[k..], here + k, next, cont) == old(f.blocks) + Chain(ts, here, old(next), cont)
        invariant ChainNext(ts[k..], next) == ChainNext(ts, old(next))
      {
        ChainLink(ts, k, here + k, next, cont, f.blocks);
        AddCheck(ts[k], here + k, if k == |ts| - 1 then cont else here + k + 1);
      }
      ChainEnds(here + |ts|, next, cont);
      assert ts[|ts|..] == [];
      assert f.blocks + map[] == f.blocks;
    }

    /** Cuts the block in two and lets the first half branch to the checks. */
    method SplitBlock(at: Label, i: nat)
      requires at in f.blocks && i < |f.blocks[at].body|
      modifies this`f
      ensures f == CutInTwo(old(f), at, i, base)
    {
      var b := f.blocks[at];
      var kept := map l | l in f.blocks :: RenameBlock(f.blocks[l], at, base);
      f := Function(f.layout, f.entry, NewOrder(f.order, at, base),
                    kept[at := Head(f, at, i, base)][base := Cont(f, at, i)]);
    }

    /** Splits the block behind a checked operation and hangs the checks in between. */
    method VisitInstruction(id: Id, bounds: Bounds)
      modifies this
      ensures Current() == Visit(old(Current()), id, bounds)
    {
      hide Emit, Chain, ChainNext, Locate, IsChecked, Checks, CutInTwo, Split, BoundCheck;
      var pos := Locate(f, f.order, id);
      if pos.None? || !IsChecked(f.blocks[pos.value.0].body[pos.value.1].act) {
        return;
      }
      var (at, i) := pos.value;
      var ts := Checks(f.blocks[at].body[i], bounds);
      SplitByParts(f, at, i, base, next, bounds);
      SplitBlock(at, i);
      AddChain(ts, base + 1, base);
      AddCheck(BoundCheck(ULT, id, bounds.min), base + 8, base + 6);
      base := base + NEW_BLOCKS;
    }

    /** Lists all instructions, then visits them; what is inserted meanwhile is not listed. */
    method RunOnFunction(bounds: Bounds)
      modifies this
      ensures Current() == VisitAll(old(Current()), Snapshot(old(f), old(f).order), bounds)
    {
      hide Visit;
      var all: seq<Id> := [];
      var order, n := f.order, |f.order|;
      assert order[0..] == order;
      for b := 0 to n
        invariant Current() == old(Current())
        invariant all + Snapshot(f, order[b..]) == Snapshot(f, order)
      {
        assert order[b..][1..] == order[b + 1..];
        if order[b] in f.blocks {
          ghost var before := all;
          var body := f.blocks[order[b]].body;
          for k := 0 to |body|
            invariant Current() == old(Current())
            invariant all == before + Ids(body)[..k]
          {
            all := all + [body[k].id];
          }
          assert Ids(body)[..|body|] == Ids(body);
        }
      }
      assert all == Snapshot(f, order);
      for k := 0 to |all|
        invariant Current() == VisitAll(old(Current()), all[..k], bounds)
      {
        VisitInstruction(all[k], bounds);
        assert all[..k + 1][..k] == all[..k];
      }
      assert all[..|all|] == all;
    }
  }

  lemma ChainEnds(here: Label, next: Id, cont: Label)
    ensures Chain([], here, next, cont) == map[] && ChainNext([], next) == next
  {
  }
}
