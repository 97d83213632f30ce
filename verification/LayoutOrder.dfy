/** The overflow checker keeps the layout in order: where values were defined before they
    were used, they still are after the pass, the inserted checks included. */
module LayoutOrder {
  import opened IR
  import opened OverflowChecks
  import opened OverflowPass
  import opened OverflowSplit
  import opened OverflowRuns
  import OP = OverflowProgram
  import opened Awareness

  // ------------------------------------------------------------ parts of a layout

  lemma {:induction false} BodyIdsJoin(a: seq<Instr>, b: seq<Instr>)
    ensures BodyIds(a + b) == BodyIds(a) + BodyIds(b)
  {
    if a == [] {
      assert a + b == b;
    } else {
      assert (a + b)[1..] == a[1..] + b;
      BodyIdsJoin(a[1..], b);
    }
  }

  lemma {:induction false} BodyReadyJoin(a: seq<Instr>, b: seq<Instr>, seen: set<Id>, all: set<Id>)
    ensures BodyReady(a + b, seen, all) <==> BodyReady(a, seen, all) && BodyReady(b, seen + BodyIds(a), all)
  {
    hide Operands, OperandReady;
    if a == [] {
      assert a + b == b && seen + BodyIds(a) == seen;
    } else {
      assert (a + b)[1..] == a[1..] + b;
      BodyReadyJoin(a[1..], b, seen + {a[0].id}, all);
      assert seen + {a[0].id} + BodyIds(a[1..]) == seen + BodyIds(a);
    }
  }

  lemma {:induction false} DefinedJoin(f: Function, a: seq<Label>, b: seq<Label>)
    ensures DefinedIn(f, a + b) == DefinedIn(f, a) + DefinedIn(f, b)
  {
    hide PhiIds, BodyIds;
    if a == [] {
      assert a + b == b;
    } else {
      assert (a + b)[1..] == a[1..] + b;
      DefinedJoin(f, a[1..], b);
    }
  }

  lemma {:induction false} ReadyJoin(f: Function, a: seq<Label>, b: seq<Label>, seen: set<Id>, all: set<Id>)
    ensures Ready(f, a + b, seen, all) <==> Ready(f, a, seen, all) && Ready(f, b, seen + DefinedIn(f, a), all)
  {
    hide BlockReady, PhiIds, BodyIds;
    if a == [] {
      assert a + b == b && seen + DefinedIn(f, a) == seen;
    } else {
      assert (a + b)[1..] == a[1..] + b;
      if a[0] in f.blocks {
        var ids := PhiIds(f.blocks[a[0]].phis) + BodyIds(f.blocks[a[0]].body);
        var seen' := seen + PhiIds(f.blocks[a[0]].phis) + BodyIds(f.blocks[a[0]].body);
        ReadyJoin(f, a[1..], b, seen', all);
        assert seen' + DefinedIn(f, a[1..]) == seen + DefinedIn(f, a);
      } else {
        ReadyJoin(f, a[1..], b, seen, all);
        assert DefinedIn(f, a) == DefinedIn(f, a[1..]);
      }
    }
  }

  // ------------------------------------------------------------------- new values

  /** Among the old values nothing new is defined. */
  predicate OldOnly(all: set<Id>, all': set<Id>, next: Id) { forall id :: id in all' && id < next ==> id in all }

  lemma OperandStays(o: Operand, seen: set<Id>, all: set<Id>, all': set<Id>, next: Id)
    requires OperandBelow(o, next) && OldOnly(all, all', next) && OperandReady(o, seen, all)
    ensures OperandReady(o, seen, all')
  {
  }

  lemma {:induction false} BodyStays(body: seq<Instr>, seen: set<Id>, all: set<Id>, all': set<Id>, next: Id)
    requires BodyBelow(body, next) && OldOnly(all, all', next) && BodyReady(body, seen, all)
    ensures BodyReady(body, seen, all')
  {
    hide Operands, OperandReady, OldOnly;
    if body != [] {
      assert InstrBelow(body[0], next);
      forall k | 0 <= k < |Operands(body[0].act)|
        ensures OperandReady(Operands(body[0].act)[k], seen, all')
      {
        OperandStays(Operands(body[0].act)[k], seen, all, all', next);
      }
      BodyStays(body[1..], seen + {body[0].id}, all, all', next);
    }
  }

  lemma TermStays(t: Terminator, base: Label, seen: set<Id>, all: set<Id>, all': set<Id>, next: Id)
    requires TermLabelsBelow(t, base, next) && OldOnly(all, all', next) && TermReady(t, seen, all)
    ensures TermReady(t, seen, all')
  {
  }

  lemma {:induction false} RenamedPhiIds(phis: seq<Phi>, phis': seq<Phi>, seen: set<Id>)
    requires |phis'| == |phis| && forall k :: 0 <= k < |phis| ==> phis'[k].id == phis[k].id
    ensures PhiIds(phis') == PhiIds(phis) && (PhisReady(phis', seen) <==> PhisReady(phis, seen))
  {
    if phis != [] { RenamedPhiIds(phis[1..], phis'[1..], seen + {phis[0].id}); }
  }

  lemma RenamedIds(phis: seq<Phi>, at: Label, base: Label, seen: set<Id>)
    ensures PhiIds(RenamePhis(phis, at, base)) == PhiIds(phis) && (PhisReady(RenamePhis(phis, at, base), seen) <==> PhisReady(phis, seen))
  {
    hide RenamePhi;
    forall k | 0 <= k < |phis|
      ensures RenamePhi(phis[k], at, base).id == phis[k].id
    {
      RenameKeepsId(phis[k], at, base);
    }
    RenamedPhiIds(phis, RenamePhis(phis, at, base), seen);
  }

  lemma BlockStays(b: Block, at: Label, base: Label, next: Id, seen: set<Id>, all: set<Id>, all': set<Id>)
    requires BlockBelow(b, base, next) && OldOnly(all, all', next) && BlockReady(b, seen, all)
    ensures BlockReady(RenameBlock(b, at, base), seen, all')
    ensures PhiIds(RenameBlock(b, at, base).phis) == PhiIds(b.phis) && RenameBlock(b, at, base).body == b.body
  {
    hide BodyReady, PhisReady, TermReady, OldOnly, PhisBelow, BodyBelow, TermLabelsBelow, RenamePhis, PhiIds, BodyIds;
    RenamedIds(b.phis, at, base, seen);
    BodyStays(b.body, seen + PhiIds(b.phis), all, all', next);
    TermStays(b.term, base, seen + PhiIds(b.phis) + BodyIds(b.body), all, all', next);
  }

  /** The head of the split block and its continuation. */
  lemma HalvesStay(f: Function, at: Label, i: nat, base: Label, next: Id, seen: set<Id>, all: set<Id>, all': set<Id>)
    requires Splittable(f, at, i, base, next) && OldOnly(all, all', next) && BlockReady(f.blocks[at], seen, all)
    ensures var b, head, cont := f.blocks[at], Head(f, at, i, base), Cont(f, at, i);
            PhiIds(head.phis) == PhiIds(b.phis) && PhiIds(cont.phis) == {} && BodyIds(head.body) + BodyIds(cont.body) == BodyIds(b.body) &&
            BlockReady(head, seen, all') && BlockReady(cont, seen + PhiIds(head.phis) + BodyIds(head.body), all')
  {
    hide BodyReady, OldOnly, PhisBelow, BodyBelow, TermLabelsBelow, RenamePhis, BodyIds, PhiIds, IsChecked, OperandReady;
    var b := f.blocks[at];
    OP.AtBelow(f, at, i, base, next);
    RenamedIds(b.phis, at, base, seen);
    EmptyPhis(seen + PhiIds(b.phis) + BodyIds(b.body[..i + 1]));
    BodyStays(b.body, seen + PhiIds(b.phis), all, all', next);
    TermStays(b.term, base, seen + PhiIds(b.phis) + BodyIds(b.body), all, all', next);
    assert b.body == b.body[..i + 1] + b.body[i + 1..];
    BodyIdsJoin(b.body[..i + 1], b.body[i + 1..]);
    BodyReadyJoin(b.body[..i + 1], b.body[i + 1..], seen + PhiIds(b.phis), all');
    assert seen + PhiIds(b.phis) + BodyIds(b.body[..i + 1]) + {} == seen + PhiIds(b.phis) + BodyIds(b.body[..i + 1]);
    assert seen + PhiIds(b.phis) + BodyIds(b.body[..i + 1]) + BodyIds(b.body[i + 1..]) == seen + PhiIds(b.phis) + BodyIds(b.body);
  }

  lemma EmptyPhis(seen: set<Id>)
    ensures PhiIds([]) == {} && PhisReady([], seen)
  {
  }

  // --------------------------------------------------------------- the old blocks

  /** The layout lists blocks of the function only. */
  predicate Listed(f: Function, order: seq<Label>) { forall k :: 0 <= k < |order| ==> order[k] in f.blocks }

  lemma {:induction false} OthersStay(f: Function, at: Label, i: nat, base: Label, next: Id, bounds: Bounds, order: seq<Label>,
                                      seen: set<Id>, all: set<Id>, all': set<Id>)
    requires Splittable(f, at, i, base, next) && OldOnly(all, all', next) && Ready(f, order, seen, all) && Listed(f, order) && at !in order
    ensures Ready(Split(f, at, i, base, next, bounds), order, seen, all')
    ensures DefinedIn(Split(f, at, i, base, next, bounds), order) == DefinedIn(f, order)
  {
    hide Split, BlockReady, BlockBelow, OldOnly, IsChecked, RenameBlock, PhiIds, BodyIds, Chain, Checks, Head, Cont, HasBlocks;
    if order != [] {
      var b := f.blocks[order[0]];
      SplitBlocks(f, at, i, base, next, bounds);
      assert order[0] < base && BlockBelow(b, base, next);
      BlockStays(b, at, base, next, seen, all, all');
      OthersStay(f, at, i, base, next, bounds, order[1..], seen + PhiIds(b.phis) + BodyIds(b.body), all, all');
    }
  }

  /** A block with an instruction is laid out once. */
  lemma LaidOutOnce(f: Function, order: seq<Label>, seen: set<Id>, all: set<Id>)
    requires order != [] && order[0] in f.blocks && f.blocks[order[0]].body != [] && Ready(f, order, seen, all)
    ensures order[0] !in order[1..]
  {
    hide BodyReady, PhisReady, TermReady, PhiIds, OperandReady;
    var b := f.blocks[order[0]];
    OrderDisjoint(f, order[1..], seen + PhiIds(b.phis) + BodyIds(b.body), all);
    assert b.body[0].id in BodyIds(b.body);
    if order[0] in order[1..] { BodiesAreDefined(f, order[1..], order[0]); }
  }

  lemma {:induction false} OldBlocksStay(f: Function, at: Label, i: nat, base: Label, next: Id, bounds: Bounds, order: seq<Label>,
                                         seen: set<Id>, all: set<Id>, all': set<Id>)
    requires Splittable(f, at, i, base, next) && OldOnly(all, all', next) && Ready(f, order, seen, all) && Listed(f, order) && at in order
    ensures Ready(Split(f, at, i, base, next, bounds), WithCont(order, at, base), seen, all')
    ensures DefinedIn(Split(f, at, i, base, next, bounds), WithCont(order, at, base)) == DefinedIn(f, order)
  {
    hide Split, BlockReady, BlockBelow, OldOnly, IsChecked, RenameBlock, PhiIds, BodyIds, Chain, Checks, Head, Cont, HasBlocks;
    var b := f.blocks[order[0]];
    SplitBlocks(f, at, i, base, next, bounds);
    assert order[0] < base && BlockBelow(b, base, next);
    if order[0] == at {
      AtFirst(f, at, i, base, next, bounds, order, seen, all, all');
    } else {
      BlockStays(b, at, base, next, seen, all, all');
      OldBlocksStay(f, at, i, base, next, bounds, order[1..], seen + PhiIds(b.phis) + BodyIds(b.body), all, all');
      assert WithCont(order, at, base) == [order[0]] + WithCont(order[1..], at, base);
    }
  }

  lemma AtFirst(f: Function, at: Label, i: nat, base: Label, next: Id, bounds: Bounds, order: seq<Label>,
                seen: set<Id>, all: set<Id>, all': set<Id>)
    requires Splittable(f, at, i, base, next) && OldOnly(all, all', next) && Ready(f, order, seen, all) && Listed(f, order)
    requires order != [] && order[0] == at
    ensures Ready(Split(f, at, i, base, next, bounds), WithCont(order, at, base), seen, all')
    ensures DefinedIn(Split(f, at, i, base, next, bounds), WithCont(order, at, base)) == DefinedIn(f, order)
  {
    hide Split, BlockReady, BlockBelow, OldOnly, IsChecked, RenameBlock, PhiIds, BodyIds, Chain, Checks, Head, Cont, HasBlocks;
    var b, f', head, cont, tail := f.blocks[at], Split(f, at, i, base, next, bounds), Head(f, at, i, base), Cont(f, at, i), order[1..];
    SplitBlocks(f, at, i, base, next, bounds);
    LaidOutOnce(f, order, seen, all);
    HalvesStay(f, at, i, base, next, seen, all, all');
    OthersStay(f, at, i, base, next, bounds, tail, seen + PhiIds(b.phis) + BodyIds(b.body), all, all');
    var r := WithCont(order, at, base);
    assert r == [at, base] + tail && r[1..] == [base] + tail && r[1..][1..] == tail;
    assert seen + PhiIds(head.phis) + BodyIds(head.body) + PhiIds(cont.phis) + BodyIds(cont.body) == seen + PhiIds(b.phis) + BodyIds(b.body);
  }

  // ----------------------------------------------------------------- emitted code

  /** Old values are defined, those from `next` up to `end` are not. */
  predicate Room(seen: set<Id>, all: set<Id>, bound: Id, next: Id, end: Id)
  {
    (forall id :: id in all && id < bound ==> id in seen) && forall id :: id in seen ==> id < next || id >= end
  }

  /** Code that defines only values from `next` on and reads only what is defined. */
  predicate Emitted(c: Code, next: Id, seen: set<Id>, all: set<Id>)
  {
    BodyReady(c.instrs, seen, all) && OperandReady(c.result, seen + BodyIds(c.instrs), all) &&
    forall id :: id in BodyIds(c.instrs) ==> next <= id < c.next
  }

  lemma OneInstr(i: Instr, seen: set<Id>, all: set<Id>)
    requires i.id !in seen && forall k :: 0 <= k < |Operands(i.act)| ==> OperandReady(Operands(i.act)[k], seen, all)
    ensures BodyReady([i], seen, all) && BodyIds([i]) == {i.id}
  {
    hide Operands, OperandReady;
    assert BodyReady([], seen + {i.id}, all) && BodyIds([]) == {};
    assert [i][1..] == [];
  }

  lemma JoinEmitted(a: Code, b: Code, next: Id, seen: set<Id>, all: set<Id>)
    requires Emitted(a, next, seen, all) && next <= a.next <= b.next && Emitted(b, a.next, seen + BodyIds(a.instrs), all)
    ensures Emitted(Code(a.instrs + b.instrs, b.result, b.next), next, seen, all)
    ensures OperandReady(a.result, seen + BodyIds(a.instrs + b.instrs), all)
  {
    hide BodyReady, BodyIds;
    BodyIdsJoin(a.instrs, b.instrs);
    BodyReadyJoin(a.instrs, b.instrs, seen, all);
    assert seen + BodyIds(a.instrs) + BodyIds(b.instrs) == seen + BodyIds(a.instrs + b.instrs);
  }

  lemma LastEmitted(c: Code, act: Action, next: Id, seen: set<Id>, all: set<Id>)
    requires Emitted(c, next, seen, all) && next <= c.next && c.next !in seen
    requires forall k :: 0 <= k < |Operands(act)| ==> OperandReady(Operands(act)[k], seen + BodyIds(c.instrs), all)
    ensures Emitted(Code(c.instrs + [Instr(c.next, act)], Reg(c.next), c.next + 1), next, seen, all)
  {
    hide BodyReady, BodyIds, Operands;
    var i := Instr(c.next, act);
    OneInstr(i, seen + BodyIds(c.instrs), all);
    BodyIdsJoin(c.instrs, [i]);
    BodyReadyJoin(c.instrs, [i], seen, all);
  }

  lemma RoomAfter(seen: set<Id>, all: set<Id>, bound: Id, next: Id, mid: Id, end: Id, ids: set<Id>)
    requires Room(seen, all, bound, next, end) && next <= mid <= end && forall id :: id in ids ==> next <= id < mid
    ensures Room(seen + ids, all, bound, mid, end)
  {
  }

  lemma RoomLess(seen: set<Id>, all: set<Id>, bound: Id, next: Id, end: Id, end': Id)
    requires Room(seen, all, bound, next, end) && end' <= end
    ensures Room(seen, all, bound, next, end')
  {
  }

  /** Two operands and the instruction on their results. */
  lemma PairEmitted(ca: Code, cb: Code, act: Action, bound: Id, next: Id, seen: set<Id>, all: set<Id>)
    requires Emitted(ca, next, seen, all) && Emitted(cb, ca.next, seen + BodyIds(ca.instrs), all) && next <= ca.next <= cb.next
    requires Room(seen, all, bound, next, cb.next + 1) && Operands(act) == [ca.result, cb.result]
    ensures Emitted(LastInstr(ca, cb, act), next, seen, all)
  {
    hide BodyReady, BodyIds, OperandReady, Operands;
    JoinEmitted(ca, cb, next, seen, all);
    LastEmitted(Code(ca.instrs + cb.instrs, cb.result, cb.next), act, next, seen, all);
  }

  lemma SelectEmitted(cc: Code, ca: Code, cb: Code, bound: Id, next: Id, seen: set<Id>, all: set<Id>)
    requires Emitted(cc, next, seen, all) && Emitted(ca, cc.next, seen + BodyIds(cc.instrs), all)
    requires Emitted(cb, ca.next, seen + BodyIds(cc.instrs) + BodyIds(ca.instrs), all) && next <= cc.next <= ca.next <= cb.next
    requires Room(seen, all, bound, next, cb.next + 1)
    ensures Emitted(SelectCode(cc, ca, cb), next, seen, all)
  {
    hide BodyReady, BodyIds;
    var front := Code(cc.instrs + ca.instrs, ca.result, ca.next);
    JoinEmitted(cc, ca, next, seen, all);
    BodyIdsJoin(cc.instrs, ca.instrs);
    assert seen + BodyIds(front.instrs) == seen + BodyIds(cc.instrs) + BodyIds(ca.instrs);
    JoinEmitted(front, cb, next, seen, all);
    BodyIdsJoin(front.instrs, cb.instrs);
    var act := Select(cc.result, ca.result, cb.result);
    assert Operands(act) == [cc.result, ca.result, cb.result];
    LastEmitted(Code(front.instrs + cb.instrs, cb.result, cb.next), act, next, seen, all);
  }

  lemma {:induction false} EmitReady(t: Term, bound: Id, next: Id, seen: set<Id>, all: set<Id>)
    requires TermBelow(t, bound) && bound <= next && Room(seen, all, bound, next, Emit(t, next).next)
    ensures Emitted(Emit(t, next), next, seen, all)
    decreases t, 1
  {
    hide Emitted, Room, Operands, BodyIds, LastInstr, SelectCode;
    match t
    case Leaf(o) => LeafEmitted(o, bound, next, seen, all);
    case Op2(op, a, b, w) =>
      var ca := Emit(a, next);
      var cb := Emit(b, ca.next);
      LastNext(ca, cb, BinOp(op, ca.result, cb.result, w));
      SubReady(a, b, bound, next, seen, all);
      EmitReady(a, bound, next, seen, all);
      AfterFirst(ca, b, bound, next, seen, all);
      EmitReady(b, bound, ca.next, seen + BodyIds(ca.instrs), all);
      PairEmitted(ca, cb, BinOp(op, ca.result, cb.result, w), bound, next, seen, all);
    case Rel(p, a, b) =>
      var ca := Emit(a, next);
      var cb := Emit(b, ca.next);
      LastNext(ca, cb, ICmp(p, ca.result, cb.result));
      SubReady(a, b, bound, next, seen, all);
      EmitReady(a, bound, next, seen, all);
      AfterFirst(ca, b, bound, next, seen, all);
      EmitReady(b, bound, ca.next, seen + BodyIds(ca.instrs), all);
      PairEmitted(ca, cb, ICmp(p, ca.result, cb.result), bound, next, seen, all);
    case If(c, a, b) => IfReady(c, a, b, bound, next, seen, all);
  }

  lemma LastNext(ca: Code, cb: Code, act: Action)
    ensures LastInstr(ca, cb, act).next == cb.next + 1
    ensures act.BinOp? || act.ICmp? ==> Operands(act) == [act.a, act.b]
  {
  }

  lemma LeafEmitted(o: Operand, bound: Id, next: Id, seen: set<Id>, all: set<Id>)
    requires OperandBelow(o, bound) && Room(seen, all, bound, next, next)
    ensures Emitted(Emit(Leaf(o), next), next, seen, all)
  {
    assert BodyIds([]) == {};
  }

  lemma SubReady(a: Term, b: Term, bound: Id, next: Id, seen: set<Id>, all: set<Id>)
    requires Room(seen, all, bound, next, Emit(b, Emit(a, next).next).next + 1)
    ensures Room(seen, all, bound, next, Emit(a, next).next)
  {
    hide Emit;
  }

  /** There is room for a second term behind the first one. */
  lemma AfterFirst(ca: Code, b: Term, bound: Id, next: Id, seen: set<Id>, all: set<Id>)
    requires Emitted(ca, next, seen, all) && next <= ca.next && Room(seen, all, bound, next, Emit(b, ca.next).next + 1)
    ensures Room(seen + BodyIds(ca.instrs), all, bound, ca.next, Emit(b, ca.next).next)
  {
    hide Emit, BodyReady, OperandReady, BodyIds;
  }

  lemma {:induction false} IfReady(c: Term, a: Term, b: Term, bound: Id, next: Id, seen: set<Id>, all: set<Id>)
    requires TermBelow(If(c, a, b), bound) && bound <= next && Room(seen, all, bound, next, Emit(If(c, a, b), next).next)
    ensures Emitted(Emit(If(c, a, b), next), next, seen, all)
    decreases If(c, a, b), 0
  {
    hide Emitted, Operands, BodyIds;
    var cc := Emit(c, next);
    var ca := Emit(a, cc.next);
    var cb := Emit(b, ca.next);
    assert Emit(If(c, a, b), next) == SelectCode(cc, ca, cb);
    var end := cb.next + 1;
    RoomLess(seen, all, bound, next, end, cc.next);
    EmitReady(c, bound, next, seen, all);
    EmittedIds(cc, next, seen, all);
    RoomAfter(seen, all, bound, next, cc.next, end, BodyIds(cc.instrs));
    var seen1 := seen + BodyIds(cc.instrs);
    RoomLess(seen1, all, bound, cc.next, end, ca.next);
    EmitReady(a, bound, cc.next, seen1, all);
    EmittedIds(ca, cc.next, seen1, all);
    RoomAfter(seen1, all, bound, cc.next, ca.next, end, BodyIds(ca.instrs));
    RoomLess(seen1 + BodyIds(ca.instrs), all, bound, ca.next, end, cb.next);
    EmitReady(b, bound, ca.next, seen1 + BodyIds(ca.instrs), all);
    SelectEmitted(cc, ca, cb, bound, next, seen, all);
  }

  lemma EmittedIds(c: Code, next: Id, seen: set<Id>, all: set<Id>)
    requires Emitted(c, next, seen, all)
    ensures forall id :: id in BodyIds(c.instrs) ==> next <= id < c.next
  {
  }

  // ------------------------------------------------------------- the check blocks

  /** A block that computes a term and branches on it. */
  predicate IsCheck(b: Block, t: Term, next: Id)
  {
    b.phis == [] && b.body == Emit(t, next).instrs && b.term.CondBr? && b.term.cond == Emit(t, next).result
  }

  /** The terms of check blocks in layout order, each with the first value it may use. */
  predicate ChecksAt(f: Function, order: seq<Label>, ts: seq<Term>, ns: seq<Id>, bound: Id)
  {
    |order| == |ts| == |ns| &&
    forall k :: 0 <= k < |order| ==> order[k] in f.blocks && IsCheck(f.blocks[order[k]], ts[k], ns[k]) && TermBelow(ts[k], bound) && bound <= ns[k]
  }

  predicate Apart(ts: seq<Term>, ns: seq<Id>, j: nat, k: nat)
    requires j < |ts| == |ns| && k < |ns|
  {
    Emit(ts[j], ns[j]).next <= ns[k] || Emit(ts[k], ns[k]).next <= ns[j]
  }

  predicate AllApart(ts: seq<Term>, ns: seq<Id>)
    requires |ts| == |ns|
  {
    forall j, k :: 0 <= j < k < |ts| ==> Apart(ts, ns, j, k)
  }

  predicate Rooms(ts: seq<Term>, ns: seq<Id>, seen: set<Id>, all: set<Id>, bound: Id)
    requires |ts| == |ns|
  {
    forall k :: 0 <= k < |ts| ==> Room(seen, all, bound, ns[k], Emit(ts[k], ns[k]).next)
  }

  lemma CheckReady(b: Block, t: Term, next: Id, bound: Id, seen: set<Id>, all: set<Id>)
    requires IsCheck(b, t, next) && TermBelow(t, bound) && bound <= next && Room(seen, all, bound, next, Emit(t, next).next)
    ensures BlockReady(b, seen, all) && PhiIds(b.phis) == {}
    ensures forall id :: id in BodyIds(b.body) ==> next <= id < Emit(t, next).next
  {
    hide Emit, TermBelow, BodyReady, Room;
    EmitReady(t, bound, next, seen, all);
    EmptyPhis(seen);
    assert seen + {} == seen;
  }

  lemma TailApart(ts: seq<Term>, ns: seq<Id>)
    requires |ts| == |ns| && ts != [] && AllApart(ts, ns)
    ensures AllApart(ts[1..], ns[1..])
  {
    hide Emit;
    forall j, k | 0 <= j < k < |ts| - 1
      ensures Apart(ts[1..], ns[1..], j, k)
    {
      assert Apart(ts, ns, j + 1, k + 1);
    }
  }

  lemma RoomsAfter(ts: seq<Term>, ns: seq<Id>, seen: set<Id>, all: set<Id>, bound: Id, ids: set<Id>)
    requires |ts| == |ns| && ts != [] && AllApart(ts, ns) && Rooms(ts, ns, seen, all, bound)
    requires forall id :: id in ids ==> ns[0] <= id < Emit(ts[0], ns[0]).next
    ensures Rooms(ts[1..], ns[1..], seen + ids, all, bound)
  {
    hide Emit;
    forall k | 0 <= k < |ts| - 1
      ensures Room(seen + ids, all, bound, ns[1..][k], Emit(ts[1..][k], ns[1..][k]).next)
    {
      assert Room(seen, all, bound, ns[k + 1], Emit(ts[k + 1], ns[k + 1]).next) && Apart(ts, ns, 0, k + 1);
    }
  }

  lemma {:induction false} ChecksReady(f: Function, order: seq<Label>, ts: seq<Term>, ns: seq<Id>, bound: Id, seen: set<Id>, all: set<Id>)
    requires ChecksAt(f, order, ts, ns, bound) && AllApart(ts, ns) && Rooms(ts, ns, seen, all, bound)
    ensures Ready(f, order, seen, all)
  {
    hide Emit, TermBelow, BlockReady, BodyIds, PhiIds, Room, Apart;
    if order != [] {
      var b := f.blocks[order[0]];
      assert IsCheck(b, ts[0], ns[0]);
      CheckReady(b, ts[0], ns[0], bound, seen, all);
      TailApart(ts, ns);
      RoomsAfter(ts, ns, seen, all, bound, BodyIds(b.body));
      assert seen + {} + BodyIds(b.body) == seen + BodyIds(b.body);
      TailChecks(f, order, ts, ns, bound);
      ChecksReady(f, order[1..], ts[1..], ns[1..], bound, seen + BodyIds(b.body), all);
    }
  }

  lemma TailChecks(f: Function, order: seq<Label>, ts: seq<Term>, ns: seq<Id>, bound: Id)
    requires ChecksAt(f, order, ts, ns, bound) && order != []
    ensures ChecksAt(f, order[1..], ts[1..], ns[1..], bound)
  {
    hide IsCheck, TermBelow;
  }

  /** What check blocks define is new. */
  lemma {:induction false} ChecksDefine(f: Function, order: seq<Label>, ts: seq<Term>, ns: seq<Id>, bound: Id)
    requires ChecksAt(f, order, ts, ns, bound)
    ensures forall id :: id in DefinedIn(f, order) ==> bound <= id
  {
    hide Emit, TermBelow, BodyIds;
    if order != [] {
      var b := f.blocks[order[0]];
      assert IsCheck(b, ts[0], ns[0]);
      EmptyPhis({});
      EmitReady(ts[0], bound, ns[0], {}, {});
      EmittedIds(Emit(ts[0], ns[0]), ns[0], {}, {});
      TailChecks(f, order, ts, ns, bound);
      ChecksDefine(f, order[1..], ts[1..], ns[1..], bound);
    }
  }

  // ------------------------------------------------------------------ one split

  /** The first value that check `k` of a chain may use. */
  function StartOf(ts: seq<Term>, next: Id, k: nat): (n: Id)
    requires k <= |ts|
    ensures n >= next
    decreases k
  {
    if k == 0 then next else StartOf(ts[1..], Emit(ts[0], next).next, k - 1)
  }

  lemma {:induction false} ChainAt(ts: seq<Term>, here: Label, next: Id, cont: Label, k: nat)
    requires k < |ts|
    ensures here + k in Chain(ts, here, next, cont) && IsCheck(Chain(ts, here, next, cont)[here + k], ts[k], StartOf(ts, next, k))
    ensures StartOf(ts, next, k + 1) == Emit(ts[k], StartOf(ts, next, k)).next
  {
    hide Emit;
    if k > 0 {
      ChainAt(ts[1..], here + 1, Emit(ts[0], next).next, cont, k - 1);
    }
  }

  lemma {:induction false} ChainEnds(ts: seq<Term>, next: Id)
    ensures StartOf(ts, next, |ts|) == ChainNext(ts, next)
  {
    hide Emit;
    if ts != [] { ChainEnds(ts[1..], Emit(ts[0], next).next); }
  }

  /** The check blocks in layout order: the unreachable one stands before the last two. */
  function CheckOrder(base: Label): (order: seq<Label>)
  {
    [base + 1, base + 2, base + 3, base + 4, base + 5, base + 8, base + 6, base + 7]
  }

  function CheckTerms(i: Instr, bounds: Bounds): (ts: seq<Term>)
    requires IsChecked(i.act)
  {
    var c := Checks(i, bounds);
    [c[0], c[1], c[2], c[3], c[4], BoundCheck(ULT, i.id, bounds.min), c[5], c[6]]
  }

  function CheckStarts(i: Instr, bounds: Bounds, next: Id): (ns: seq<Id>)
    requires IsChecked(i.act)
  {
    var c := Checks(i, bounds);
    [StartOf(c, next, 0), StartOf(c, next, 1), StartOf(c, next, 2), StartOf(c, next, 3), StartOf(c, next, 4), ChainNext(c, next),
     StartOf(c, next, 5), StartOf(c, next, 6)]
  }

  lemma SplitChecks(f: Function, at: Label, i: nat, base: Label, next: Id, bounds: Bounds)
    requires Splittable(f, at, i, base, next)
    ensures var ins := f.blocks[at].body[i];
            ChecksAt(Split(f, at, i, base, next, bounds), CheckOrder(base), CheckTerms(ins, bounds), CheckStarts(ins, bounds, next), next)
  {
    hide Split, BlockBelow, IsChecked, Checks, BoundCheck, Chain, ChainNext, Emit, TermBelow, StartOf, Head, Cont, RenameBlock, IsCheck;
    var f', ins := Split(f, at, i, base, next, bounds), f.blocks[at].body[i];
    var c := Checks(ins, bounds);
    OP.AtBelow(f, at, i, base, next);
    OP.ChecksBelow(ins, bounds, next);
    SplitBlocks(f, at, i, base, next, bounds);
    DeadBlock(f, at, i, base, next, bounds);
    forall k | 0 <= k < 7
      ensures base + 1 + k in f'.blocks && IsCheck(f'.blocks[base + 1 + k], c[k], StartOf(c, next, k))
    {
      ChainAt(c, base + 1, next, base, k);
    }
    ChainEnds(c, next);
    assert forall k :: 0 <= k < 7 ==> base + 1 + k in f'.blocks && IsCheck(f'.blocks[base + 1 + k], c[k], StartOf(c, next, k));
    EightChecks(f', base, ins, bounds, next);
  }

  lemma DeadBlock(f: Function, at: Label, i: nat, base: Label, next: Id, bounds: Bounds)
    requires Splittable(f, at, i, base, next)
    ensures var f', ins := Split(f, at, i, base, next, bounds), f.blocks[at].body[i];
            base + 8 in f'.blocks && IsCheck(f'.blocks[base + 8], BoundCheck(ULT, ins.id, bounds.min), ChainNext(Checks(ins, bounds), next))
  {
    hide BlockBelow, IsChecked, Checks, Chain, ChainNext, Emit, BoundCheck, RenameBlock, NewOrder, RenamePhis;
  }

  lemma EightChecks(f': Function, base: Label, ins: Instr, bounds: Bounds, next: Id)
    requires IsChecked(ins.act)
    requires var c := Checks(ins, bounds);
             (forall k :: 0 <= k < 7 ==> base + 1 + k in f'.blocks && IsCheck(f'.blocks[base + 1 + k], c[k], StartOf(c, next, k)) && TermBelow(c[k], next)) &&
             base + 8 in f'.blocks && IsCheck(f'.blocks[base + 8], BoundCheck(ULT, ins.id, bounds.min), ChainNext(c, next)) &&
             TermBelow(BoundCheck(ULT, ins.id, bounds.min), next)
    ensures ChecksAt(f', CheckOrder(base), CheckTerms(ins, bounds), CheckStarts(ins, bounds, next), next)
  {
    hide IsChecked, Checks, BoundCheck, ChainNext, TermBelow, StartOf, IsCheck;
    var c, order, ts, ns := Checks(ins, bounds), CheckOrder(base), CheckTerms(ins, bounds), CheckStarts(ins, bounds, next);
    forall k | 0 <= k < 8
      ensures order[k] in f'.blocks && IsCheck(f'.blocks[order[k]], ts[k], ns[k]) && TermBelow(ts[k], next) && next <= ns[k]
    {
      if k < 5 {
        assert order[k] == base + 1 + k && ts[k] == c[k] && ns[k] == StartOf(c, next, k);
      } else if k > 5 {
        assert order[k] == base + 1 + (k - 1) && ts[k] == c[k - 1] && ns[k] == StartOf(c, next, k - 1);
      }
    }
  }

  lemma SplitApart(ins: Instr, bounds: Bounds, next: Id)
    requires IsChecked(ins.act)
    ensures AllApart(CheckTerms(ins, bounds), CheckStarts(ins, bounds, next))
  {
    hide IsChecked, Checks, BoundCheck, ChainNext, Emit, StartOf;
    var c, ts, ns := Checks(ins, bounds), CheckTerms(ins, bounds), CheckStarts(ins, bounds, next);
    forall k | 0 <= k < 7
      ensures StartOf(c, next, k) <= StartOf(c, next, k + 1) == Emit(c[k], StartOf(c, next, k)).next
    {
      ChainAt(c, 0, next, 0, k);
    }
    ChainEnds(c, next);
    assert StartOf(c, next, 0) <= StartOf(c, next, 0 + 1) == Emit(c[0], StartOf(c, next, 0)).next;
    assert StartOf(c, next, 1) <= StartOf(c, next, 1 + 1) == Emit(c[1], StartOf(c, next, 1)).next;
    assert StartOf(c, next, 2) <= StartOf(c, next, 2 + 1) == Emit(c[2], StartOf(c, next, 2)).next;
    assert StartOf(c, next, 3) <= StartOf(c, next, 3 + 1) == Emit(c[3], StartOf(c, next, 3)).next;
    assert StartOf(c, next, 4) <= StartOf(c, next, 4 + 1) == Emit(c[4], StartOf(c, next, 4)).next;
    assert StartOf(c, next, 5) <= StartOf(c, next, 5 + 1) == Emit(c[5], StartOf(c, next, 5)).next;
    assert StartOf(c, next, 6) <= StartOf(c, next, 6 + 1) == Emit(c[6], StartOf(c, next, 6)).next;
  }

  lemma {:induction false} PhiIdsBelow(phis: seq<Phi>, base: Label, next: Id)
    requires PhisBelow(phis, base, next)
    ensures forall id :: id in PhiIds(phis) ==> id < next
  {
    if phis != [] {
      assert PhiBelow(phis[0], base, next);
      PhiIdsBelow(phis[1..], base, next);
    }
  }

  lemma {:induction false} BodyIdsBelow(body: seq<Instr>, next: Id)
    requires BodyBelow(body, next)
    ensures forall id :: id in BodyIds(body) ==> id < next
  {
    if body != [] {
      assert InstrBelow(body[0], next);
      BodyIdsBelow(body[1..], next);
    }
  }

  lemma {:induction false} DefinedBelow(f: Function, base: Label, next: Id, order: seq<Label>)
    requires FunctionBelow(f, base, next)
    ensures forall id :: id in DefinedIn(f, order) ==> id < next
  {
    hide PhisBelow, BodyBelow, TermLabelsBelow, PhiIds, BodyIds;
    if order != [] {
      if order[0] in f.blocks {
        assert BlockBelow(f.blocks[order[0]], base, next);
        PhiIdsBelow(f.blocks[order[0]].phis, base, next);
        BodyIdsBelow(f.blocks[order[0]].body, next);
      }
      DefinedBelow(f, base, next, order[1..]);
    }
  }

  /** A split keeps definitions before uses. */
  lemma SplitDefsFirst(f: Function, at: Label, i: nat, base: Label, next: Id, bounds: Bounds)
    requires Splittable(f, at, i, base, next) && DefsFirst(f) && Listed(f, f.order) && at in f.order
    ensures DefsFirst(Split(f, at, i, base, next, bounds))
  {
    hide Split, FunctionBelow, IsChecked, ChecksAt, AllApart, CheckTerms, CheckStarts, Ready, DefinedIn, WithCont, Emit;
    var f', ins := Split(f, at, i, base, next, bounds), f.blocks[at].body[i];
    var kept, checks, all := WithCont(f.order, at, base), CheckOrder(base), DefinedIn(f, f.order);
    var all', ts, ns := DefinedIn(f', kept + checks), CheckTerms(ins, bounds), CheckStarts(ins, bounds, next);
    SplitLayout(f, at, i, base, next, bounds);
    assert f'.order == kept + checks;
    SplitChecks(f, at, i, base, next, bounds);
    SplitApart(ins, bounds, next);
    DefinedBelow(f, base, next, f.order);
    DefinedJoin(f', kept, checks);
    OldBlocksStay(f, at, i, base, next, bounds, f.order, {}, all, all);
    ChecksDefine(f', checks, ts, ns, next);
    OldBlocksStay(f, at, i, base, next, bounds, f.order, {}, all, all');
    StartsBelow(f', checks, ts, ns, next, all, all');
    ChecksReady(f', checks, ts, ns, next, all, all');
    ReadyJoin(f', kept, checks, {}, all');
    assert {} + all == all;
  }

  lemma StartsBelow(f: Function, order: seq<Label>, ts: seq<Term>, ns: seq<Id>, next: Id, seen: set<Id>, all: set<Id>)
    requires ChecksAt(f, order, ts, ns, next) && OldOnly(seen, all, next) && forall id :: id in seen ==> id < next
    ensures |ts| == |ns| && Rooms(ts, ns, seen, all, next)
  {
    hide Emit, IsCheck, TermBelow;
  }

  // ------------------------------------------------------------------ the whole pass

  lemma {:induction false} ContListed(order: seq<Label>, at: Label, base: Label, l: Label)
    ensures l in WithCont(order, at, base) ==> l in order || l == base
  {
    if order != [] && order[0] != at {
      ContListed(order[1..], at, base, l);
    }
  }

  lemma SplitListed(f: Function, at: Label, i: nat, base: Label, next: Id, bounds: Bounds)
    requires Splittable(f, at, i, base, next) && Listed(f, f.order)
    ensures Listed(Split(f, at, i, base, next, bounds), Split(f, at, i, base, next, bounds).order)
  {
    hide Split, FunctionBelow, IsChecked, ChecksAt, WithCont, CheckTerms, CheckStarts, Chain, Head, Cont, RenameBlock, HasBlocks;
    var f', ins := Split(f, at, i, base, next, bounds), f.blocks[at].body[i];
    SplitLayout(f, at, i, base, next, bounds);
    SplitChecks(f, at, i, base, next, bounds);
    SplitBlocks(f, at, i, base, next, bounds);
    ChecksListed(f', CheckOrder(base), CheckTerms(ins, bounds), CheckStarts(ins, bounds, next), next);
    assert f'.order == WithCont(f.order, at, base) + CheckOrder(base);
    forall k | 0 <= k < |f'.order|
      ensures f'.order[k] in f'.blocks
    {
      if k < |WithCont(f.order, at, base)| {
        ContListed(f.order, at, base, f'.order[k]);
        if f'.order[k] in f.order { LabelBelow(f, base, next, f'.order[k]); }
      } else {
        assert f'.order[k] == CheckOrder(base)[k - |WithCont(f.order, at, base)|];
      }
    }
  }

  lemma LabelBelow(f: Function, base: Label, next: Id, l: Label)
    requires FunctionBelow(f, base, next) && Listed(f, f.order) && l in f.order
    ensures l in f.blocks && l < base
  {
    hide BlockBelow;
  }

  lemma ChecksListed(f: Function, order: seq<Label>, ts: seq<Term>, ns: seq<Id>, bound: Id)
    requires ChecksAt(f, order, ts, ns, bound)
    ensures Listed(f, order)
  {
    hide IsCheck, TermBelow;
  }

  /** The overflow checker keeps definitions before uses, over the whole function. */
  lemma {:induction false} PassDefsFirst(p: OP.Program, ids: seq<Id>, bounds: Bounds, o: Outcome)
    requires OP.WellFormed(p, p.next) && OP.Start(p, o) && DefsFirst(p.f) && Listed(p.f, p.f.order)
    ensures DefsFirst(OP.VisitAll(p, ids, bounds).f) && Listed(OP.VisitAll(p, ids, bounds).f, OP.VisitAll(p, ids, bounds).f.order)
  {
    hide DefsFirst, Listed, Split, OP.Start, OP.Locate, OP.AfterSplit, Checks, IsChecked, FunctionBelow, OP.Unique;
    if ids != [] {
      var pre, id := ids[..|ids| - 1], ids[|ids| - 1];
      var q := OP.VisitAll(p, pre, bounds);
      PassDefsFirst(p, pre, bounds, o);
      OP.VisitAllKeeps(p, pre, bounds, o);
      if OP.Splits(q, id) {
        OP.VisitSplits(q, id, bounds, p.next);
        var (at, i) := OP.Locate(q.f, q.f.order, id).value;
        SplitDefsFirst(q.f, at, i, q.base, q.next, bounds);
        SplitListed(q.f, at, i, q.base, q.next, bounds);
      }
    }
  }
}
