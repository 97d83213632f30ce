/** Wrappers around C library functions that look at symbolic memory: the
    constraints they push hold of the actual input. */
module LibcWrappers {
  import opened Bits
  import opened Exprs
  import opened Builders
  import opened ShadowMaps
  import opened ShadowPages
  import opened RuntimeMemory
  import opened Describing

  // -------------------------------------------------------------- memcmp, bcmp

  function ByteEquality(sh: ShadowMap, mem: Memory, a: nat, b: nat): (e: Expr)
    requires a in mem && b in mem
  {
    Compare(Eq, ByteExpr(sh, mem, a), ByteExpr(sh, mem, b))
  }

  function AllEqual(sh: ShadowMap, mem: Memory, a: nat, b: nat, n: nat): (e: Expr)
    requires n >= 1 && Backed(mem, a, n) && Backed(mem, b, n)
  {
    var last := ByteEquality(sh, mem, a + n - 1, b + n - 1);
    if n == 1 then last else Connect(Conj, AllEqual(sh, mem, a, b, n - 1), last)
  }

  method EqualityHere(memory: ShadowMemory, mem: Memory, aIt: ReadShadowIterator, bIt: ReadShadowIterator) returns (e: Expr)
    requires Reading(memory, aIt, aIt.address) && Reading(memory, bIt, bIt.address) && aIt.address in mem && bIt.address in mem
    ensures e == ByteEquality(memory.Flat(), mem, aIt.address, bIt.address)
  {
    hide ShadowMemory.At, ShadowMemory.Flat, PageStart, PageOffset, ByteExpr;
    var x := NonNullDeref(memory, mem, aIt);
    var y := NonNullDeref(memory, mem, bIt);
    e := Compare(Eq, x, y);
  }

  /** `++aShadowIt; ++bShadowIt` */
  method Advance(memory: ShadowMemory, aIt: ReadShadowIterator, bIt: ReadShadowIterator)
    requires Reading(memory, aIt, aIt.address) && Reading(memory, bIt, bIt.address) && aIt != bIt
    modifies aIt, bIt
    ensures Reading(memory, aIt, aIt.address) && Reading(memory, bIt, bIt.address)
    ensures aIt.address == old(aIt.address) + 1 && bIt.address == old(bIt.address) + 1
  {
    hide ShadowMemory.At, PageStart, PageOffset;
    aIt.Increment();
    bIt.Increment();
  }

  method Begin(memory: ShadowMemory, a: nat) returns (it: ReadShadowIterator)
    requires memory.Valid()
    ensures fresh(it) && it.address == a && Reading(memory, it, a)
  {
    hide ShadowMemory.At, PageStart, PageOffset;
    it := new ReadShadowIterator(memory, a);
  }

  /** The loop that joins the byte equalities. */
  method CompareRegions(memory: ShadowMemory, mem: Memory, a: nat, b: nat, n: nat) returns (allEqual: Expr)
    requires memory.Valid() && Backed(mem, a, n) && Backed(mem, b, n) && n >= 1
    ensures allEqual == AllEqual(memory.Flat(), mem, a, b, n)
  {
    hide ShadowMemory.At, ShadowMemory.Flat, PageStart, PageOffset, ByteEquality, Reading;
    var aIt := Begin(memory, a);
    var bIt := Begin(memory, b);
    allEqual := EqualityHere(memory, mem, aIt, bIt);
    var i := 1;
    while i < n
      invariant 1 <= i <= n && Reading(memory, aIt, aIt.address) && Reading(memory, bIt, bIt.address)
      invariant aIt.address == a + i - 1 && bIt.address == b + i - 1
      invariant fresh(aIt) && fresh(bIt) && aIt != bIt
      invariant allEqual == AllEqual(memory.Flat(), mem, a, b, i)
    {
      Advance(memory, aIt, bIt);
      var same := EqualityHere(memory, mem, aIt, bIt);
      allEqual := Connect(Conj, allEqual, same);
      i := i + 1;
    }
  }

  /** `memcmp` and `bcmp`, which only differ in their result; nothing is pushed for
      regions without symbolic bytes. */
  method MemCmp(memory: ShadowMemory, mem: Memory, a: nat, b: nat, n: nat, result: int) returns (pushed: Option<Constraint>)
    requires memory.Valid() && Backed(mem, a, n) && Backed(mem, b, n)
    ensures var sh := memory.Flat();
            if Concrete(sh, a, n) && Concrete(sh, b, n) then pushed == None
            else n >= 1 && pushed == Some(Constraint(AllEqual(sh, mem, a, b, n), result == 0))
  {
    hide ShadowMemory.At, ShadowMemory.Flat, AllEqual, Concrete, Backed;
    var aConcrete := IsConcrete(memory, a, n);
    if aConcrete {
      var bConcrete := IsConcrete(memory, b, n);
      if bConcrete { return None; }
    }
    NothingIsConcrete(memory.Flat(), a, b, n);
    var allEqual := CompareRegions(memory, mem, a, b, n);
    pushed := Some(Constraint(allEqual, result == 0));
  }

  /** An iterator at an address, with no pointer cached only where there is no page. */
  ghost predicate Reading(memory: ShadowMemory, it: ReadShadowIterator, address: nat)
    reads memory, it
  {
    it.memory == memory && it.Valid() && it.address == address &&
    (it.page == null ==> PageStart(address) !in memory.pages)
  }

  lemma NothingIsConcrete(sh: ShadowMap, a: nat, b: nat, n: nat)
    ensures n == 0 ==> Concrete(sh, a, n) && Concrete(sh, b, n)
  {
  }

  lemma EqualityDenotes(sh: ShadowMap, mem: Memory, a: nat, b: nat, input: Input)
    requires a in mem && b in mem && Faithful(sh, mem, input)
    ensures Denotes(ByteEquality(sh, mem, a, b), Bool, FlagOf(mem[a] == mem[b]), input)
  {
    hide ByteExpr, Compare, Denotes, Holds;
    ByteExprDenotes(sh, mem, a, input);
    ByteExprDenotes(sh, mem, b, input);
    CompareDenotes(Eq, ByteExpr(sh, mem, a), mem[a], ByteExpr(sh, mem, b), mem[b], BitVec(8), input);
    HoldsEq(mem[a], mem[b], BitVec(8));
  }

  /** The conjunction says that the two regions hold the same bytes. */
  lemma {:induction false} AllEqualDenotes(sh: ShadowMap, mem: Memory, a: nat, b: nat, n: nat, input: Input)
    requires n >= 1 && Backed(mem, a, n) && Backed(mem, b, n) && Faithful(sh, mem, input)
    ensures Denotes(AllEqual(sh, mem, a, b, n), Bool, FlagOf(Load(mem, a, n) == Load(mem, b, n)), input)
  {
    hide Denotes, ByteEquality, Faithful, Connect;
    EqualityDenotes(sh, mem, a + n - 1, b + n - 1, input);
    if n == 1 {
      assert Load(mem, a, 0) == Load(mem, b, 0) == [];
      LoadsEqual(mem, a, b, n);
    } else {
      AllEqualDenotes(sh, mem, a, b, n - 1, input);
      LoadsEqual(mem, a, b, n);
      ConnectDenotes(Conj, AllEqual(sh, mem, a, b, n - 1), Load(mem, a, n - 1) == Load(mem, b, n - 1),
                     ByteEquality(sh, mem, a + n - 1, b + n - 1), mem[a + n - 1] == mem[b + n - 1], input);
    }
  }

  lemma LoadsEqual(mem: Memory, a: nat, b: nat, n: nat)
    requires n >= 1 && Backed(mem, a, n) && Backed(mem, b, n)
    ensures Load(mem, a, n) == Load(mem, b, n) <==> Load(mem, a, n - 1) == Load(mem, b, n - 1) && mem[a + n - 1] == mem[b + n - 1]
  {
    var x, y := Load(mem, a, n), Load(mem, b, n);
    assert x[..n - 1] == Load(mem, a, n - 1) && y[..n - 1] == Load(mem, b, n - 1);
    assert x == x[..n - 1] + [mem[a + n - 1]] && y == y[..n - 1] + [mem[b + n - 1]];
  }

  /** Whatever a comparison pushes evaluates to its taken flag. */
  lemma MemCmpTruthful(sh: ShadowMap, mem: Memory, a: nat, b: nat, n: nat, result: int, input: Input)
    requires n >= 1 && Backed(mem, a, n) && Backed(mem, b, n) && Faithful(sh, mem, input)
    requires result == 0 <==> Load(mem, a, n) == Load(mem, b, n)
    ensures Truthful(Constraint(AllEqual(sh, mem, a, b, n), result == 0), input)
  {
    hide Denotes, AllEqual;
    AllEqualDenotes(sh, mem, a, b, n, input);
  }

  lemma {:induction false} AllEqualSame(sh: ShadowMap, mem: Memory, mem': Memory, a: nat, b: nat, n: nat)
    requires Alike(sh, mem, mem') && n >= 1 && Backed(mem, a, n) && Backed(mem, b, n) && Backed(mem', a, n) && Backed(mem', b, n)
    ensures AllEqual(sh, mem, a, b, n) == AllEqual(sh, mem', a, b, n)
  {
    hide Compare, Connect;
    if n > 1 { AllEqualSame(sh, mem, mem', a, b, n - 1); }
  }

  /** What a comparison pushes, under any input and in any memory that differs only where
      there is a shadow: the expression says whether the regions are equal there, and the
      constraint holds if and only if they compare as they did. */
  lemma MemCmpMeans(sh: ShadowMap, mem: Memory, mem': Memory, a: nat, b: nat, n: nat, result: int, input: Input)
    requires Alike(sh, mem, mem') && n >= 1 && Backed(mem, a, n) && Backed(mem, b, n) && Backed(mem', a, n) && Backed(mem', b, n)
    requires Faithful(sh, mem', input)
    ensures Denotes(AllEqual(sh, mem, a, b, n), Bool, FlagOf(Load(mem', a, n) == Load(mem', b, n)), input)
    ensures Truthful(Constraint(AllEqual(sh, mem, a, b, n), result == 0), input) <==>
              (result == 0 <==> Load(mem', a, n) == Load(mem', b, n))
  {
    hide AllEqual, Alike, Faithful, Load;
    AllEqualSame(sh, mem, mem', a, b, n);
    AllEqualDenotes(sh, mem', a, b, n, input);
  }

  /** Where nothing is pushed, the comparison comes out the same in every such memory. */
  lemma ConcreteCompares(sh: ShadowMap, mem: Memory, mem': Memory, a: nat, b: nat, n: nat)
    requires Alike(sh, mem, mem') && Backed(mem, a, n) && Backed(mem, b, n) && Concrete(sh, a, n) && Concrete(sh, b, n)
    ensures Backed(mem', a, n) && Backed(mem', b, n)
    ensures Load(mem, a, n) == Load(mem', a, n) && Load(mem, b, n) == Load(mem', b, n)
  {
  }

  // ------------------------------------------------------------------- strchr

  /** A string of `len` bytes and its terminator. */
  predicate IsString(mem: Memory, s: nat, len: nat)
  {
    Backed(mem, s, len + 1) && mem[s + len] == 0 && forall x :: s <= x < s + len ==> mem[x] != 0
  }

  /** How far `strchr` looks: to the first `ch`, or to the terminator. */
  function Scanned(mem: Memory, s: nat, len: nat, ch: Byte, i: nat): (n: nat)
    requires IsString(mem, s, len) && i <= len
    ensures i <= n <= len
    ensures forall x :: s + i <= x < s + n ==> mem[x] != ch
    ensures n < len ==> mem[s + n] == ch
    decreases len - i
  {
    if i == len || mem[s + i] == ch then i else Scanned(mem, s, len, ch, i + 1)
  }

  function CharByte(c: nat): (b: Byte)
    ensures b == Wrap(c, 8)
  {
    Pow2Of8();
    Wrap(c, 8)
  }

  /** The expression for the character, cut to a byte. */
  function CharExpr(c: nat, cExpr: SymExpr): (e: Expr)
  {
    if cExpr.Some? then TruncTo(cExpr.value, 8) else Const(Wrap(c, 8), 8)
  }

  function Difference(sh: ShadowMap, mem: Memory, a: nat, ce: Expr): (p: Constraint)
    requires a in mem
  {
    Constraint(NotEqual(ByteExpr(sh, mem, a), ce), true)
  }

  /** `strchr` for a character pattern of 32 bits; `length` is where the search ended. */
  method StrChr(memory: ShadowMemory, mem: Memory, s: nat, length: nat, c: nat, cExpr: SymExpr) returns (pushed: seq<Constraint>)
    requires memory.Valid() && Backed(mem, s, length)
    ensures var sh := memory.Flat();
            if Concrete(sh, s, length) && cExpr == None then pushed == []
            else |pushed| == length && forall i :: 0 <= i < length ==> pushed[i] == Difference(sh, mem, s + i, CharExpr(c, cExpr))
  {
    hide ShadowMemory.At, ShadowMemory.Flat, PageStart, PageOffset, ByteExpr, Concrete, NotEqual;
    var concrete := IsConcrete(memory, s, length);
    if concrete && cExpr == None { return []; }
    var ce := if cExpr == None then Const(Wrap(c, 8), 8) else TruncTo(cExpr.value, 8);
    var it := new ReadShadowIterator(memory, s);
    pushed := [];
    for i := 0 to length
      invariant Reading(memory, it, s + i) && fresh(it) && |pushed| == i
      invariant forall k :: 0 <= k < i ==> pushed[k] == Difference(memory.Flat(), mem, s + k, ce)
    {
      var e := NonNullDeref(memory, mem, it);
      pushed := pushed + [Constraint(NotEqual(e, ce), true)];
      it.Increment();
    }
  }

  lemma CharDenotes(c: nat, cExpr: SymExpr, input: Input)
    requires Fits(c, 32) && (cExpr.Some? ==> Denotes(cExpr.value, BitVec(32), c, input))
    ensures Denotes(CharExpr(c, cExpr), BitVec(8), Wrap(c, 8), input)
  {
    hide TruncTo, Wrap, Pow2;
    if cExpr.Some? { TruncDenotes(cExpr.value, c, 32, 8, input); }
  }

  /** All constraints pushed for the bytes that were searched hold. */
  lemma StrChrTruthful(sh: ShadowMap, mem: Memory, s: nat, len: nat, c: nat, cExpr: SymExpr, i: nat, input: Input)
    requires IsString(mem, s, len) && Faithful(sh, mem, input)
    requires Fits(c, 32) && (cExpr.Some? ==> Denotes(cExpr.value, BitVec(32), c, input))
    requires i < Scanned(mem, s, len, CharByte(c), 0)
    ensures Truthful(Difference(sh, mem, s + i, CharExpr(c, cExpr)), input)
  {
    hide Denotes, ByteExpr, CharExpr, NotEqual, Wrap, Faithful, Pow2;
    CharDenotes(c, cExpr, input);
    ByteExprDenotes(sh, mem, s + i, input);
    RelationDenotes(Eq, ByteExpr(sh, mem, s + i), mem[s + i], CharExpr(c, cExpr), Wrap(c, 8), BitVec(8), input);
  }

  /** A pushed inequality, under any input and in any memory that differs only where there
      is a shadow: it says whether the byte there differs from the character there. */
  lemma DifferenceMeans(sh: ShadowMap, mem: Memory, mem': Memory, a: nat, c: nat, c': nat, cExpr: SymExpr, input: Input)
    requires Alike(sh, mem, mem') && a in mem && Faithful(sh, mem', input) && Fits(c', 32)
    requires if cExpr.Some? then Denotes(cExpr.value, BitVec(32), c', input) else c' == c
    ensures a in mem'
    ensures var p := Difference(sh, mem, a, CharExpr(c, cExpr));
            Denotes(p.e, Bool, FlagOf(mem'[a] != CharByte(c')), input) && (Truthful(p, input) <==> mem'[a] != CharByte(c'))
  {
    hide Denotes, ByteExpr, CharExpr, NotEqual, Wrap, Faithful, Pow2;
    var x, ce := ByteExpr(sh, mem, a), CharExpr(c, cExpr);
    ByteSame(sh, mem, mem', a);
    ByteExprDenotes(sh, mem', a, input);
    CharExprSame(c, c', cExpr);
    CharDenotes(c', cExpr, input);
    RelationDenotes(Eq, x, mem'[a], ce, CharByte(c'), BitVec(8), input);
    FlagTruth(NotEqual(x, ce), mem'[a] != CharByte(c'), input);
  }

  lemma FlagTruth(e: Expr, b: bool, input: Input)
    requires Denotes(e, Bool, FlagOf(b), input)
    ensures Truthful(Constraint(e, true), input) <==> b
  {
  }

  lemma ByteSame(sh: ShadowMap, mem: Memory, mem': Memory, a: nat)
    requires Alike(sh, mem, mem') && a in mem
    ensures a in mem' && ByteExpr(sh, mem, a) == ByteExpr(sh, mem', a)
  {
  }

  lemma CharExprSame(c: nat, c': nat, cExpr: SymExpr)
    requires cExpr.Some? || c == c'
    ensures CharExpr(c, cExpr) == CharExpr(c', cExpr)
  {
  }

  /** All constraints of a search hold of exactly those inputs for which none of the searched
      bytes is the character. */
  lemma StrChrMeans(sh: ShadowMap, mem: Memory, mem': Memory, s: nat, length: nat, c: nat, c': nat, cExpr: SymExpr, input: Input)
    requires Alike(sh, mem, mem') && Backed(mem, s, length) && Faithful(sh, mem', input) && Fits(c', 32)
    requires if cExpr.Some? then Denotes(cExpr.value, BitVec(32), c', input) else c' == c
    ensures Backed(mem', s, length)
    ensures (forall x :: s <= x < s + length ==> Truthful(Difference(sh, mem, x, CharExpr(c, cExpr)), input)) <==>
            (forall x :: s <= x < s + length ==> mem'[x] != CharByte(c'))
  {
    hide Denotes, Difference, CharExpr, Wrap, Faithful, Truthful;
    forall x | s <= x < s + length
      ensures x in mem' && (Truthful(Difference(sh, mem, x, CharExpr(c, cExpr)), input) <==> mem'[x] != CharByte(c'))
    {
      DifferenceMeans(sh, mem, mem', x, c, c', cExpr, input);
    }
  }

  // ------------------------------------------------------------------ strncpy

  /** The shadow after copying `copied` bytes and padding with zeros up to `n`. */
  function CopiedShadow(sh: ShadowMap, dest: nat, src: nat, copied: nat, n: nat): (r: ShadowMap)
    requires copied <= n
  {
    Clear(Move(sh, dest, src, copied), dest + copied, n - copied)
  }

  method StrNCpy(memory: ShadowMemory, dest: nat, src: nat, n: nat, srcLen: nat)
    requires memory.Valid() && (dest + n <= src || src + n <= dest)
    modifies memory, memory.repr
    ensures memory.Valid()
    ensures var copied := if srcLen < n then srcLen else n; memory.Flat() == CopiedShadow(old(memory.Flat()), dest, src, copied, n)
  {
    hide ShadowMemory.At, ShadowMemory.Flat, Move, Concrete, Fill, Clear;
    var copied := if srcLen < n then srcLen else n;
    var srcConcrete := IsConcrete(memory, src, copied);
    if srcConcrete {
      var destConcrete := IsConcrete(memory, dest, n);
      if destConcrete {
        ConcreteCopy(memory.Flat(), dest, src, copied, n);
        return;
      }
    }
    CopyForward(memory, dest, src, copied);
    if copied < n {
      ClearByFill(memory.Flat(), dest + copied, n - copied);
      FillRange(memory, dest + copied, seq(n - copied, i => None));
    } else {
      ClearNothing(memory.Flat(), dest + copied);
    }
  }

  lemma ConcreteCopy(sh: ShadowMap, dest: nat, src: nat, copied: nat, n: nat)
    requires copied <= n && Concrete(sh, src, copied) && Concrete(sh, dest, n)
    ensures CopiedShadow(sh, dest, src, copied, n) == sh
  {
    MoveConcrete(sh, dest, src, copied);
  }

  lemma ClearByFill(sh: ShadowMap, a: nat, n: nat)
    ensures Overlay(sh, a, seq(n, i => None)) == Clear(sh, a, n)
  {
    OverlayIsClear(sh, a, n);
  }

  lemma ClearNothing(sh: ShadowMap, a: nat)
    ensures Clear(sh, a, 0) == sh
  {
  }

  /** The shadow stays faithful: the copied bytes keep their expressions and the padding
      has none. */
  lemma StrNCpyFaithful(sh: ShadowMap, mem: Memory, dest: nat, src: nat, copied: nat, n: nat, input: Input)
    requires copied <= n && Backed(mem, src, copied) && Faithful(sh, mem, input)
    ensures Faithful(CopiedShadow(sh, dest, src, copied, n), Store(mem, dest, Load(mem, src, copied) + seq(n - copied, i => 0)), input)
  {
    hide Denotes, Move;
    MoveIsFaithful(sh, mem, dest, src, copied, input);
    var sh', mem' := CopiedShadow(sh, dest, src, copied, n), Store(mem, dest, Load(mem, src, copied) + seq(n - copied, i => 0));
    var moved, one := Move(sh, dest, src, copied), Store(mem, dest, Load(mem, src, copied));
    forall x | x in sh'
      ensures x in mem' && Denotes(sh'[x], BitVec(8), mem'[x], input)
    {
      assert x in moved && x in one && mem'[x] == one[x];
    }
  }

  /** Which bytes have an expression after the copy, and which one. */
  lemma StrNCpyExactly(sh: ShadowMap, dest: nat, src: nat, copied: nat, n: nat, x: nat)
    requires copied <= n
    ensures var r := CopiedShadow(sh, dest, src, copied, n);
            if dest <= x < dest + copied then (x in r <==> src + (x - dest) in sh) && (x in r ==> r[x] == sh[src + (x - dest)])
            else if dest <= x < dest + n then x !in r
            else (x in r <==> x in sh) && (x in r ==> r[x] == sh[x])
  {
    if dest <= x < dest + copied { assert Origin(x, dest, src, copied) == src + (x - dest); }
  }

  /** Memories that differ only where there is a shadow still do after the copy. */
  lemma StrNCpyAlike(sh: ShadowMap, mem: Memory, mem': Memory, dest: nat, src: nat, copied: nat, n: nat)
    requires Alike(sh, mem, mem') && copied <= n && Backed(mem, src, copied) && Backed(mem', src, copied)
    ensures var pad: seq<Byte> := seq(n - copied, i => 0);
            Alike(CopiedShadow(sh, dest, src, copied, n), Store(mem, dest, Load(mem, src, copied) + pad), Store(mem', dest, Load(mem', src, copied) + pad))
  {
    var pad: seq<Byte> := seq(n - copied, i => 0);
    var s, s' := Load(mem, src, copied) + pad, Load(mem', src, copied) + pad;
    var r := CopiedShadow(sh, dest, src, copied, n);
    forall x | x in Store(mem, dest, s) && x !in r
      ensures Store(mem, dest, s)[x] == Store(mem', dest, s')[x]
    {
      StrNCpyExactly(sh, dest, src, copied, n, x);
    }
  }
}
