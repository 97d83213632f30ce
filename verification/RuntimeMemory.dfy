/** The runtime's memory operations on paged shadow memory. Each one is proved
    to do to the flat map what `ShadowMaps` specifies. */
module RuntimeMemory {
  import opened Exprs
  import opened ShadowMaps
  import opened ShadowPages

  lemma SamePage(a: nat, x: nat, b: nat)
    requires a <= x <= b && PageStart(a) == PageStart(b)
    ensures PageStart(x) == PageStart(a)
  {
    hide PageStart;
  }

  lemma ConcreteInMissingPage(memory: ShadowMemory, addr: nat, nbytes: nat)
    requires memory.Valid()
    requires PageStart(addr) == PageStart(addr + nbytes) && PageStart(addr) !in memory.pages
    ensures forall x: nat :: addr <= x < addr + nbytes ==> memory.At(x) == None
  {
    forall x: nat | addr <= x < addr + nbytes
      ensures memory.At(x) == None
    {
      SamePage(addr, x, addr + nbytes);
    }
  }

  /** `std::all_of` over the range, with the shortcut for a range inside one missing page. */
  method IsConcrete(memory: ShadowMemory, addr: nat, nbytes: nat) returns (b: bool)
    requires memory.Valid()
    ensures b <==> Concrete(memory.Flat(), addr, nbytes)
  {
    hide ShadowMemory.At, ShadowMemory.Flat, PageStart, PageOffset;
    if PageStart(addr) == PageStart(addr + nbytes) && PageStart(addr) !in memory.pages {
      ConcreteInMissingPage(memory, addr, nbytes);
      return true;
    }
    var it := new ReadShadowIterator(memory, addr);
    var i := 0;
    while i < nbytes
      invariant 0 <= i <= nbytes && it.Valid() && fresh(it) && it.memory == memory && it.address == addr + i
      invariant it.page == null ==> PageStart(addr + i) !in memory.pages
      invariant forall x: nat :: addr <= x < addr + i ==> memory.At(x) == None
    {
      var e := it.Deref();
      if e.Some? {
        return false;
      }
      if it.page == null {
        memory.MissingPage(addr + i);
      }
      it.Increment();
      i := i + 1;
    }
    return true;
  }

  // --------------------------------------------------------- moving shadows

  function Lookup(m: ShadowMap, a: nat): (e: SymExpr)
  {
    if a in m then Some(m[a]) else None
  }

  /** The bytes `lo .. hi` already hold what was at the source; the rest is untouched. */
  ghost predicate Moved(memory: ShadowMemory, before: ShadowMap, dest: nat, src: nat, lo: nat, hi: nat)
    requires memory.Valid() && dest <= lo
    reads memory, memory.repr
  {
    forall a: nat :: memory.At(a) == Lookup(before, if lo <= a < hi then src + (a - dest) else a)
  }

  /** Bytes that a cached null still has to answer for were null from the start. */
  ghost predicate StaleNullIsHarmless(it: ReadShadowIterator, before: ShadowMap, lo: nat, hi: nat)
    reads it
  {
    it.page == null ==>
      forall x: nat :: lo <= x < hi && PageStart(x) == PageStart(it.address) ==> Lookup(before, x) == None
  }

  ghost predicate Walking(memory: ShadowMemory, first: ReadShadowIterator, result: WriteShadowIterator)
    reads memory, first, result
  {
    first.memory == memory && result.memory == memory && first.Valid() && result.Valid()
  }

  /** A refreshed null is up to date for everything the copy has not overwritten. */
  lemma FreshNullIsHarmless(memory: ShadowMemory, it: ReadShadowIterator, before: ShadowMap,
                            dest: nat, src: nat, lo: nat, hi: nat, from: nat, to: nat)
    requires memory.Valid() && dest <= lo && Moved(memory, before, dest, src, lo, hi)
    requires it.page == null ==> PageStart(it.address) !in memory.pages
    requires to <= lo || hi <= from
    ensures StaleNullIsHarmless(it, before, from, to)
  {
    if it.page == null {
      forall x: nat | from <= x < to && PageStart(x) == PageStart(it.address)
        ensures Lookup(before, x) == None
      {
        assert memory.At(x) == None;
      }
    }
  }

  lemma MoveDone(memory: ShadowMemory, before: ShadowMap, dest: nat, src: nat, length: nat)
    requires memory.Valid() && Moved(memory, before, dest, src, dest, dest + length)
    ensures memory.Flat() == Move(before, dest, src, length)
  {
    hide ShadowMemory.At;
    var m := Move(before, dest, src, length);
    forall a: nat
      ensures Lookup(m, a) == memory.At(a)
    {
      assert memory.At(a) == Lookup(before, Origin(a, dest, src, length));
    }
    assert forall a: nat {:trigger memory.At(a)} :: Lookup(m, a) == memory.At(a);
  }

  /** `*result = *first` */
  method CopyByte(memory: ShadowMemory, first: ReadShadowIterator, result: WriteShadowIterator,
                  ghost before: ShadowMap, ghost dest: nat, ghost src: nat, ghost lo: nat, ghost hi: nat)
    requires Walking(memory, first, result) && dest <= lo <= hi && Moved(memory, before, dest, src, lo, hi)
    requires result.address == dest + (first.address - src) && (result.address == hi || result.address == lo - 1)
    requires first.address < lo || hi <= first.address
    requires StaleNullIsHarmless(first, before, first.address, first.address + 1)
    modifies result.page
    ensures Walking(memory, first, result)
    ensures result.address == hi ==> Moved(memory, before, dest, src, lo, hi + 1)
    ensures result.address == lo - 1 && dest <= lo - 1 ==> Moved(memory, before, dest, src, lo - 1, hi)
  {
    hide ShadowMemory.At, PageStart, PageOffset;
    var e := first.Deref();
    assert e == Lookup(before, first.address);
    result.Assign(e);
  }

  /** `++first` refreshes the cached pointer exactly when it enters another page. */
  method AdvanceReader(memory: ShadowMemory, first: ReadShadowIterator,
                       ghost before: ShadowMap, ghost dest: nat, ghost src: nat, ghost hi: nat, ghost to: nat)
    requires first.memory == memory && first.Valid() && dest <= hi && Moved(memory, before, dest, src, dest, hi)
    requires to <= dest || hi <= first.address + 1
    requires StaleNullIsHarmless(first, before, first.address, to)
    modifies first
    ensures first.Valid() && first.address == old(first.address) + 1
    ensures Moved(memory, before, dest, src, dest, hi)
    ensures StaleNullIsHarmless(first, before, first.address, to)
  {
    hide ShadowMemory.At, PageStart, PageOffset;
    first.Increment();
    if PageStart(first.address) != PageStart(old(first.address)) {
      FreshNullIsHarmless(memory, first, before, dest, src, dest, hi, first.address, to);
    }
  }

  /** `*result = *first; ++first, ++result`, the increments in either order. */
  method ForwardStep(memory: ShadowMemory, first: ReadShadowIterator, result: WriteShadowIterator,
                     ghost before: ShadowMap, ghost dest: nat, ghost src: nat, ghost i: nat, ghost length: nat)
    requires Walking(memory, first, result) && i < length && (dest <= src || src + length <= dest)
    requires first.address == src + i && result.address == dest + i
    requires Moved(memory, before, dest, src, dest, dest + i)
    requires StaleNullIsHarmless(first, before, src + i, src + length)
    modifies first, result, memory, result.page
    ensures Walking(memory, first, result) && memory.repr >= old(memory.repr) && fresh(memory.repr - old(memory.repr))
    ensures first.address == src + i + 1 && result.address == dest + i + 1
    ensures Moved(memory, before, dest, src, dest, dest + i + 1)
    ensures StaleNullIsHarmless(first, before, src + i + 1, src + length)
  {
    hide ShadowMemory.At, PageStart, PageOffset;
    CopyByte(memory, first, result, before, dest, src, dest, dest + i);
    if * {
      result.Increment();
      AdvanceReader(memory, first, before, dest, src, dest + i + 1, src + length);
    } else {
      AdvanceReader(memory, first, before, dest, src, dest + i + 1, src + length);
      result.Increment();
    }
  }

  /** Create the reading and the writing iterator, before anything has moved. */
  method BeginCopy(memory: ShadowMemory, readAt: nat, writeAt: nat, ghost dest: nat, ghost src: nat,
                   ghost mark: nat, ghost lo: nat, ghost hi: nat)
    returns (first: ReadShadowIterator, result: WriteShadowIterator)
    requires memory.Valid() && dest <= mark
    modifies memory
    ensures Walking(memory, first, result) && fresh(first) && fresh(result)
    ensures first.address == readAt && result.address == writeAt
    ensures memory.repr >= old(memory.repr) && fresh(memory.repr - old(memory.repr))
    ensures Moved(memory, old(memory.Flat()), dest, src, mark, mark)
    ensures StaleNullIsHarmless(first, old(memory.Flat()), lo, hi)
  {
    hide ShadowMemory.At, PageStart, PageOffset;
    ghost var before := memory.Flat();
    first := new ReadShadowIterator(memory, readAt);
    assert Moved(memory, before, dest, src, mark, mark);
    if hi <= mark {
      FreshNullIsHarmless(memory, first, before, dest, src, mark, mark, lo, hi);
    } else {
      FreshNullIsHarmless(memory, first, before, dest, src, mark, mark, mark, hi);
      FreshNullIsHarmless(memory, first, before, dest, src, mark, mark, lo, mark);
    }
    result := new WriteShadowIterator(memory, writeAt);
  }

  /** `std::copy` between shadows. */
  method CopyForward(memory: ShadowMemory, dest: nat, src: nat, length: nat)
    requires memory.Valid()
    requires dest <= src || src + length <= dest
    modifies memory, memory.repr
    ensures memory.Valid() && memory.repr >= old(memory.repr) && fresh(memory.repr - old(memory.repr))
    ensures memory.Flat() == Move(old(memory.Flat()), dest, src, length)
  {
    hide ShadowMemory.At, ShadowMemory.Flat, PageStart, PageOffset, Moved, StaleNullIsHarmless, Move;
    ghost var before := memory.Flat();
    var first, result := BeginCopy(memory, src, dest, dest, src, dest, src, src + length);
    var i := 0;
    while first.address != src + length
      invariant 0 <= i <= length && Walking(memory, first, result) && fresh(first) && fresh(result)
      invariant first.address == src + i && result.address == dest + i
      invariant memory.repr >= old(memory.repr) && fresh(memory.repr - old(memory.repr))
      invariant Moved(memory, before, dest, src, dest, dest + i)
      invariant StaleNullIsHarmless(first, before, src + i, src + length)
      decreases length - i
    {
      ForwardStep(memory, first, result, before, dest, src, i, length);
      i := i + 1;
    }
    MoveDone(memory, before, dest, src, length);
  }

  /** `--first` */
  method RetreatReader(memory: ShadowMemory, first: ReadShadowIterator,
                       ghost before: ShadowMap, ghost dest: nat, ghost src: nat, ghost lo: nat, ghost hi: nat)
    requires first.memory == memory && first.Valid() && first.address > 0
    requires dest <= lo && src <= first.address <= lo && Moved(memory, before, dest, src, lo, hi)
    requires StaleNullIsHarmless(first, before, src, first.address)
    modifies first
    ensures first.Valid() && first.address == old(first.address) - 1
    ensures Moved(memory, before, dest, src, lo, hi)
    ensures StaleNullIsHarmless(first, before, src, first.address + 1)
  {
    hide ShadowMemory.At, PageStart, PageOffset;
    first.Decrement();
    if PageStart(first.address) != PageStart(old(first.address)) {
      FreshNullIsHarmless(memory, first, before, dest, src, lo, hi, src, first.address + 1);
    }
  }

  /** `--first, --result` in either order, then `*result = *first`. */
  method BackwardStep(memory: ShadowMemory, first: ReadShadowIterator, result: WriteShadowIterator,
                      ghost before: ShadowMap, ghost dest: nat, ghost src: nat, ghost i: nat, ghost length: nat)
    requires Walking(memory, first, result) && 0 < i <= length && src < dest
    requires first.address == src + i && result.address == dest + i
    requires Moved(memory, before, dest, src, dest + i, dest + length)
    requires StaleNullIsHarmless(first, before, src, src + i)
    modifies first, result, memory, memory.repr
    ensures Walking(memory, first, result) && memory.repr >= old(memory.repr) && fresh(memory.repr - old(memory.repr))
    ensures first.address == src + i - 1 && result.address == dest + i - 1
    ensures Moved(memory, before, dest, src, dest + i - 1, dest + length)
    ensures StaleNullIsHarmless(first, before, src, src + i - 1)
  {
    hide ShadowMemory.At, PageStart, PageOffset;
    if * {
      result.Decrement();
      RetreatReader(memory, first, before, dest, src, dest + i, dest + length);
    } else {
      RetreatReader(memory, first, before, dest, src, dest + i, dest + length);
      result.Decrement();
    }
    CopyByte(memory, first, result, before, dest, src, dest + i, dest + length);
  }

  /** `std::copy_backward` between shadows. */
  method CopyBackward(memory: ShadowMemory, dest: nat, src: nat, length: nat)
    requires memory.Valid() && src < dest
    modifies memory, memory.repr
    ensures memory.Valid() && memory.repr >= old(memory.repr) && fresh(memory.repr - old(memory.repr))
    ensures memory.Flat() == Move(old(memory.Flat()), dest, src, length)
  {
    hide ShadowMemory.At, ShadowMemory.Flat, PageStart, PageOffset, Moved, StaleNullIsHarmless, Move;
    ghost var before := memory.Flat();
    var last, result := BeginCopy(memory, src + length, dest + length, dest, src, dest + length, src, src + length);
    var i := length;
    while last.address != src
      invariant 0 <= i <= length && Walking(memory, last, result) && fresh(last) && fresh(result)
      invariant last.address == src + i && result.address == dest + i
      invariant memory.repr >= old(memory.repr) && fresh(memory.repr - old(memory.repr))
      invariant Moved(memory, before, dest, src, dest + i, dest + length)
      invariant StaleNullIsHarmless(last, before, src, src + i)
      decreases i
    {
      BackwardStep(memory, last, result, before, dest, src, i, length);
      i := i - 1;
    }
    MoveDone(memory, before, dest, src, length);
  }

  lemma MoveConcrete(sh: ShadowMap, dest: nat, src: nat, length: nat)
    requires Concrete(sh, src, length) && Concrete(sh, dest, length)
    ensures Move(sh, dest, src, length) == sh
  {
    assert forall x :: x in sh ==> Origin(x, dest, src, length) == x;
  }

  /** `_sym_memmove`: a simultaneous copy for all ranges, overlapping or not, over pages
      that exist, that do not, and that come into being while the copy runs. */
  method MemMove(memory: ShadowMemory, dest: nat, src: nat, length: nat)
    requires memory.Valid()
    modifies memory, memory.repr
    ensures memory.Valid() && memory.repr >= old(memory.repr) && fresh(memory.repr - old(memory.repr))
    ensures memory.Flat() == Move(old(memory.Flat()), dest, src, length)
  {
    hide ShadowMemory.At, ShadowMemory.Flat, Move, Concrete;
    var srcConcrete := IsConcrete(memory, src, length);
    if srcConcrete {
      var destConcrete := IsConcrete(memory, dest, length);
      if destConcrete {
        MoveConcrete(memory.Flat(), dest, src, length);
        return;
      }
    }
    if dest > src {
      CopyBackward(memory, dest, src, length);
    } else {
      CopyForward(memory, dest, src, length);
    }
  }

  /** `_sym_memcpy`: the same for ranges that the C library allows. */
  method MemCopy(memory: ShadowMemory, dest: nat, src: nat, length: nat)
    requires memory.Valid()
    requires dest + length <= src || src + length <= dest || dest == src
    modifies memory, memory.repr
    ensures memory.Valid() && memory.repr >= old(memory.repr) && fresh(memory.repr - old(memory.repr))
    ensures memory.Flat() == Move(old(memory.Flat()), dest, src, length)
  {
    hide ShadowMemory.At, ShadowMemory.Flat, Move, Concrete;
    var srcConcrete := IsConcrete(memory, src, length);
    if srcConcrete {
      var destConcrete := IsConcrete(memory, dest, length);
      if destConcrete {
        MoveConcrete(memory.Flat(), dest, src, length);
        return;
      }
    }
    CopyForward(memory, dest, src, length);
  }

  // ---------------------------------------------------- filling and reading

  /** `sh` with the shadows `values` laid over it, starting at `a`. */
  function Overlay(sh: ShadowMap, a: nat, values: seq<SymExpr>): (r: ShadowMap)
    ensures forall x: nat :: Lookup(r, x) == if a <= x < a + |values| then values[x - a] else Lookup(sh, x)
  {
    map x | x in sh.Keys + Span(a, |values|) && (if a <= x < a + |values| then values[x - a].Some? else x in sh) ::
      if a <= x < a + |values| then values[x - a].value else sh[x]
  }

  ghost predicate Laid(memory: ShadowMemory, before: ShadowMap, a: nat, values: seq<SymExpr>, i: nat)
    requires memory.Valid() && i <= |values|
    reads memory, memory.repr
  {
    forall x: nat :: memory.At(x) == if a <= x < a + i then values[x - a] else Lookup(before, x)
  }

  lemma LaidDone(memory: ShadowMemory, before: ShadowMap, a: nat, values: seq<SymExpr>)
    requires memory.Valid() && Laid(memory, before, a, values, |values|)
    ensures memory.Flat() == Overlay(before, a, values)
  {
    hide ShadowMemory.At, Overlay;
    var m := Overlay(before, a, values);
    assert forall x: nat {:trigger memory.At(x)} :: Lookup(m, x) == memory.At(x);
  }

  /** `begin()` and `end()`; the latter may create a page past the range. */
  method BeginFill(memory: ShadowMemory, a: nat, length: nat, ghost values: seq<SymExpr>)
    returns (it: WriteShadowIterator, end: WriteShadowIterator)
    requires memory.Valid() && length == |values|
    modifies memory
    ensures it.memory == memory && it.Valid() && fresh(it) && it.address == a
    ensures end.address == a + length && it != end && fresh(end)
    ensures memory.repr >= old(memory.repr) && fresh(memory.repr - old(memory.repr))
    ensures Laid(memory, old(memory.Flat()), a, values, 0)
  {
    hide ShadowMemory.At, PageStart, PageOffset;
    it := new WriteShadowIterator(memory, a);
    end := new WriteShadowIterator(memory, a + length);
  }

  method FillByte(memory: ShadowMemory, it: WriteShadowIterator, e: SymExpr,
                  ghost before: ShadowMap, ghost a: nat, ghost values: seq<SymExpr>, ghost i: nat)
    requires it.memory == memory && it.Valid() && i < |values| && it.address == a + i && e == values[i]
    requires Laid(memory, before, a, values, i)
    modifies it, memory, it.page
    ensures it.Valid() && it.address == a + i + 1
    ensures memory.repr >= old(memory.repr) && fresh(memory.repr - old(memory.repr))
    ensures Laid(memory, before, a, values, i + 1)
  {
    hide ShadowMemory.At, PageStart, PageOffset;
    it.Assign(e);
    it.Increment();
  }

  /** The loops of `std::fill`, `std::generate` and the range-based `for` over a shadow. */
  method FillRange(memory: ShadowMemory, addr: nat, values: seq<SymExpr>)
    requires memory.Valid()
    modifies memory, memory.repr
    ensures memory.Valid() && memory.repr >= old(memory.repr) && fresh(memory.repr - old(memory.repr))
    ensures memory.Flat() == Overlay(old(memory.Flat()), addr, values)
  {
    hide ShadowMemory.At, ShadowMemory.Flat, PageStart, PageOffset, Overlay, Laid;
    ghost var before := memory.Flat();
    var it, end := BeginFill(memory, addr, |values|, values);
    var i := 0;
    while it.address != end.address
      invariant 0 <= i <= |values| && it.Valid() && it.memory == memory && fresh(it) && it.address == addr + i
      invariant end.address == addr + |values| && it != end
      invariant memory.repr >= old(memory.repr) && fresh(memory.repr - old(memory.repr))
      invariant Laid(memory, before, addr, values, i)
      decreases |values| - i
    {
      FillByte(memory, it, values[i], before, addr, values, i);
      i := i + 1;
    }
    LaidDone(memory, before, addr, values);
  }

  lemma OverlayIsFill(sh: ShadowMap, a: nat, n: nat, e: SymExpr)
    ensures Overlay(sh, a, seq(n, i => e)) == Fill(sh, a, n, e)
  {
  }

  lemma OverlayIsWrite(sh: ShadowMap, a: nat, n: nat, e: Expr, le: bool)
    ensures Overlay(sh, a, seq(n, i requires 0 <= i < n => Some(ByteOf(e, n, i, le)))) == Write(sh, a, n, Some(e), le)
  {
    hide ByteOf;
  }

  /** `_sym_memset` */
  method MemSet(memory: ShadowMemory, addr: nat, value: SymExpr, length: nat)
    requires memory.Valid()
    modifies memory, memory.repr
    ensures memory.Valid() && memory.repr >= old(memory.repr) && fresh(memory.repr - old(memory.repr))
    ensures memory.Flat() == Fill(old(memory.Flat()), addr, length, value)
  {
    hide ShadowMemory.At, ShadowMemory.Flat, Overlay, Fill;
    if value == None {
      var concrete := IsConcrete(memory, addr, length);
      if concrete {
        ClearConcrete(memory.Flat(), addr, length);
        return;
      }
    }
    OverlayIsFill(memory.Flat(), addr, length, value);
    FillRange(memory, addr, seq(length, i => value));
  }

  lemma ClearConcrete(sh: ShadowMap, addr: nat, length: nat)
    requires Concrete(sh, addr, length)
    ensures Fill(sh, addr, length, None) == sh && Clear(sh, addr, length) == sh
  {
  }

  /** `_sym_write_memory` */
  method WriteMemory(memory: ShadowMemory, addr: nat, length: nat, expr: SymExpr, littleEndian: bool)
    requires memory.Valid() && length >= 1
    modifies memory, memory.repr
    ensures memory.Valid() && memory.repr >= old(memory.repr) && fresh(memory.repr - old(memory.repr))
    ensures memory.Flat() == Write(old(memory.Flat()), addr, length, expr, littleEndian)
  {
    hide ShadowMemory.At, ShadowMemory.Flat, Overlay, Fill, Clear, ByteOf;
    if expr == None {
      var concrete := IsConcrete(memory, addr, length);
      if concrete {
        ClearConcrete(memory.Flat(), addr, length);
        return;
      }
      OverlayIsClear(memory.Flat(), addr, length);
      FillRange(memory, addr, seq(length, i => None));
    } else {
      OverlayIsWrite(memory.Flat(), addr, length, expr.value, littleEndian);
      FillRange(memory, addr, seq(length, i requires 0 <= i < length => Some(ByteOf(expr.value, length, i, littleEndian))));
    }
  }

  lemma OverlayIsClear(sh: ShadowMap, a: nat, n: nat)
    ensures Overlay(sh, a, seq(n, i => None)) == Clear(sh, a, n)
  {
  }

  /** `*it` of the non-null iterator. */
  method NonNullDeref(memory: ShadowMemory, mem: Memory, it: ReadShadowIterator) returns (e: Expr)
    requires it.memory == memory && it.Valid() && it.address in mem
    requires it.page == null ==> PageStart(it.address) !in memory.pages
    ensures e == ByteExpr(memory.Flat(), mem, it.address)
  {
    hide ShadowMemory.Flat, PageStart, PageOffset;
    var shadow := it.Deref();
    e := if shadow.Some? then shadow.value else Const(mem[it.address], 8);
  }

  /** `_sym_read_memory`: `std::accumulate` over the non-null view of the range. */
  method ReadMemory(memory: ShadowMemory, mem: Memory, addr: nat, length: nat, littleEndian: bool) returns (result: SymExpr)
    requires memory.Valid() && length >= 1 && Backed(mem, addr, length)
    ensures result == Read(memory.Flat(), mem, addr, length, littleEndian)
  {
    hide ShadowMemory.At, ShadowMemory.Flat, PageStart, PageOffset, Concrete, Concat, ByteExpr;
    result := None;
    var concrete := IsConcrete(memory, addr, length);
    if concrete {
      return;
    }
    var it := new ReadShadowIterator(memory, addr);
    var i := 0;
    while i < length
      invariant 0 <= i <= length && it.Valid() && fresh(it) && it.memory == memory && it.address == addr + i
      invariant it.page == null ==> PageStart(addr + i) !in memory.pages
      invariant result == if i == 0 then None else Some(Joined(memory.Flat(), mem, addr, i, littleEndian))
    {
      var byteExpr := NonNullDeref(memory, mem, it);
      if result == None {
        result := Some(byteExpr);
      } else if littleEndian {
        result := Some(Concat(byteExpr, result.value));
      } else {
        result := Some(Concat(result.value, byteExpr));
      }
      it.Increment();
      i := i + 1;
    }
  }
}
