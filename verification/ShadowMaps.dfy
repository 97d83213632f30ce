/** Shadow memory as a flat map from addresses to byte expressions, next to the
    concrete memory it describes. An address outside the map has a null shadow. */
module ShadowMaps {
  import opened Bits
  import opened Exprs
  import opened Builders

  type ShadowMap = map<nat, Expr>
  type Memory = map<nat, Byte>

  predicate Backed(mem: Memory, a: nat, n: nat)
  {
    forall x :: a <= x < a + n ==> x in mem
  }

  predicate Concrete(sh: ShadowMap, a: nat, n: nat)
  {
    forall x :: a <= x < a + n ==> x !in sh
  }

  /** Every shadow byte evaluates to the concrete byte at its address. */
  ghost predicate Faithful(sh: ShadowMap, mem: Memory, input: Input)
  {
    forall x :: x in sh ==> x in mem && Denotes(sh[x], BitVec(8), mem[x], input)
  }

  function Span(a: nat, n: nat): (s: set<nat>)
    ensures forall x: nat :: x in s <==> a <= x < a + n
  {
    if n == 0 then {} else Span(a, n - 1) + {a + n - 1}
  }

  // -------------------------------------------------------- concrete memory

  function Load(mem: Memory, a: nat, n: nat): (s: seq<Byte>)
    requires Backed(mem, a, n)
    ensures |s| == n
    ensures forall i :: 0 <= i < n ==> s[i] == mem[a + i]
  {
    if n == 0 then [] else Load(mem, a, n - 1) + [mem[a + n - 1]]
  }

  function Store(mem: Memory, a: nat, s: seq<Byte>): (m: Memory)
  {
    map x | x in mem.Keys + Span(a, |s|) :: if a <= x < a + |s| then s[x - a] else mem[x]
  }

  // ---------------------------------------------------------- shadow memory

  /** The shadow byte, or a constant made of the concrete byte where it is null. */
  function ByteExpr(sh: ShadowMap, mem: Memory, a: nat): (e: Expr)
    requires a in mem
  {
    if a in sh then sh[a] else Const(mem[a], 8)
  }

  function Joined(sh: ShadowMap, mem: Memory, a: nat, n: nat, le: bool): (e: Expr)
    requires n >= 1 && Backed(mem, a, n)
  {
    var last := ByteExpr(sh, mem, a + n - 1);
    if n == 1 then last
    else if le then Concat(last, Joined(sh, mem, a, n - 1, le))
    else Concat(Joined(sh, mem, a, n - 1, le), last)
  }

  /** `_sym_read_memory`: null for a concrete range, else all bytes joined. */
  function Read(sh: ShadowMap, mem: Memory, a: nat, n: nat, le: bool): (e: SymExpr)
    requires n >= 1 && Backed(mem, a, n)
  {
    if Concrete(sh, a, n) then None else Some(Joined(sh, mem, a, n, le))
  }

  /** Byte `i` in memory order of an `n`-byte expression. */
  function ByteOf(e: Expr, n: nat, i: nat, le: bool): (b: Expr)
    requires i < n
  {
    if le then Extract(e, 8 * (i + 1) - 1, 8 * i) else Extract(e, (n - i) * 8 - 1, (n - i - 1) * 8)
  }

  function Clear(sh: ShadowMap, a: nat, n: nat): (r: ShadowMap)
  {
    sh - Span(a, n)
  }

  /** `_sym_write_memory`. */
  function Write(sh: ShadowMap, a: nat, n: nat, e: SymExpr, le: bool): (r: ShadowMap)
  {
    match e
    case None => Clear(sh, a, n)
    case Some(x) => map y | y in sh.Keys + Span(a, n) :: if a <= y < a + n then ByteOf(x, n, y - a, le) else sh[y]
  }

  /** `_sym_memset`. */
  function Fill(sh: ShadowMap, a: nat, n: nat, e: SymExpr): (r: ShadowMap)
  {
    match e
    case None => Clear(sh, a, n)
    case Some(x) => map y | y in sh.Keys + Span(a, n) :: if a <= y < a + n then x else sh[y]
  }

  /** Where the shadow of `x` comes from when `n` bytes move from `src` to `dest`. */
  function Origin(x: nat, dest: nat, src: nat, n: nat): (y: nat)
  {
    if dest <= x < dest + n then src + (x - dest) else x
  }

  /** `_sym_memmove`: a simultaneous copy. */
  function Move(sh: ShadowMap, dest: nat, src: nat, n: nat): (r: ShadowMap)
  {
    map x | x in sh.Keys + Span(dest, n) && Origin(x, dest, src, n) in sh :: sh[Origin(x, dest, src, n)]
  }

  // ------------------------------------------------------- faithfulness

  lemma ByteExprDenotes(sh: ShadowMap, mem: Memory, a: nat, input: Input)
    requires a in mem && Faithful(sh, mem, input)
    ensures Denotes(ByteExpr(sh, mem, a), BitVec(8), mem[a], input)
    ensures Shows(ByteExpr(sh, mem, a), [mem[a]], input)
  {
    ByteFits(mem[a]);
    ByteShows(ByteExpr(sh, mem, a), mem[a], input);
  }

  lemma OrderedSnoc(s: seq<Byte>, b: Byte, le: bool)
    ensures Ordered(s + [b], le) == if le then [b] + Ordered(s, le) else Ordered(s, le) + [b]
  {
    assert (s + [b])[..|s|] == s;
  }

  lemma {:induction false} JoinedShows(sh: ShadowMap, mem: Memory, a: nat, n: nat, le: bool, input: Input)
    requires n >= 1 && Backed(mem, a, n) && Faithful(sh, mem, input)
    ensures Shows(Joined(sh, mem, a, n, le), Ordered(Load(mem, a, n), le), input)
  {
    hide Shows, ByteExpr, Concat, Faithful, Ordered;
    var last, b := ByteExpr(sh, mem, a + n - 1), mem[a + n - 1];
    ByteExprDenotes(sh, mem, a + n - 1, input);
    OrderedSnoc(Load(mem, a, n - 1), b, le);
    if n == 1 {
      assert Ordered(Load(mem, a, 0), le) == [];
      assert [b] + [] == [b] && [] + [b] == [b];
    } else {
      JoinedShows(sh, mem, a, n - 1, le, input);
      var rest, s := Joined(sh, mem, a, n - 1, le), Ordered(Load(mem, a, n - 1), le);
      if le { ShowsConcat(last, [b], rest, s, input); } else { ShowsConcat(rest, s, last, [b], input); }
    }
  }

  /** Reading over any mix of symbolic and concrete bytes gives the integer stored there. */
  lemma ReadIsFaithful(sh: ShadowMap, mem: Memory, a: nat, n: nat, le: bool, input: Input)
    requires n >= 1 && Backed(mem, a, n) && Faithful(sh, mem, input)
    ensures Read(sh, mem, a, n, le).Some? ==>
              Denotes(Read(sh, mem, a, n, le).value, BitVec(8 * n), Number(Ordered(Load(mem, a, n), le)), input)
  {
    hide Shows, Joined, Ordered, Faithful, Number;
    JoinedShows(sh, mem, a, n, le, input);
    ShownValue(Joined(sh, mem, a, n, le), Ordered(Load(mem, a, n), le), input);
  }

  lemma ByteOfShows(e: Expr, s: seq<Byte>, i: nat, le: bool, input: Input)
    requires i < |s| && Shows(e, s, input)
    ensures Shows(ByteOf(e, |s|, i, le), [Ordered(s, le)[i]], input)
  {
    hide Shows, Extract;
    var n := |s|;
    var j := if le then n - 1 - i else i;
    ShowsSlice(e, s, j, 1, input);
    assert s[j..j + 1] == [Ordered(s, le)[i]];
  }

  lemma ShowsByte(e: Expr, b: Byte, input: Input)
    requires Shows(e, [b], input)
    ensures Denotes(e, BitVec(8), b, input)
  {
    ShownValue(e, [b], input);
    assert Number([b]) == Number([]) * 256 + b;
  }

  /** Writing an expression next to its value keeps the shadow faithful. */
  lemma WriteIsFaithful(sh: ShadowMap, mem: Memory, a: nat, s: seq<Byte>, e: SymExpr, le: bool, input: Input)
    requires Faithful(sh, mem, input)
    requires e.Some? ==> Shows(e.value, s, input)
    ensures Faithful(Write(sh, a, |s|, e, le), Store(mem, a, Ordered(s, le)), input)
  {
    hide Shows, ByteOf, Ordered, Denotes;
    var r, m := Write(sh, a, |s|, e, le), Store(mem, a, Ordered(s, le));
    forall x | x in r
      ensures x in m && Denotes(r[x], BitVec(8), m[x], input)
    {
      if a <= x < a + |s| {
        ByteOfShows(e.value, s, x - a, le, input);
        ShowsByte(ByteOf(e.value, |s|, x - a, le), Ordered(s, le)[x - a], input);
      }
    }
  }

  lemma FillIsFaithful(sh: ShadowMap, mem: Memory, a: nat, n: nat, e: SymExpr, b: Byte, input: Input)
    requires Faithful(sh, mem, input)
    requires e.Some? ==> Denotes(e.value, BitVec(8), b, input)
    ensures Faithful(Fill(sh, a, n, e), Store(mem, a, seq(n, i => b)), input)
  {
    hide Denotes;
  }

  lemma MoveIsFaithful(sh: ShadowMap, mem: Memory, dest: nat, src: nat, n: nat, input: Input)
    requires Faithful(sh, mem, input) && Backed(mem, src, n)
    ensures Faithful(Move(sh, dest, src, n), Store(mem, dest, Load(mem, src, n)), input)
  {
    hide Denotes;
  }

  // ------------------------------------------------------------ round trip

  lemma {:induction false} JoinedAfterWrite(sh: ShadowMap, mem: Memory, a: nat, s: seq<Byte>, e: Expr, le: bool, n: nat, le': bool, input: Input)
    requires 1 <= n <= |s| && Backed(mem, a, |s|) && Shows(e, s, input)
    ensures Shows(Joined(Write(sh, a, |s|, Some(e), le), mem, a, n, le'), Ordered(Ordered(s, le)[..n], le'), input)
  {
    hide Shows, ByteOf, Concat, Ordered;
    var sh', t := Write(sh, a, |s|, Some(e), le), Ordered(s, le);
    var last, b := ByteExpr(sh', mem, a + n - 1), t[n - 1];
    ByteOfShows(e, s, n - 1, le, input);
    assert t[..n] == t[..n - 1] + [b];
    OrderedSnoc(t[..n - 1], b, le');
    if n == 1 {
      assert Ordered(t[..0], le') == [];
      assert [b] + [] == [b] && [] + [b] == [b];
    } else {
      JoinedAfterWrite(sh, mem, a, s, e, le, n - 1, le', input);
      var rest, u := Joined(sh', mem, a, n - 1, le'), Ordered(t[..n - 1], le');
      if le' { ShowsConcat(last, [b], rest, u, input); } else { ShowsConcat(rest, u, last, [b], input); }
    }
  }

  /** Write then read: the same endianness gives the written value back, the
      opposite one its byte reversal, whatever the shadow and memory held. */
  lemma ReadAfterWrite(sh: ShadowMap, mem: Memory, a: nat, n: nat, e: Expr, le: bool, le': bool, input: Input)
    requires n >= 1 && HasBytes(e, n) && Backed(mem, a, n)
    ensures var r := Read(Write(sh, a, n, Some(e), le), mem, a, n, le');
            r.Some? && HasBytes(r.value, n) &&
            Eval(r.value, input) ==
              if le == le' then Eval(e, input) else Number(Reversed(Image(e, n, input)))
  {
    hide Shows, ByteOf, Joined, Image, Number, Reversed, HasBytes, Eval, SortOf;
    var s, sh' := Image(e, n, input), Write(sh, a, n, Some(e), le);
    JoinedAfterWrite(sh, mem, a, s, e, le, n, le', input);
    assert a in sh';
    assert Ordered(s, le)[..n] == Ordered(s, le);
    OrderedTwice(s, true);
    ShownValue(e, s, input);
    ShownValue(Joined(sh', mem, a, n, le'), Ordered(Ordered(s, le), le'), input);
  }

  // ------------------------------------------------------------ other memories

  /** Memories that differ at most where there is a shadow. */
  predicate Alike(sh: ShadowMap, mem: Memory, mem': Memory)
  {
    mem.Keys == mem'.Keys && forall x :: x in mem && x !in sh ==> mem[x] == mem'[x]
  }

  lemma {:induction false} JoinedSame(sh: ShadowMap, mem: Memory, mem': Memory, a: nat, n: nat, le: bool)
    requires Alike(sh, mem, mem') && n >= 1 && Backed(mem, a, n) && Backed(mem', a, n)
    ensures Joined(sh, mem, a, n, le) == Joined(sh, mem', a, n, le)
  {
    hide Concat;
    if n > 1 { JoinedSame(sh, mem, mem', a, n - 1, le); }
  }

  lemma ReadSameExpr(sh: ShadowMap, mem: Memory, mem': Memory, a: nat, n: nat, le: bool)
    requires Alike(sh, mem, mem') && n >= 1 && Backed(mem, a, n) && Backed(mem', a, n)
    ensures Read(sh, mem, a, n, le) == Read(sh, mem', a, n, le)
  {
    hide Joined, Alike, Concrete;
    JoinedSame(sh, mem, mem', a, n, le);
  }

  /** What is read denotes the stored integer in every memory that differs only where there
      is a shadow, under every input that the shadow describes there. */
  lemma ReadMeans(sh: ShadowMap, mem: Memory, mem': Memory, a: nat, n: nat, le: bool, input: Input)
    requires Alike(sh, mem, mem') && n >= 1 && Backed(mem, a, n) && Backed(mem', a, n) && Faithful(sh, mem', input)
    ensures Read(sh, mem, a, n, le) == None <==> Concrete(sh, a, n)
    ensures Read(sh, mem, a, n, le).Some? ==>
              Denotes(Read(sh, mem, a, n, le).value, BitVec(8 * n), Number(Ordered(Load(mem', a, n), le)), input)
  {
    hide Joined, Alike, Faithful, Denotes, Number, Load, Ordered;
    ReadSameExpr(sh, mem, mem', a, n, le);
    if !Concrete(sh, a, n) { ReadIsFaithful(sh, mem', a, n, le, input); }
  }

  lemma AlikeWrite(sh: ShadowMap, mem: Memory, mem': Memory, a: nat, s: seq<Byte>, s': seq<Byte>, e: SymExpr, le: bool)
    requires Alike(sh, mem, mem') && |s| == |s'| && (e == None ==> s == s')
    ensures Alike(Write(sh, a, |s|, e, le), Store(mem, a, s), Store(mem', a, s'))
  {
    hide ByteOf;
  }

  lemma AlikeFill(sh: ShadowMap, mem: Memory, mem': Memory, a: nat, s: seq<Byte>, s': seq<Byte>, e: SymExpr)
    requires Alike(sh, mem, mem') && |s| == |s'| && (e == None ==> s == s')
    ensures Alike(Fill(sh, a, |s|, e), Store(mem, a, s), Store(mem', a, s'))
  {
  }

  lemma AlikeMove(sh: ShadowMap, mem: Memory, mem': Memory, d: nat, a: nat, n: nat)
    requires Alike(sh, mem, mem') && Backed(mem, a, n) && Backed(mem', a, n)
    ensures Alike(Move(sh, d, a, n), Store(mem, d, Load(mem, a, n)), Store(mem', d, Load(mem', a, n)))
  {
    var m, m' := Store(mem, d, Load(mem, a, n)), Store(mem', d, Load(mem', a, n));
    forall x | x in m && x !in Move(sh, d, a, n)
      ensures m[x] == m'[x]
    {
      if d <= x < d + n { assert Origin(x, d, a, n) == a + (x - d); }
    }
  }
}
