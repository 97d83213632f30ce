/** The runtime's builders for aggregates: byte-granular extraction, insertion
    and byte swapping, described by the big-endian byte image of an expression. */
module Builders {
  import opened Bits
  import opened Exprs

  predicate HasBytes(e: Expr, n: nat) { HasWidth(e, 8 * n) }

  /** `e` is `|s|` bytes wide and its value has the bytes `s`, most significant first. */
  predicate Shows(e: Expr, s: seq<Byte>, input: Input)
  {
    HasBytes(e, |s|) && Bytes(Eval(e, input), |s|) == s
  }

  function Image(e: Expr, n: nat, input: Input): (s: seq<Byte>)
    requires HasBytes(e, n)
    ensures |s| == n && Shows(e, s, input)
  {
    Bytes(Eval(e, input), n)
  }

  /** The byte image determines the value. */
  lemma ShownValue(e: Expr, s: seq<Byte>, input: Input)
    requires Shows(e, s, input)
    ensures HasBytes(e, |s|) && Denotes(e, BitVec(8 * |s|), Number(s), input)
  {
    NumberOfBytes(Eval(e, input), |s|);
  }

  lemma ConcatDenotes(a: Expr, v: nat, x: nat, b: Expr, w: nat, y: nat, input: Input)
    requires v >= 1 && w >= 1 && Denotes(a, BitVec(v), x, input) && Denotes(b, BitVec(w), y, input)
    ensures Fits(y, w) && Denotes(Concat(a, b), BitVec(v + w), Append(x, y, w), input)
  {
    hide Append, Pow2, BvApply, Holds, ExtractBits, SignExtend;
    assert BinarySort(Join, BitVec(v), BitVec(w)) == Some(BitVec(v + w));
  }

  lemma ShowsConcat(a: Expr, s: seq<Byte>, b: Expr, t: seq<Byte>, input: Input)
    requires Shows(a, s, input) && Shows(b, t, input)
    ensures Shows(Concat(a, b), s + t, input)
  {
    hide Eval, SortOf, Bytes, Append, Concat, Pow2;
    var x, y := Eval(a, input), Eval(b, input);
    ConcatDenotes(a, 8 * |s|, x, b, 8 * |t|, y, input);
    BytesAppend(x, |s|, y, |t|);
  }

  /** The `len` bytes of `e` that start `off` bytes below its most significant end. */
  function Slice(e: Expr, n: nat, off: nat, len: nat): (r: Expr)
    requires off + len <= n && len >= 1
  {
    Extract(e, 8 * n - 8 * off - 1, 8 * n - 8 * (off + len))
  }

  lemma ExtractDenotes(e: Expr, w: nat, v: nat, hi: nat, lo: nat, input: Input)
    requires Denotes(e, BitVec(w), v, input) && lo <= hi < w
    ensures Denotes(Extract(e, hi, lo), BitVec(hi - lo + 1), ExtractBits(v, hi, lo), input)
  {
    hide ExtractBits;
  }

  lemma ShowsSlice(e: Expr, s: seq<Byte>, off: nat, len: nat, input: Input)
    requires Shows(e, s, input) && off + len <= |s| && len >= 1
    ensures Shows(Slice(e, |s|, off, len), s[off..off + len], input)
  {
    hide Eval, SortOf, Bytes, Wrap, Shr, Extract;
    var n, v := |s|, Eval(e, input);
    ExtractDenotes(e, 8 * n, v, 8 * n - 8 * off - 1, 8 * n - 8 * (off + len), input);
    BytesSlice(v, n, n - off - len, len);
  }

  // ------------------------------------------------------------- extraction

  /** Bytes `off .. off + len` of `e`, the later ones more significant. */
  function SwappedSlice(e: Expr, n: nat, off: nat, len: nat): (r: Expr)
    requires off + len <= n && len >= 1
  {
    if len == 1 then Slice(e, n, off, 1)
    else Concat(Slice(e, n, off + len - 1, 1), SwappedSlice(e, n, off, len - 1))
  }

  function ExtractMember(e: Expr, n: nat, off: nat, len: nat, littleEndian: bool): (r: Expr)
    requires off + len <= n && len >= 1
  {
    if littleEndian then SwappedSlice(e, n, off, len) else Slice(e, n, off, len)
  }

  /** Builds the member expression byte by byte, as the runtime does. */
  method BuildExtract(expr: Expr, n: nat, offset: nat, length: nat, littleEndian: bool) returns (result: Expr)
    requires HasBytes(expr, n) && offset + length <= n && length >= 1
    ensures result == ExtractMember(expr, n, offset, length, littleEndian)
  {
    var totalBits := 8 * n;
    if littleEndian {
      result := Extract(expr, totalBits - offset * 8 - 1, totalBits - offset * 8 - 8);
      var i := 1;
      while i < length
        invariant 1 <= i <= length
        invariant result == SwappedSlice(expr, n, offset, i)
      {
        result := Concat(Extract(expr, totalBits - (offset + i) * 8 - 1, totalBits - (offset + i + 1) * 8), result);
        i := i + 1;
      }
    } else {
      result := Extract(expr, totalBits - offset * 8 - 1, totalBits - (offset + length) * 8);
    }
  }

  function Ordered(s: seq<Byte>, littleEndian: bool): (r: seq<Byte>)
    ensures |r| == |s|
  {
    if littleEndian then Reversed(s) else s
  }

  lemma OrderedTwice(s: seq<Byte>, le: bool)
    ensures Ordered(Ordered(s, le), le) == s
  {
    assert Reversed(Reversed(s)) == s;
  }

  lemma ReversedSlice(s: seq<Byte>, off: nat, len: nat)
    requires off + len <= |s| && len >= 1
    ensures Reversed(s[off..off + len]) == s[off + len - 1..off + len] + Reversed(s[off..off + len - 1])
  {
    assert s[off..off + len][..len - 1] == s[off..off + len - 1];
  }

  lemma {:induction false} ShowsSwapped(e: Expr, s: seq<Byte>, off: nat, len: nat, input: Input)
    requires Shows(e, s, input) && off + len <= |s| && len >= 1
    ensures Shows(SwappedSlice(e, |s|, off, len), Reversed(s[off..off + len]), input)
  {
    hide Shows, Slice, Reversed, Concat;
    ReversedSlice(s, off, len);
    ShowsSlice(e, s, off + len - 1, 1, input);
    if len == 1 {
      assert Reversed(s[off..off + len - 1]) == [];
      assert s[off + len - 1..off + len] + [] == s[off + len - 1..off + len];
    } else {
      ShowsSwapped(e, s, off, len - 1, input);
      ShowsConcat(Slice(e, |s|, off + len - 1, 1), s[off + len - 1..off + len],
                  SwappedSlice(e, |s|, off, len - 1), Reversed(s[off..off + len - 1]), input);
    }
  }

  /** Extraction selects the member's bytes; little-endian extraction reverses them. */
  lemma ShowsExtract(e: Expr, s: seq<Byte>, off: nat, len: nat, le: bool, input: Input)
    requires Shows(e, s, input) && off + len <= |s| && len >= 1
    ensures Shows(ExtractMember(e, |s|, off, len, le), Ordered(s[off..off + len], le), input)
  {
    hide Shows, Slice, SwappedSlice, Reversed;
    if le { ShowsSwapped(e, s, off, len, input); } else { ShowsSlice(e, s, off, len, input); }
  }

  // ------------------------------------------------------------ byte swap

  function ByteSwap(e: Expr, n: nat): (r: Expr)
    requires n >= 1
  {
    ExtractMember(e, n, 0, n, true)
  }

  lemma ShowsByteSwap(e: Expr, s: seq<Byte>, input: Input)
    requires |s| >= 1 && Shows(e, s, input)
    ensures Shows(ByteSwap(e, |s|), Reversed(s), input)
  {
    hide Shows, ExtractMember, Reversed;
    ShowsExtract(e, s, 0, |s|, true, input);
    assert s[0..0 + |s|] == s;
  }

  /** Byte swapping reverses the byte image, and doing it twice changes nothing. */
  lemma ByteSwapInvolution(e: Expr, n: nat, input: Input)
    requires n >= 1 && HasBytes(e, n)
    ensures Shows(ByteSwap(e, n), Reversed(Image(e, n, input)), input)
    ensures Denotes(ByteSwap(ByteSwap(e, n), n), BitVec(8 * n), Eval(e, input), input)
  {
    hide Shows, ByteSwap, Image, HasBytes, Reversed, Eval, SortOf, Number;
    var s := Image(e, n, input);
    ShowsByteSwap(e, s, input);
    ShowsByteSwap(ByteSwap(e, n), Reversed(s), input);
    OrderedTwice(s, true);
    ShownValue(e, s, input);
    ShownValue(ByteSwap(ByteSwap(e, n), n), s, input);
  }

  // ------------------------------------------------------------- insertion

  /** What the byte swap asserts about the piece to insert. */
  predicate Insertable(m: nat, littleEndian: bool)
  {
    m >= 1 && (littleEndian ==> m == 1 || m % 2 == 0)
  }

  /** Replaces `m` bytes of `target` (which has `n`) by `piece`, starting at byte `off`. */
  function BuildInsert(target: Expr, n: nat, piece: Expr, m: nat, off: nat, littleEndian: bool): (r: Expr)
    requires off + m <= n && Insertable(m, littleEndian)
  {
    var newPiece := if littleEndian && m > 1 then ByteSwap(piece, m) else piece;
    var head := if off == 0 then newPiece else Concat(ExtractMember(target, n, 0, off, false), newPiece);
    var rest := n - off - m;
    if rest == 0 then head else Concat(head, ExtractMember(target, n, off + m, rest, false))
  }

  /** `s` with the bytes at `off` replaced by `p`. */
  function Overwrite(s: seq<Byte>, p: seq<Byte>, off: nat): (r: seq<Byte>)
    requires off + |p| <= |s|
    ensures |r| == |s|
  {
    s[..off] + p + s[off + |p|..]
  }

  lemma ShowsPiece(p: Expr, q: seq<Byte>, le: bool, input: Input)
    requires Shows(p, q, input) && |q| >= 1
    ensures Shows(if le && |q| > 1 then ByteSwap(p, |q|) else p, Ordered(q, le), input)
  {
    hide Shows, ByteSwap;
    if le && |q| > 1 { ShowsByteSwap(p, q, input); } else { assert Ordered(q, le) == q; }
  }

  /** Insertion conserves the width and overwrites exactly the member's bytes. */
  lemma ShowsInsert(t: Expr, s: seq<Byte>, p: Expr, q: seq<Byte>, off: nat, le: bool, input: Input)
    requires Shows(t, s, input) && Shows(p, q, input) && off + |q| <= |s| && Insertable(|q|, le)
    ensures Shows(BuildInsert(t, |s|, p, |q|, off, le), Overwrite(s, Ordered(q, le), off), input)
  {
    hide Shows, ByteSwap, ExtractMember, Concat, Reversed;
    var n, m, q' := |s|, |q|, Ordered(q, le);
    var newPiece := if le && m > 1 then ByteSwap(p, m) else p;
    ShowsPiece(p, q, le, input);
    var head := if off == 0 then newPiece else Concat(ExtractMember(t, n, 0, off, false), newPiece);
    assert Shows(head, s[..off] + q', input) by {
      if off > 0 {
        ShowsExtract(t, s, 0, off, false, input);
        ShowsConcat(ExtractMember(t, n, 0, off, false), s[0..0 + off], newPiece, q', input);
        assert s[0..0 + off] + q' == s[..off] + q';
      } else {
        assert s[..off] + q' == q';
      }
    }
    var rest := n - off - m;
    if rest > 0 {
      ShowsExtract(t, s, off + m, rest, false, input);
      ShowsConcat(head, s[..off] + q', ExtractMember(t, n, off + m, rest, false), s[off + m..off + m + rest], input);
      assert s[off + m..off + m + rest] == s[off + m..];
    } else {
      assert s[..off] + q' + s[off + m..] == s[..off] + q';
    }
  }

  // -------------------------------------------------------------- lens laws

  /** Reading a member right after writing it yields the written value. */
  lemma GetAfterPut(t: Expr, n: nat, p: Expr, m: nat, off: nat, le: bool, input: Input)
    requires HasBytes(t, n) && HasBytes(p, m) && off + m <= n && Insertable(m, le)
    ensures Denotes(ExtractMember(BuildInsert(t, n, p, m, off, le), n, off, m, le), BitVec(8 * m), Eval(p, input), input)
  {
    hide Shows, ExtractMember, BuildInsert, Image, HasBytes, Ordered, Eval, SortOf, Number;
    var s, q, r := Image(t, n, input), Image(p, m, input), BuildInsert(t, n, p, m, off, le);
    var s' := Overwrite(s, Ordered(q, le), off);
    ShowsInsert(t, s, p, q, off, le, input);
    ShowsExtract(r, s', off, m, le, input);
    assert s'[off..off + m] == Ordered(q, le);
    OrderedTwice(q, le);
    ShownValue(ExtractMember(r, n, off, m, le), q, input);
    ShownValue(p, q, input);
  }

  /** Writing back what was read changes nothing. */
  lemma PutAfterGet(t: Expr, n: nat, m: nat, off: nat, le: bool, input: Input)
    requires HasBytes(t, n) && off + m <= n && Insertable(m, le)
    ensures Denotes(BuildInsert(t, n, ExtractMember(t, n, off, m, le), m, off, le), BitVec(8 * n), Eval(t, input), input)
  {
    hide Shows, ExtractMember, BuildInsert, Image, HasBytes, Ordered, Eval, SortOf, Number;
    var s, p := Image(t, n, input), ExtractMember(t, n, off, m, le);
    var q := s[off..off + m];
    ShowsExtract(t, s, off, m, le, input);
    ShowsInsert(t, s, p, Ordered(q, le), off, le, input);
    OrderedTwice(q, le);
    assert Overwrite(s, q, off) == s;
    ShownValue(BuildInsert(t, n, p, m, off, le), s, input);
    ShownValue(t, s, input);
  }

  /** A second write to the same member hides the first. */
  lemma PutAfterPut(t: Expr, n: nat, p: Expr, q: Expr, m: nat, off: nat, le: bool, input: Input)
    requires HasBytes(t, n) && HasBytes(p, m) && HasBytes(q, m) && off + m <= n && Insertable(m, le)
    ensures HasBytes(BuildInsert(t, n, q, m, off, le), n)
    ensures Denotes(BuildInsert(BuildInsert(t, n, p, m, off, le), n, q, m, off, le), BitVec(8 * n),
                    Eval(BuildInsert(t, n, q, m, off, le), input), input)
  {
    hide Shows, BuildInsert, Image, HasBytes, Ordered, Eval, SortOf, Number;
    var s, first, once := Image(t, n, input), BuildInsert(t, n, p, m, off, le), BuildInsert(t, n, q, m, off, le);
    var s1, s2 := Ordered(Image(p, m, input), le), Ordered(Image(q, m, input), le);
    ShowsInsert(t, s, p, Image(p, m, input), off, le, input);
    ShowsInsert(t, s, q, Image(q, m, input), off, le, input);
    ShowsInsert(first, Overwrite(s, s1, off), q, Image(q, m, input), off, le, input);
    assert Overwrite(Overwrite(s, s1, off), s2, off) == Overwrite(s, s2, off);
    ShownValue(BuildInsert(first, n, q, m, off, le), Overwrite(s, s2, off), input);
    ShownValue(once, Overwrite(s, s2, off), input);
  }

  /** A write leaves every member that it does not overlap unchanged. */
  lemma PutElsewhere(t: Expr, n: nat, p: Expr, m: nat, off: nat, le: bool, off': nat, len: nat, le': bool, input: Input)
    requires HasBytes(t, n) && HasBytes(p, m) && off + m <= n && Insertable(m, le)
    requires off' + len <= n && len >= 1 && (off' + len <= off || off + m <= off')
    ensures HasBytes(ExtractMember(t, n, off', len, le'), len)
    ensures Denotes(ExtractMember(BuildInsert(t, n, p, m, off, le), n, off', len, le'), BitVec(8 * len),
                    Eval(ExtractMember(t, n, off', len, le'), input), input)
  {
    hide Shows, ExtractMember, BuildInsert, Image, HasBytes, Ordered, Eval, SortOf, Number;
    var s, q, r := Image(t, n, input), Ordered(Image(p, m, input), le), BuildInsert(t, n, p, m, off, le);
    var s' := Overwrite(s, q, off);
    ShowsInsert(t, s, p, Image(p, m, input), off, le, input);
    ShowsExtract(r, s', off', len, le', input);
    ShowsExtract(t, s, off', len, le', input);
    assert s'[off'..off' + len] == s[off'..off' + len];
    var bytes := Ordered(s[off'..off' + len], le');
    ShownValue(ExtractMember(r, n, off', len, le'), bytes, input);
    ShownValue(ExtractMember(t, n, off', len, le'), bytes, input);
  }

  // ------------------------------------------------------------- zero bytes

  function ZeroBytes(length: nat): (e: Expr)
  {
    if length <= 1 then Const(0, 8) else Concat(ZeroBytes(length - 1), Const(0, 8))
  }

  method BuildZeroBytes(length: nat) returns (result: Expr)
    ensures result == ZeroBytes(length)
  {
    var zeroByte := Const(0, 8);
    result := zeroByte;
    var i := 1;
    while i < length
      invariant 1 <= i && (i <= length || i == 1)
      invariant result == ZeroBytes(i)
    {
      result := Concat(result, zeroByte);
      i := i + 1;
    }
  }

  function Zeros(n: nat): (s: seq<Byte>)
    ensures |s| == n
    ensures forall i :: 0 <= i < n ==> s[i] == 0
  {
    if n == 0 then [] else Zeros(n - 1) + [0]
  }

  lemma ByteShows(e: Expr, b: Byte, input: Input)
    requires Denotes(e, BitVec(8), b, input)
    ensures Shows(e, [b], input)
  {
    assert Bytes(b, 1) == Bytes(b / 256, 0) + [b % 256];
  }

  lemma ConstByteShows(b: Byte, input: Input)
    ensures Shows(Const(b, 8), [b], input)
  {
    ByteFits(b);
    ByteShows(Const(b, 8), b, input);
  }

  lemma {:induction false} ShowsZeroBytes(n: nat, input: Input)
    requires n >= 1
    ensures Shows(ZeroBytes(n), Zeros(n), input)
  {
    hide Shows, Concat;
    ConstByteShows(0, input);
    if n == 1 {
      assert Zeros(1) == [0];
    } else {
      ShowsZeroBytes(n - 1, input);
      ShowsConcat(ZeroBytes(n - 1), Zeros(n - 1), Const(0, 8), [0], input);
    }
  }

  // -------------------------------------------------------- Booleans and truncation

  function WidthOf(e: Expr): (w: nat)
  {
    var s := SortOf(e);
    if IsVector(s) then s.value.width else 0
  }

  function NotEqual(a: Expr, b: Expr): (e: Expr) { Not(Compare(Eq, a, b)) }

  function TruncTo(a: Expr, bits: nat): (e: Expr) { Extract(a, if bits == 0 then 0 else bits - 1, 0) }

  function BoolToBit(a: Expr): (e: Expr) { Ite(a, Const(1, 1), Const(0, 1)) }

  function BitToBool(a: Expr): (e: Expr) { NotEqual(a, Const(0, WidthOf(a))) }
}
