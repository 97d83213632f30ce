/** Fixed-width integers as natural numbers below a power of two: wrap-around,
    the signed reading, and the big-endian byte image of a number. */
module Bits {

  type Byte = b: nat | b < 256

  function Pow2(n: nat): (p: int)
    ensures p >= 1
    ensures n >= 1 ==> p >= 2
  {
    if n == 0 then 1 else 2 * Pow2(n - 1)
  }

  lemma DoubleProduct(p: int, q: int)
    ensures 2 * (p * q) == (2 * p) * q
  {
  }

  lemma {:induction false} Pow2Add(a: nat, b: nat)
    ensures Pow2(a + b) == Pow2(a) * Pow2(b)
  {
    if a > 0 {
      Pow2Add(a - 1, b);
      DoubleProduct(Pow2(a - 1), Pow2(b));
    }
  }

  lemma {:induction false} Pow2Monotone(a: nat, b: nat)
    requires a <= b
    ensures Pow2(a) <= Pow2(b)
  {
    if a < b {
      Pow2Monotone(a, b - 1);
    }
  }

  lemma Pow2Step(n: nat)
    requires n >= 1
    ensures Pow2(n) == 2 * Pow2(n - 1)
  {
  }

  lemma Pow2Of8()
    ensures Pow2(8) == 256
  {
    assert Pow2(4) == 16;
    Pow2Add(4, 4);
  }

  lemma MulLeq(a: int, b: int, c: int)
    requires a <= b && c >= 0
    ensures a * c <= b * c
  {
  }

  lemma QuotientLeq(d: int, q: int, r: int, q': int, r': int)
    requires 0 <= r < d && 0 <= r' < d && q * d + r == q' * d + r'
    ensures q <= q'
  {
    if q > q' {
      MulLeq(q' + 1, q, d);
    }
  }

  /** Division with remainder is unique. */
  lemma DivModUnique(x: int, d: int, q: int, r: int)
    requires d > 0 && x == q * d + r && 0 <= r < d
    ensures x / d == q && x % d == r
  {
    QuotientLeq(d, q, r, x / d, x % d);
    QuotientLeq(d, x / d, x % d, q, r);
  }

  lemma SmallMod(x: int, d: int)
    requires 0 <= x < d
    ensures x % d == x && x / d == 0
  {
    DivModUnique(x, d, 0, x);
  }

  lemma DivNat(x: nat, d: int)
    requires d > 0
    ensures 0 <= x / d <= x
  {
    MulLeq(1, d, x / d);
  }

  lemma ModAddMultiple(x: int, k: int, d: int)
    requires d > 0
    ensures (x + k * d) % d == x % d
    ensures (x + k * d) / d == x / d + k
  {
    assert x + k * d == (x / d + k) * d + x % d;
    DivModUnique(x + k * d, d, x / d + k, x % d);
  }

  lemma ModAdd(x: int, y: int, d: int)
    requires d > 0
    ensures (x % d + y) % d == (x + y) % d
  {
    assert x + y == (x % d + y) + (x / d) * d;
    ModAddMultiple(x % d + y, x / d, d);
  }

  lemma DivDiv(x: nat, a: int, b: int)
    requires a > 0 && b > 0
    ensures a * b > 0 && x / a / b == x / (a * b)
  {
    var y := x / a;
    var q, r, s := y / b, y % b, x % a;
    DivDivParts(x, a, b, y, s, q, r);
    DivModUnique(x, a * b, q, r * a + s);
  }

  lemma DivDivParts(x: int, a: int, b: int, y: int, s: int, q: int, r: int)
    requires a > 0 && b > 0 && x == y * a + s && y == q * b + r && 0 <= s < a && 0 <= r < b
    ensures a * b > 0 && x == q * (a * b) + (r * a + s) && 0 <= r * a + s < a * b
  {
    assert (q * b + r) * a == q * (a * b) + r * a;
    MulLeq(0, r, a);
    MulLeq(r, b - 1, a);
  }

  lemma DivBound(x: nat, d: int, q: int)
    requires d > 0 && x < q * d
    ensures x / d < q
  {
    if x / d >= q {
      MulLeq(q, x / d, d);
    }
  }

  // ------------------------------------------------------------------ signs

  predicate Fits(v: int, w: nat) { 0 <= v < Pow2(w) }

  lemma ByteFits(b: Byte)
    ensures Fits(b, 8)
  {
    Pow2Of8();
  }

  /** Two's complement reading of a `w`-bit pattern. */
  function ToSigned(v: nat, w: nat): (s: int)
    requires w >= 1 && Fits(v, w)
    ensures -Pow2(w - 1) <= s < Pow2(w - 1)
    ensures Wrap(s, w) == v
  {
    assert Pow2(w) == 2 * Pow2(w - 1);
    WrapShift(v - Pow2(w), w);
    if v < Pow2(w - 1) then v else v - Pow2(w)
  }

  /** The `w`-bit pattern of an arbitrary integer. */
  function Wrap(x: int, w: nat): (v: nat)
    ensures Fits(v, w)
    ensures Fits(x, w) ==> v == x
  {
    if 0 <= x < Pow2(w) then SmallMod(x, Pow2(w)); x else x % Pow2(w)
  }

  lemma WrapMod(x: int, w: nat)
    ensures Wrap(x, w) == x % Pow2(w)
  {
    if 0 <= x < Pow2(w) { SmallMod(x, Pow2(w)); }
  }

  /** Logical shift to the right. */
  function Shr(v: nat, k: nat): (r: nat)
    ensures r <= v
  {
    DivNat(v, Pow2(k));
    v / Pow2(k)
  }

  lemma ShrBound(v: nat, k: nat, w: nat)
    requires Fits(v, k + w)
    ensures Fits(Shr(v, k), w)
  {
    Pow2Add(w, k);
    DivBound(v, Pow2(k), Pow2(w));
  }

  lemma ShrShr(v: nat, a: nat, b: nat)
    ensures Shr(Shr(v, a), b) == Shr(v, a + b)
  {
    Pow2Add(a, b);
    DivDiv(v, Pow2(a), Pow2(b));
  }

  lemma WrapShift(x: int, w: nat)
    ensures Wrap(x + Pow2(w), w) == Wrap(x, w)
  {
    WrapMod(x, w);
    WrapMod(x + Pow2(w), w);
    ModAddMultiple(x, 1, Pow2(w));
  }

  lemma WrapAdd(x: int, y: int, w: nat)
    ensures Wrap(Wrap(x, w) + y, w) == Wrap(x + y, w)
  {
    hide Pow2;
    WrapMod(x, w);
    WrapMod(Wrap(x, w) + y, w);
    WrapMod(x + y, w);
    ModAdd(x, y, Pow2(w));
  }

  lemma WrapMultiple(x: int, k: int, w: nat)
    ensures Wrap(x + k * Pow2(w), w) == Wrap(x, w)
  {
    hide Pow2;
    WrapMod(x + k * Pow2(w), w);
    WrapMod(x, w);
    ModAddMultiple(x, k, Pow2(w));
  }

  /** Adding `s` is invisible exactly when `s` is a multiple of the modulus. */
  lemma WrapSkew(x: int, s: int, w: nat)
    ensures Wrap(x + s, w) == Wrap(x, w) <==> Wrap(s, w) == 0
  {
    hide Pow2, Wrap;
    WrapAdd(s, x, w);
    if Wrap(x + s, w) == Wrap(x, w) {
      WrapAdd(x + s, -x, w);
      WrapAdd(x, -x, w);
      WrapZero(w);
    }
  }

  lemma WrapZero(w: nat)
    ensures Wrap(0, w) == 0
  {
  }

  lemma WrapSigned(x: int, w: nat)
    requires w >= 1 && -Pow2(w - 1) <= x < Pow2(w - 1)
    ensures ToSigned(Wrap(x, w), w) == x
  {
    if x < 0 {
      WrapShift(x, w);
    }
  }

  lemma SignedWrap(z: int, w: nat) returns (k: int)
    requires w >= 1
    ensures z == ToSigned(Wrap(z, w), w) + k * Pow2(w)
  {
    hide Pow2;
    WrapMod(z, w);
    DivMod(z, Pow2(w));
    var v := Wrap(z, w);
    k := if v < Pow2(w - 1) then z / Pow2(w) else z / Pow2(w) + 1;
  }

  // ------------------------------------------------------------ byte images

  /** The `n` low bytes of `v`, most significant first. */
  function Bytes(v: nat, n: nat): (s: seq<Byte>)
    ensures |s| == n
  {
    if n == 0 then [] else Bytes(v / 256, n - 1) + [v % 256]
  }

  function Number(s: seq<Byte>): (v: nat)
  {
    if s == [] then 0 else Number(s[..|s| - 1]) * 256 + s[|s| - 1]
  }

  lemma Pow2Bytes(n: nat)
    requires n >= 1
    ensures Pow2(8 * n) == 256 * Pow2(8 * (n - 1))
  {
    Pow2Of8();
    Pow2Add(8, 8 * (n - 1));
  }

  lemma {:induction false} NumberOfBytes(v: nat, n: nat)
    requires Fits(v, 8 * n)
    ensures Number(Bytes(v, n)) == v
  {
    if n > 0 {
      Pow2Bytes(n);
      NumberOfBytes(v / 256, n - 1);
      assert Bytes(v, n)[..n - 1] == Bytes(v / 256, n - 1);
    }
  }

  lemma {:induction false} BytesOfNumber(s: seq<Byte>)
    ensures Bytes(Number(s), |s|) == s
    ensures Fits(Number(s), 8 * |s|)
  {
    if s != [] {
      BytesOfNumber(s[..|s| - 1]);
      Pow2Bytes(|s|);
    }
  }

  /** Dropping low bytes is a right shift. */
  lemma {:induction false} BytesShift(v: nat, n: nat, lo: nat)
    requires lo <= n
    ensures Bytes(Shr(v, 8 * lo), n - lo) == Bytes(v, n)[..n - lo]
  {
    if lo > 0 {
      ShrShr(v, 8, 8 * (lo - 1));
      Pow2Of8();
      BytesShift(v / 256, n - 1, lo - 1);
    }
  }

  /** Keeping low bytes is a remainder. */
  lemma {:induction false} BytesLow(v: nat, n: nat, k: nat)
    requires k <= n
    ensures Bytes(Wrap(v, 8 * k), k) == Bytes(v, n)[n - k..]
  {
    if k > 0 {
      Pow2Bytes(k);
      WrapMod(v, 8 * k);
      WrapMod(v / 256, 8 * (k - 1));
      ModByParts(v, 256, Pow2(8 * (k - 1)));
      BytesLow(v / 256, n - 1, k - 1);
    }
  }

  lemma ModByParts(v: nat, a: int, m: int)
    requires a > 0 && m > 0
    ensures a * m > 0
    ensures v % (a * m) / a == v / a % m
    ensures v % (a * m) % a == v % a
  {
    var q, r := v / a, v % a;
    var qq, qr := q / m, q % m;
    DivDivParts(v, a, m, q, r, qq, qr);
    DivModUnique(v, a * m, qq, qr * a + r);
    DivModUnique(qr * a + r, a, qr, r);
  }

  lemma BytesSlice(v: nat, n: nat, lo: nat, k: nat)
    requires lo + k <= n
    ensures Bytes(Wrap(Shr(v, 8 * lo), 8 * k), k) == Bytes(v, n)[n - lo - k..n - lo]
  {
    BytesShift(v, n, lo);
    BytesLow(Shr(v, 8 * lo), n - lo, k);
  }

  /** Appending `w` low bits `b` to `a`. */
  function Append(a: nat, b: nat, w: nat): (v: nat)
    requires Fits(b, w)
    ensures Shr(v, w) == a && Wrap(v, w) == b
  {
    assert a * Pow2(w) >= 0;
    DivModUnique(a * Pow2(w) + b, Pow2(w), a, b);
    WrapMod(a * Pow2(w) + b, w);
    a * Pow2(w) + b
  }

  lemma DivMod(v: int, d: int)
    requires d > 0
    ensures v / d * d + v % d == v
  {
  }

  lemma ShrWrapAppend(v: nat, k: nat)
    ensures Append(Shr(v, k), Wrap(v, k), k) == v
  {
    hide Pow2;
    WrapMod(v, k);
    DivMod(v, Pow2(k));
  }

  lemma AppendFits(a: nat, aw: nat, b: nat, w: nat)
    requires Fits(a, aw) && Fits(b, w)
    ensures Fits(Append(a, b, w), aw + w)
  {
    Pow2Add(aw, w);
    MulAddBound(a, Pow2(aw), b, Pow2(w));
  }

  lemma MulAddBound(a: nat, m: int, b: nat, d: int)
    requires a < m && b < d
    ensures 0 <= a * d + b < m * d
  {
    MulLeq(a, m - 1, d);
  }

  lemma BytesAppend(a: nat, n: nat, b: nat, m: nat)
    requires Fits(b, 8 * m)
    ensures Bytes(Append(a, b, 8 * m), n + m) == Bytes(a, n) + Bytes(b, m)
  {
    var v := Append(a, b, 8 * m);
    BytesShift(v, n + m, m);
    BytesLow(v, n + m, m);
  }

  function Reversed(s: seq<Byte>): (r: seq<Byte>)
    ensures |r| == |s|
    ensures forall i :: 0 <= i < |s| ==> r[i] == s[|s| - 1 - i]
  {
    if s == [] then [] else [s[|s| - 1]] + Reversed(s[..|s| - 1])
  }
}
