/** The fuzzing helper's coverage map: merging is a bitwise or, and it can report
    new coverage only a bounded number of times. */
module Coverage {
  import opened Exprs

  type Bitmap = seq<bv8>

  /** A merge fails when the sizes differ. */
  datatype MergeResult = Interesting(changed: bool) | SizeMismatch

  function Or(a: Bitmap, b: Bitmap): (r: Bitmap)
    requires |a| == |b|
    ensures |r| == |a| && forall i :: 0 <= i < |a| ==> r[i] == a[i] | b[i]
  {
    seq(|a|, i requires 0 <= i < |a| => a[i] | b[i])
  }

  // ------------------------------------------------------------------ merging

  /** `merge_vec`: in place; unchanged when the sizes differ. */
  method MergeVec(data: array<bv8>, newData: Bitmap) returns (r: MergeResult)
    modifies data
    ensures data.Length != |newData| ==> r == SizeMismatch && data[..] == old(data[..])
    ensures data.Length == |newData| ==> data[..] == Or(old(data[..]), newData) && r == Interesting(data[..] != old(data[..]))
  {
    if data.Length != |newData| { return SizeMismatch; }
    var interesting := false;
    for i := 0 to data.Length
      invariant forall k :: 0 <= k < i ==> data[k] == old(data[k]) | newData[k]
      invariant forall k :: i <= k < data.Length ==> data[k] == old(data[k])
      invariant interesting <==> exists k :: 0 <= k < i && data[k] != old(data[k])
    {
      if data[i] != data[i] | newData[i] {
        data[i] := data[i] | newData[i];
        interesting := true;
      }
    }
    return Interesting(interesting);
  }

  /** What a merge does to the current map. */
  function Merged(data: Option<Bitmap>, other: Option<Bitmap>): (r: Option<Bitmap>)
  {
    if other.None? then data
    else if data.None? then other
    else if |data.value| == |other.value| then Some(Or(data.value, other.value))
    else data
  }

  /** Whether it reports new coverage; the very first map always does. */
  predicate Reports(data: Option<Bitmap>, other: Option<Bitmap>)
  {
    other.Some? && (data.None? || Merged(data, other) != data)
  }

  class AflMap {
    var data: array?<bv8>

    ghost function Contents(): (m: Option<Bitmap>)
      reads this, data
    {
      if data == null then None else Some(data[..])
    }

    constructor ()
      ensures Contents() == None
    {
      data := null;
    }

    method Merge(other: Option<Bitmap>) returns (r: MergeResult)
      modifies this, data
      ensures Contents() == Merged(old(Contents()), other)
      ensures r.Interesting? ==> (r.changed <==> Reports(old(Contents()), other))
      ensures r.SizeMismatch? <==> old(Contents()).Some? && other.Some? && |old(Contents()).value| != |other.value|
      ensures data != old(data) ==> fresh(data)
    {
      if other.None? { return Interesting(false); }
      if data == null {
        var m := other.value;
        data := new bv8[|m|](i requires 0 <= i < |m| => m[i]);
        assert data[..] == m;
        return Interesting(true);
      }
      r := MergeVec(data, other.value);
    }
  }

  // ---------------------------------------------------------------- counting bits

  function Mask(k: nat): (m: bv8)
  {
    match k
    case 0 => 1
    case 1 => 2
    case 2 => 4
    case 3 => 8
    case 4 => 16
    case 5 => 32
    case 6 => 64
    case _ => 128
  }

  function Bit(b: bv8, k: nat): (n: nat)
    ensures n <= 1
  {
    if b & Mask(k) != 0 then 1 else 0
  }

  function Ones(b: bv8): (n: nat)
    ensures n <= 8
  {
    Bit(b, 0) + Bit(b, 1) + Bit(b, 2) + Bit(b, 3) + Bit(b, 4) + Bit(b, 5) + Bit(b, 6) + Bit(b, 7)
  }

  lemma OrMasked(a: bv8, b: bv8, m: bv8)
    ensures (a | b) & m == (a & m) | (b & m)
  {
  }

  lemma OrZero(x: bv8, y: bv8)
    ensures x | y == 0 <==> x == 0 && y == 0
  {
  }

  lemma BitOfOr(a: bv8, b: bv8, k: nat)
    ensures Bit(a | b, k) == 1 <==> Bit(a, k) == 1 || Bit(b, k) == 1
  {
    hide Mask;
    OrMasked(a, b, Mask(k));
    OrZero(a & Mask(k), b & Mask(k));
  }

  lemma SameMasks(a: bv8, b: bv8)
    requires a & 1 == b & 1 && a & 2 == b & 2 && a & 4 == b & 4 && a & 8 == b & 8
    requires a & 16 == b & 16 && a & 32 == b & 32 && a & 64 == b & 64 && a & 128 == b & 128
    ensures a == b
  {
  }

  lemma OneBit(a: bv8, k: nat)
    ensures a & Mask(k) == if Bit(a, k) == 1 then Mask(k) else 0
  {
  }

  lemma BitsDetermine(a: bv8, b: bv8)
    requires Bit(a, 0) == Bit(b, 0) && Bit(a, 1) == Bit(b, 1) && Bit(a, 2) == Bit(b, 2) && Bit(a, 3) == Bit(b, 3)
    requires Bit(a, 4) == Bit(b, 4) && Bit(a, 5) == Bit(b, 5) && Bit(a, 6) == Bit(b, 6) && Bit(a, 7) == Bit(b, 7)
    ensures a == b
  {
    hide Bit;
    OneBit(a, 0); OneBit(b, 0); OneBit(a, 1); OneBit(b, 1); OneBit(a, 2); OneBit(b, 2); OneBit(a, 3); OneBit(b, 3);
    OneBit(a, 4); OneBit(b, 4); OneBit(a, 5); OneBit(b, 5); OneBit(a, 6); OneBit(b, 6); OneBit(a, 7); OneBit(b, 7);
    SameMasks(a, b);
  }

  lemma OrBits(a: bv8, b: bv8)
    ensures Ones(a | b) >= Ones(a)
    ensures a | b != a ==> Ones(a | b) > Ones(a)
  {
    hide Bit;
    BitOfOr(a, b, 0); BitOfOr(a, b, 1); BitOfOr(a, b, 2); BitOfOr(a, b, 3);
    BitOfOr(a, b, 4); BitOfOr(a, b, 5); BitOfOr(a, b, 6); BitOfOr(a, b, 7);
    if Ones(a | b) == Ones(a) { BitsDetermine(a | b, a); }
  }

  function Weight(m: Bitmap): (n: nat)
    ensures n <= 8 * |m|
  {
    if m == [] then 0 else Weight(m[..|m| - 1]) + Ones(m[|m| - 1])
  }

  lemma WeightSplit(m: Bitmap)
    requires m != []
    ensures Weight(m) == Weight(m[..|m| - 1]) + Ones(m[|m| - 1])
  {
    hide Ones;
  }

  lemma LastSplit<T>(m: seq<T>)
    requires m != []
    ensures m == m[..|m| - 1] + [m[|m| - 1]]
  {
  }

  /** A merge that changes the map sets at least one more bit. */
  lemma {:induction false} OrWeight(a: Bitmap, b: Bitmap)
    requires |a| == |b|
    ensures Weight(Or(a, b)) >= Weight(a)
    ensures Or(a, b) != a ==> Weight(Or(a, b)) > Weight(a)
  {
    hide Ones, Weight;
    if a == [] {
      assert Or(a, b) == a;
    } else {
      var n, r := |a| - 1, Or(a, b);
      OrWeight(a[..n], b[..n]);
      assert r[..n] == Or(a[..n], b[..n]);
      OrBits(a[n], b[n]);
      WeightSplit(a);
      WeightSplit(r);
      LastSplit(a);
      LastSplit(r);
    }
  }

  // ------------------------------------------------------------------- whole runs

  function MapAfter(maps: seq<Option<Bitmap>>): (m: Option<Bitmap>)
  {
    if maps == [] then None else Merged(MapAfter(maps[..|maps| - 1]), maps[|maps| - 1])
  }

  /** How often new coverage was reported. */
  function ReportsIn(maps: seq<Option<Bitmap>>): (n: nat)
  {
    if maps == [] then 0
    else
      var before, last := maps[..|maps| - 1], maps[|maps| - 1];
      ReportsIn(before) + if Reports(MapAfter(before), last) then 1 else 0
  }

  /** Bit `k` of byte `i` is set in some merged map of the right size. */
  ghost predicate SetSomewhere(maps: seq<Option<Bitmap>>, size: nat, i: nat, k: nat)
    requires i < size && k < 8
  {
    exists j :: 0 <= j < |maps| && maps[j].Some? && |maps[j].value| == size && Bit(maps[j].value[i], k) == 1
  }

  lemma SetSomewhereSnoc(maps: seq<Option<Bitmap>>, size: nat, i: nat, k: nat)
    requires maps != [] && i < size && k < 8
    ensures var n := |maps| - 1;
            SetSomewhere(maps, size, i, k) <==>
              SetSomewhere(maps[..n], size, i, k) || (maps[n].Some? && |maps[n].value| == size && Bit(maps[n].value[i], k) == 1)
  {
    hide Bit;
    var n := |maps| - 1;
    if SetSomewhere(maps, size, i, k) {
      var j :| 0 <= j < |maps| && maps[j].Some? && |maps[j].value| == size && Bit(maps[j].value[i], k) == 1;
      assert j < n ==> maps[..n][j] == maps[j];
    }
    if SetSomewhere(maps[..n], size, i, k) {
      var j :| 0 <= j < n && maps[..n][j].Some? && |maps[..n][j].value| == size && Bit(maps[..n][j].value[i], k) == 1;
      assert maps[j] == maps[..n][j];
    }
  }

  lemma {:induction false} NoMapYet(maps: seq<Option<Bitmap>>)
    requires MapAfter(maps) == None
    ensures forall j :: 0 <= j < |maps| ==> maps[j] == None
  {
    if maps != [] {
      NoMapYet(maps[..|maps| - 1]);
    }
  }

  lemma BitOfMerged(data: Bitmap, other: Option<Bitmap>, i: nat, k: nat)
    requires i < |data|
    ensures var r := Merged(Some(data), other).value;
            |r| == |data| && (Bit(r[i], k) == 1 <==>
              Bit(data[i], k) == 1 || (other.Some? && |other.value| == |data| && Bit(other.value[i], k) == 1))
  {
    hide Bit;
    if other.Some? && |other.value| == |data| { BitOfOr(data[i], other.value[i], k); }
  }

  /** After any run of merges the map is the bitwise or of all maps of its size: a bit is
      set if and only if some merged map has it. */
  lemma {:induction false} MapIsUnion(maps: seq<Option<Bitmap>>, i: nat, k: nat)
    requires MapAfter(maps).Some? && i < |MapAfter(maps).value| && k < 8
    ensures Bit(MapAfter(maps).value[i], k) == 1 <==> SetSomewhere(maps, |MapAfter(maps).value|, i, k)
  {
    hide Bit, SetSomewhere, Or;
    var n := |maps| - 1;
    var before, last, size := MapAfter(maps[..n]), maps[n], |MapAfter(maps).value|;
    SetSomewhereSnoc(maps, size, i, k);
    if before.None? {
      NoMapYet(maps[..n]);
      NowhereSet(maps[..n], size, i, k);
    } else {
      BitOfMerged(before.value, last, i, k);
      MapIsUnion(maps[..n], i, k);
    }
  }

  lemma NowhereSet(maps: seq<Option<Bitmap>>, size: nat, i: nat, k: nat)
    requires i < size && k < 8 && forall j :: 0 <= j < |maps| ==> maps[j] == None
    ensures !SetSomewhere(maps, size, i, k)
  {
  }

  /** New coverage is reported at most once per bit, and once for the first map. */
  lemma {:induction false} ReportsBounded(maps: seq<Option<Bitmap>>)
    ensures MapAfter(maps).None? ==> ReportsIn(maps) == 0
    ensures MapAfter(maps).Some? ==> ReportsIn(maps) <= Weight(MapAfter(maps).value) + 1
    ensures MapAfter(maps).Some? ==> ReportsIn(maps) <= 8 * |MapAfter(maps).value| + 1
  {
    hide Weight, Ones;
    if maps != [] {
      var before, last := MapAfter(maps[..|maps| - 1]), maps[|maps| - 1];
      ReportsBounded(maps[..|maps| - 1]);
      if before.Some? && last.Some? && |before.value| == |last.value| {
        OrWeight(before.value, last.value);
      }
    }
  }
}
