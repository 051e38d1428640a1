/**
 * Column-level primitives shared by the readers and the shaping stage:
 * floating-point cells, 32-bit patterns, `interleaveColumns` and the
 * little-endian 64-bit `view` of an interleaved pair of 32-bit columns and
 * `minmax()`.
 */
module Columns {
  import opened Wrappers

  /**
   * A Float32 cell: NaN or a finite value. Rounding to 32 bits is not
   * modelled; only NaN-ness and order matter to the code modelled here.
   */
  datatype Float = NaN | Fin(value: real)

  predicate IsNaN(f: Float) { f.NaN? }

  const TWO32: int := 0x1_0000_0000
  const TWO31: int := 0x8000_0000

  /** The bit pattern of a 32-bit cell, read as an unsigned number. */
  type u32 = x: int | 0 <= x < 0x1_0000_0000

  /** The bit pattern of a 64-bit cell, read as an unsigned number. */
  type u64 = x: int | 0 <= x < 0x1_0000_0000_0000_0000

  /** Storing an integer into an Int32 column keeps its low 32 bits. */
  function Bits32(v: int): (b: u32)
    ensures 0 <= v < TWO32 ==> b == v
    ensures (v - b) % TWO32 == 0
  {
    v % TWO32
  }

  /** Reading a 32-bit pattern back as a signed Int32 value. */
  function Int32Of(b: u32): (v: int)
    ensures -TWO31 <= v < TWO31
    ensures Bits32(v) == b
  {
    if b < TWO31 then b else b - TWO32
  }

  predicate InInt32(v: int) { -TWO31 <= v < TWO31 }

  /** Int32 conversion (JavaScript ToInt32 on an integral number): wrap to 32 bits, signed. */
  function ToInt32(v: int): (r: int)
    ensures InInt32(r)
    ensures (v - r) % TWO32 == 0
    ensures InInt32(v) ==> r == v
  {
    Int32Of(Bits32(v))
  }

  /** One 64-bit word whose low half is `lo` and high half is `hi`. */
  function Pack(lo: u32, hi: u32): (r: u64) {
    lo + hi * TWO32
  }

  function Low(w: u64): (r: u32) { w % TWO32 }

  function High(w: u64): (r: u32) { w / TWO32 }

  /** Unpacking a packed word recovers both halves exactly. */
  lemma PackUnpack(lo: u32, hi: u32)
    ensures Low(Pack(lo, hi)) == lo && High(Pack(lo, hi)) == hi
  {
    var w := lo + hi * TWO32;
    assert w / TWO32 == hi && w % TWO32 == lo by {
      assert w == hi * TWO32 + lo;
    }
  }

  /** Packing is injective: words are equal iff both halves are. */
  lemma PackInjective(lo1: u32, hi1: u32, lo2: u32, hi2: u32)
    ensures Pack(lo1, hi1) == Pack(lo2, hi2) <==> lo1 == lo2 && hi1 == hi2
  {
    PackUnpack(lo1, hi1);
    PackUnpack(lo2, hi2);
  }

  /** `interleaveColumns` of two columns: a0, b0, a1, b1, ... */
  function Interleave<T>(a: seq<T>, b: seq<T>): (r: seq<T>)
    requires |a| == |b|
    ensures |r| == 2 * |a|
    ensures forall i :: 0 <= i < |a| ==> r[2 * i] == a[i] && r[2 * i + 1] == b[i]
  {
    if a == [] then []
    else
      var t := Interleave(a[1..], b[1..]);
      assert forall i :: 1 <= i < |a| ==> t[2 * (i - 1)] == a[i] && t[2 * (i - 1) + 1] == b[i];
      [a[0], b[0]] + t
  }

  /** `view(Uint64)` of a 32-bit buffer: consecutive pairs read little-endian. */
  function View64(ws: seq<u32>): (r: seq<u64>)
    requires |ws| % 2 == 0
    ensures |r| == |ws| / 2
    ensures forall i :: 0 <= i < |r| ==> r[i] == Pack(ws[2 * i], ws[2 * i + 1])
  {
    if ws == [] then []
    else
      var t := View64(ws[2..]);
      assert forall i :: 1 <= i < |ws| / 2 ==> ws[2..][2 * (i - 1)] == ws[2 * i];
      [Pack(ws[0], ws[1])] + t
  }

  /** The packed view of two interleaved Int32 columns: word i holds a[i] low and b[i] high. */
  function PackColumns(a: seq<u32>, b: seq<u32>): (r: seq<u64>)
    requires |a| == |b|
    ensures |r| == |a|
    ensures forall i :: 0 <= i < |a| ==> Low(r[i]) == a[i] && High(r[i]) == b[i]
  {
    var r := View64(Interleave(a, b));
    assert forall i :: 0 <= i < |a| ==> Low(r[i]) == a[i] && High(r[i]) == b[i] by {
      forall i | 0 <= i < |a| ensures Low(r[i]) == a[i] && High(r[i]) == b[i] {
        PackUnpack(a[i], b[i]);
      }
    }
    r
  }

  /** Word i of the packed view is exactly the pair `(a[i], b[i])` packed. */
  lemma PackedColumns(a: seq<u32>, b: seq<u32>)
    requires |a| == |b|
    ensures forall i :: 0 <= i < |a| ==> PackColumns(a, b)[i] == Pack(a[i], b[i])
  {
    var r := PackColumns(a, b);
    forall i | 0 <= i < |a|
      ensures r[i] == Pack(a[i], b[i])
    {
      var w := r[i];
      assert w == Low(w) + High(w) * TWO32;
    }
  }

  function Min(a: real, b: real): (r: real) { if a <= b then a else b }

  function Max(a: real, b: real): (r: real) { if a >= b then a else b }

  /**
   * `minmax()` of a float column: the least and greatest value. There is
   * none for an empty column or one holding NaN.
   */
  function MinMax(xs: seq<Float>): (r: Option<(real, real)>)
    ensures r.Some? <==> xs != [] && forall i :: 0 <= i < |xs| ==> xs[i].Fin?
    ensures r.Some? ==> forall i :: 0 <= i < |xs| ==> r.value.0 <= xs[i].value <= r.value.1
    ensures r.Some? ==> (exists i :: 0 <= i < |xs| && xs[i].value == r.value.0)
                        && (exists i :: 0 <= i < |xs| && xs[i].value == r.value.1)
  {
    if xs == [] || xs[0].NaN? then None
    else if |xs| == 1 then Some((xs[0].value, xs[0].value))
    else
      var t := MinMax(xs[1..]);
      assert forall i :: 1 <= i < |xs| ==> xs[i] == xs[1..][i - 1];
      match t
      case None => None
      case Some(p) =>
        assert exists i :: 1 <= i < |xs| && xs[i].value == p.0 by {
          var j :| 0 <= j < |xs[1..]| && xs[1..][j].value == p.0;
          assert xs[j + 1].value == p.0;
        }
        assert exists i :: 1 <= i < |xs| && xs[i].value == p.1 by {
          var j :| 0 <= j < |xs[1..]| && xs[1..][j].value == p.1;
          assert xs[j + 1].value == p.1;
        }
        Some((Min(xs[0].value, p.0), Max(xs[0].value, p.1)))
  }

  /** `[xMin, xMax, yMin, yMax]`. */
  datatype BBox = BBox(xMin: real, xMax: real, yMin: real, yMax: real)

  /** `[...x.minmax(), ...y.minmax()]`: none when either column has no minimum and maximum. */
  function Box(xs: seq<Float>, ys: seq<Float>): (r: Option<BBox>) {
    match (MinMax(xs), MinMax(ys))
    case (Some(x), Some(y)) => Some(BBox(x.0, x.1, y.0, y.1))
    case _ => None
  }
}
