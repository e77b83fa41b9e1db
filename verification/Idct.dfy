/** The inverse DCT of a block (block_idct): the fixed-point butterfly, its distance from exact
    rational arithmetic, and the inputs for which no 32-bit variable overflows. */
module Idct {
  import opened Machine

  // The constants of the algorithm, scaled by 4096.
  const M13: int := 5792
  const M2: int := 4433
  const M4: int := 10703
  const M5: int := 7568

  /** Eight values of a row or column; `aK` belongs to coefficient K or to sample K. */
  datatype Eight = Eight(a0: int, a1: int, a2: int, a3: int, a4: int, a5: int, a6: int, a7: int)

  /** Four values. */
  datatype Four = Four(b0: int, b1: int, b2: int, b3: int)

  /** `x * c >> 12` on 32-bit integers. */
  function Scale(x: int, c: int): int {
    I32(x * c) / 4096
  }

  /** The even half of the butterfly. */
  function Even(v0: int, v1: int, v2: int, v3: int): Four {
    var t10 := I32(v0 + v2);
    var t12 := I32(v0 - v2);
    var t := Scale(I32(v1 - v3), M13);
    var s := I32(v3 + v1);
    var t11 := I32(t - s);
    Four(I32(t10 + s), I32(t11 + t12), I32(t12 - t11), I32(t10 - s))
  }

  /** The odd half; the results are the final values of v7, v6, v5 and v4. */
  function Odd(v4: int, v5: int, v6: int, v7: int): Four {
    var t10 := I32(v5 - v4);
    var t11 := I32(v5 + v4);
    var t12 := I32(v6 - v7);
    var s := I32(v7 + v6);
    var u := Scale(I32(t11 - s), M13);
    var w7 := I32(s + t11);
    var t13 := Scale(I32(t10 + t12), M5);
    var x := I32(t13 - Scale(t10, M2));
    var w6 := I32(I32(t13 - Scale(t12, M4)) - w7);
    var w5 := I32(u - w6);
    Four(w7, w6, w5, I32(x - w5))
  }

  function Butterfly(v: Eight): Eight {
    var e := Even(v.a0, v.a2, v.a4, v.a6);
    var o := Odd(v.a7, v.a1, v.a5, v.a3);
    Eight(I32(e.b0 + o.b0), I32(e.b1 + o.b1), I32(e.b2 + o.b2), I32(e.b3 + o.b3),
          I32(e.b3 - o.b3), I32(e.b2 - o.b2), I32(e.b1 - o.b1), I32(e.b0 - o.b0))
  }

  // ----- the same butterfly without rounding and without a word size, scaled by 4096 -----

  function IdealEven(v0: int, v1: int, v2: int, v3: int): Four {
    var s := 4096 * (v1 + v3);
    var t := M13 * (v1 - v3) - s;
    Four(4096 * (v0 + v2) + s, t + 4096 * (v0 - v2), 4096 * (v0 - v2) - t, 4096 * (v0 + v2) - s)
  }

  function IdealOdd(v4: int, v5: int, v6: int, v7: int): Four {
    var t10 := v5 - v4;
    var t12 := v6 - v7;
    var w7 := 4096 * (v4 + v5 + v6 + v7);
    var t13 := M5 * (t10 + t12);
    var w6 := t13 - M4 * t12 - w7;
    var w5 := M13 * (v5 + v4 - v7 - v6) - w6;
    Four(w7, w6, w5, t13 - M2 * t10 - w5)
  }

  function Ideal(v: Eight): Eight {
    var e := IdealEven(v.a0, v.a2, v.a4, v.a6);
    var o := IdealOdd(v.a7, v.a1, v.a5, v.a3);
    Eight(e.b0 + o.b0, e.b1 + o.b1, e.b2 + o.b2, e.b3 + o.b3,
          e.b3 - o.b3, e.b2 - o.b2, e.b1 - o.b1, e.b0 - o.b0)
  }

  // ----- overflow -----

  /** The largest magnitude for which no step can overflow. */
  const LIMIT: int := 70939

  /** The level shift added to the first value of every row. */
  const SHIFT: int := 0x8000

  predicate Fits(x: int) {
    -0x8000_0000 <= x < 0x8000_0000
  }

  predicate Within(v: Eight, m: int, m0: int) {
    && -m0 <= v.a0 <= m0 && -m <= v.a1 <= m && -m <= v.a2 <= m && -m <= v.a3 <= m
    && -m <= v.a4 <= m && -m <= v.a5 <= m && -m <= v.a6 <= m && -m <= v.a7 <= m
  }

  /** Every value an even half computes fits 32 bits. */
  predicate EvenFits(v0: int, v1: int, v2: int, v3: int) {
    var t := (v1 - v3) * M13 / 4096 - (v1 + v3);
    && Fits(v0 + v2) && Fits(v0 - v2) && Fits(v1 - v3) && Fits((v1 - v3) * M13) && Fits(v3 + v1) && Fits(t)
    && Fits(v0 + v2 + (v1 + v3)) && Fits(v0 + v2 - (v1 + v3)) && Fits(t + (v0 - v2)) && Fits(v0 - v2 - t)
  }

  /** Every value an odd half computes fits 32 bits. */
  predicate OddFits(v4: int, v5: int, v6: int, v7: int) {
    var t10 := v5 - v4;
    var t12 := v6 - v7;
    var u := v5 + v4 - (v7 + v6);
    var w7 := v7 + v6 + (v5 + v4);
    && Fits(t10) && Fits(v5 + v4) && Fits(t12) && Fits(v7 + v6) && Fits(u) && Fits(u * M13) && Fits(w7)
    && Fits(t10 + t12) && Fits((t10 + t12) * M5) && Fits(t10 * M2) && Fits(t12 * M4)
    && var t13 := (t10 + t12) * M5 / 4096;
       var y := t13 - t12 * M4 / 4096;
       && Fits(t13 - t10 * M2 / 4096) && Fits(y) && Fits(y - w7) && Fits(u * M13 / 4096 - (y - w7))
       && Fits(t13 - t10 * M2 / 4096 - (u * M13 / 4096 - (y - w7)))
  }

  /** No step of the butterfly overflows. */
  predicate NoOverflow(v: Eight) {
    && EvenFits(v.a0, v.a2, v.a4, v.a6) && OddFits(v.a7, v.a1, v.a5, v.a3)
    && var e := Even(v.a0, v.a2, v.a4, v.a6);
       var o := Odd(v.a7, v.a1, v.a5, v.a3);
       && Fits(e.b0 + o.b0) && Fits(e.b1 + o.b1) && Fits(e.b2 + o.b2) && Fits(e.b3 + o.b3)
       && Fits(e.b3 - o.b3) && Fits(e.b2 - o.b2) && Fits(e.b1 - o.b1) && Fits(e.b0 - o.b0)
  }

  lemma Floor(x: int)
    ensures 4096 * (x / 4096) <= x < 4096 * (x / 4096) + 4096
  {
  }

  /** Distance in units of 1/4096. */
  predicate Near(x: int, ideal: int, lo: int, hi: int) {
    -4096 * lo < 4096 * x - ideal < 4096 * hi
  }

  lemma EvenNear(v0: int, v1: int, v2: int, v3: int)
    requires EvenFits(v0, v1, v2, v3)
    ensures var (e, i) := (Even(v0, v1, v2, v3), IdealEven(v0, v1, v2, v3));
      && 4096 * e.b0 == i.b0 && 4096 * e.b3 == i.b3
      && -4096 < 4096 * e.b1 - i.b1 <= 0 && 0 <= 4096 * e.b2 - i.b2 < 4096
  {
    Floor((v1 - v3) * M13);
  }

  /** The results of the odd half from its four rounded products. */
  function OddFrom(w7: int, qu: int, q5: int, q2: int, q4: int): Four {
    var w6 := q5 - q4 - w7;
    var w5 := qu - w6;
    Four(w7, w6, w5, q5 - q2 - w5)
  }

  /** Without overflow the wrapping plays no part. */
  lemma OddUnwrapped(v4: int, v5: int, v6: int, v7: int)
    requires OddFits(v4, v5, v6, v7)
    ensures Odd(v4, v5, v6, v7) ==
      OddFrom(v7 + v6 + (v5 + v4), (v5 + v4 - (v7 + v6)) * M13 / 4096, (v5 - v4 + (v6 - v7)) * M5 / 4096,
              (v5 - v4) * M2 / 4096, (v6 - v7) * M4 / 4096)
  {
    Unwrapped();
  }

  /** What fits is not wrapped. */
  lemma Unwrapped()
    ensures forall x :: Fits(x) ==> I32(x) == x
  {
  }

  /** `q` is `x / 4096` rounded down. */
  predicate Rounded(q: int, x: int) {
    4096 * q <= x < 4096 * q + 4096
  }

  lemma OddErrors(t10: int, t12: int, u: int, w7: int, qu: int, q5: int, q2: int, q4: int)
    requires Rounded(qu, u * M13) && Rounded(q5, (t10 + t12) * M5) && Rounded(q2, t10 * M2) && Rounded(q4, t12 * M4)
    ensures var (o, w6) := (OddFrom(w7, qu, q5, q2, q4), M5 * (t10 + t12) - M4 * t12 - 4096 * w7);
      var w5 := M13 * u - w6;
      && -4096 < 4096 * o.b1 - w6 < 4096
      && -2 * 4096 < 4096 * o.b2 - w5 < 4096
      && -2 * 4096 < 4096 * o.b3 - (M5 * (t10 + t12) - M2 * t10 - w5) < 3 * 4096
  {
  }

  lemma OddNear(v4: int, v5: int, v6: int, v7: int)
    requires OddFits(v4, v5, v6, v7)
    ensures var (o, i) := (Odd(v4, v5, v6, v7), IdealOdd(v4, v5, v6, v7));
      && 4096 * o.b0 == i.b0
      && -4096 < 4096 * o.b1 - i.b1 < 4096
      && -2 * 4096 < 4096 * o.b2 - i.b2 < 4096
      && -2 * 4096 < 4096 * o.b3 - i.b3 < 3 * 4096
  {
    var t10, t12, u, w7 := v5 - v4, v6 - v7, v5 + v4 - (v7 + v6), v7 + v6 + (v5 + v4);
    OddUnwrapped(v4, v5, v6, v7);
    OddErrors(t10, t12, u, w7, u * M13 / 4096, (t10 + t12) * M5 / 4096, t10 * M2 / 4096, t12 * M4 / 4096);
  }

  /** Each of two sequences of eight is within `d` of the other, in units of 1/4096. */
  predicate Close(x: Eight, ideal: Eight, d: int) {
    && Near(x.a0, ideal.a0, d, d) && Near(x.a1, ideal.a1, d, d) && Near(x.a2, ideal.a2, d, d)
    && Near(x.a3, ideal.a3, d, d) && Near(x.a4, ideal.a4, d, d) && Near(x.a5, ideal.a5, d, d)
    && Near(x.a6, ideal.a6, d, d) && Near(x.a7, ideal.a7, d, d)
  }

  /** Without overflow, every result is less than 3 away from exact rational arithmetic. */
  lemma ButterflyNear(v: Eight)
    requires NoOverflow(v)
    ensures Close(Butterfly(v), Ideal(v), 3)
  {
    EvenNear(v.a0, v.a2, v.a4, v.a6);
    OddNear(v.a7, v.a1, v.a5, v.a3);
  }

  lemma EvenSafe(v0: int, v1: int, v2: int, v3: int)
    requires -(LIMIT + SHIFT) <= v0 <= LIMIT + SHIFT
    requires -LIMIT <= v1 <= LIMIT && -LIMIT <= v2 <= LIMIT && -LIMIT <= v3 <= LIMIT
    ensures EvenFits(v0, v1, v2, v3)
    ensures var e := Even(v0, v1, v2, v3);
      -600000 <= e.b0 <= 600000 && -600000 <= e.b1 <= 600000 && -600000 <= e.b2 <= 600000 && -600000 <= e.b3 <= 600000
  {
    Floor((v1 - v3) * M13);
  }

  lemma OddProductsFit(t10: int, t12: int, u: int)
    requires -2 * LIMIT <= t10 <= 2 * LIMIT && -2 * LIMIT <= t12 <= 2 * LIMIT && -4 * LIMIT <= u <= 4 * LIMIT
    ensures Fits(u * M13) && Fits((t10 + t12) * M5) && Fits(t10 * M2) && Fits(t12 * M4)
    ensures -500000 <= u * M13 / 4096 <= 500000 && -600000 <= (t10 + t12) * M5 / 4096 <= 600000
    ensures -200000 <= t10 * M2 / 4096 <= 200000 && -400000 <= t12 * M4 / 4096 <= 400000
  {
  }

  lemma OddInRange(v4: int, v5: int, v6: int, v7: int)
    requires -LIMIT <= v4 <= LIMIT && -LIMIT <= v5 <= LIMIT && -LIMIT <= v6 <= LIMIT && -LIMIT <= v7 <= LIMIT
    ensures OddFits(v4, v5, v6, v7)
  {
    var (t10, t12, u) := (v5 - v4, v6 - v7, v5 + v4 - (v7 + v6));
    OddProductsFit(t10, t12, u);
    OddSumsFit(v7 + v6 + (v5 + v4), u * M13 / 4096, (t10 + t12) * M5 / 4096, t10 * M2 / 4096, t12 * M4 / 4096);
  }

  lemma OddSumsFit(w7: int, qu: int, q5: int, q2: int, q4: int)
    requires -4 * LIMIT <= w7 <= 4 * LIMIT && -500000 <= qu <= 500000 && -600000 <= q5 <= 600000
    requires -200000 <= q2 <= 200000 && -400000 <= q4 <= 400000
    ensures Fits(q5 - q2) && Fits(q5 - q4) && Fits(q5 - q4 - w7) && Fits(qu - (q5 - q4 - w7)) && Fits(q5 - q2 - (qu - (q5 - q4 - w7)))
  {
  }

  lemma OddSafe(v4: int, v5: int, v6: int, v7: int)
    requires -LIMIT <= v4 <= LIMIT && -LIMIT <= v5 <= LIMIT && -LIMIT <= v6 <= LIMIT && -LIMIT <= v7 <= LIMIT
    ensures OddFits(v4, v5, v6, v7)
    ensures var o := Odd(v4, v5, v6, v7);
      && -2000000 <= o.b0 <= 2000000 && -2000000 <= o.b1 <= 2000000
      && -2000000 <= o.b2 <= 2000000 && -4000000 <= o.b3 <= 4000000
  {
    OddInRange(v4, v5, v6, v7);
    OddProductsFit(v5 - v4, v6 - v7, v5 + v4 - (v7 + v6));
    OddUnwrapped(v4, v5, v6, v7);
  }

  /** Inputs up to the limit are safe, also with the level shift of the row pass on the first one. */
  lemma LimitIsSafe(v: Eight)
    requires Within(v, LIMIT, LIMIT + SHIFT)
    ensures NoOverflow(v)
  {
    EvenSafe(v.a0, v.a2, v.a4, v.a6);
    OddSafe(v.a7, v.a1, v.a5, v.a3);
  }

  /** A bound on the inputs excludes overflow exactly when it does not exceed the limit. */
  lemma SafeBoundIsLimit(m: int)
    requires m >= 0
    ensures (forall v: Eight :: Within(v, m, m) ==> NoOverflow(v)) <==> m <= LIMIT
  {
    if m <= LIMIT {
      forall v: Eight | Within(v, m, m) ensures NoOverflow(v) {
        LimitIsSafe(v);
      }
    } else {
      var v := Eight(0, m, 0, -m, 0, m, 0, -m);
      assert Within(v, m, m) && !Fits((m + m + (m + m)) * M5);
    }
  }

  // ----- a whole block -----

  function Lane(e: Eight, k: nat): int {
    match k
    case 0 => e.a0 case 1 => e.a1 case 2 => e.a2 case 3 => e.a3
    case 4 => e.a4 case 5 => e.a5 case 6 => e.a6 case _ => e.a7
  }

  function Column(m: seq<int>, c: nat): Eight
    requires |m| == 64 && c < 8
  {
    Eight(m[c], m[8 + c], m[16 + c], m[24 + c], m[32 + c], m[40 + c], m[48 + c], m[56 + c])
  }

  /** A row as the row pass reads it, with the level shift of 128 (scaled by 256) on its first value. */
  function Row(m: seq<int>, r: nat): Eight
    requires |m| == 64 && r < 8
  {
    Eight(I32(m[8 * r] + SHIFT), m[8 * r + 1], m[8 * r + 2], m[8 * r + 3],
          m[8 * r + 4], m[8 * r + 5], m[8 * r + 6], m[8 * r + 7])
  }

  function ColumnPass(f: Eight -> Eight, m: seq<int>): (s: seq<int>)
    requires |m| == 64
    ensures |s| == 64
  {
    seq(64, k requires 0 <= k < 64 => Lane(f(Column(m, k % 8)), k / 8))
  }

  /** The saturation table: 0..255, then 255 up to 511, then 0. */
  function Clip8(i: nat): byte {
    if i < 256 then i else if i < 512 then 255 else 0
  }

  /** The table indexed with the low ten bits of a value. */
  function ByteClip(v: int): byte {
    Clip8(v % 1024)
  }

  function Clamp(v: int): nat {
    if v < 0 then 0 else if v > 255 then 255 else v
  }

  /** The table saturates exactly the values from -512 to 511, and beyond them those whose low ten
      bits happen to fall on the right side. */
  lemma ClipSaturates(v: int)
    ensures ByteClip(v) == Clamp(v) <==>
      (-512 <= v < 512 || (v >= 512 && 255 <= v % 1024 < 512) || (v < -512 && (v % 1024 == 0 || v % 1024 >= 512)))
  {
    if 0 <= v < 1024 {
      ModUnique(v, 1024, 0, v);
    } else if -1024 <= v < 0 {
      ModUnique(v, 1024, -1, v + 1024);
    }
  }

  function RowPass(f: Eight -> Eight, s: seq<int>): (b: seq<byte>)
    requires |s| == 64
    ensures |b| == 64
  {
    seq<byte>(64, k requires 0 <= k < 64 => ByteClip(Lane(f(Row(s, k / 8)), k % 8) / 256))
  }

  /** The samples of a block. */
  function Samples(m: seq<int>): (b: seq<byte>)
    requires |m| == 64
    ensures |b| == 64
  {
    RowPass(Butterfly, ColumnPass(Butterfly, m))
  }

  /** Column pass in place, row pass into the 64 bytes of `dst` from `at` on. */
  method BlockIdct(src: array<int>, dst: array<byte>, at: nat)
    requires src.Length == 64 && at + 64 <= dst.Length
    modifies src, dst
    ensures dst[at..at + 64] == Samples(old(src[..]))
    ensures forall j :: 0 <= j < dst.Length && !(at <= j < at + 64) ==> dst[j] == old(dst[j])
  {
    ColumnsInPlace(Butterfly, src);
    RowsOut(Butterfly, src, dst, at);
  }

  method ColumnsInPlace(f: Eight -> Eight, src: array<int>)
    requires src.Length == 64
    modifies src
    ensures src[..] == ColumnPass(f, old(src[..]))
  {
    ghost var m := src[..];
    for i := 0 to 8
      invariant forall k :: 0 <= k < 64 ==> src[k] == if k % 8 < i then Lane(f(Column(m, k % 8)), k / 8) else m[k]
    {
      var v := Eight(src[i], src[8 + i], src[16 + i], src[24 + i], src[32 + i], src[40 + i], src[48 + i], src[56 + i]);
      assert v == Column(m, i);
      WriteColumn(f(v), src, i);
    }
  }

  method WriteColumn(b: Eight, src: array<int>, i: nat)
    requires src.Length == 64 && i < 8
    modifies src
    ensures forall k :: 0 <= k < 64 ==> src[k] == if k % 8 == i then Lane(b, k / 8) else old(src[k])
  {
    src[i], src[8 + i], src[16 + i], src[24 + i] := b.a0, b.a1, b.a2, b.a3;
    src[32 + i], src[40 + i], src[48 + i], src[56 + i] := b.a4, b.a5, b.a6, b.a7;
  }

  method RowsOut(f: Eight -> Eight, src: array<int>, dst: array<byte>, at: nat)
    requires src.Length == 64 && at + 64 <= dst.Length
    modifies dst
    ensures dst[at..at + 64] == RowPass(f, src[..])
    ensures forall j :: 0 <= j < dst.Length && !(at <= j < at + 64) ==> dst[j] == old(dst[j])
  {
    ghost var s := src[..];
    var d := at;
    for i := 0 to 8
      invariant src[..] == s && d == at + 8 * i
      invariant forall j :: at <= j < d ==> dst[j] == RowPass(f, s)[j - at]
      invariant forall j :: 0 <= j < dst.Length && !(at <= j < d) ==> dst[j] == old(dst[j])
    {
      var v := Eight(I32(src[8 * i] + SHIFT), src[8 * i + 1], src[8 * i + 2], src[8 * i + 3],
                     src[8 * i + 4], src[8 * i + 5], src[8 * i + 6], src[8 * i + 7]);
      assert v == Row(s, i);
      var b := f(v);
      RowOut(b, dst, d);
      forall c {:trigger Lane(b, c)} | 0 <= c < 8 ensures ByteClip(Lane(b, c) / 256) == RowPass(f, s)[8 * i + c] {
        assert (8 * i + c) / 8 == i && (8 * i + c) % 8 == c;
      }
      d := d + 8;
    }
  }

  method RowOut(b: Eight, dst: array<byte>, d: nat)
    requires d + 8 <= dst.Length
    modifies dst
    ensures forall j :: 0 <= j < dst.Length ==>
      dst[j] == if d <= j < d + 8 then ByteClip(Lane(b, j - d) / 256) else old(dst[j])
  {
    dst[d], dst[d + 7] := ByteClip(b.a0 / 256), ByteClip(b.a7 / 256);
    dst[d + 1], dst[d + 6] := ByteClip(b.a1 / 256), ByteClip(b.a6 / 256);
    dst[d + 2], dst[d + 5] := ByteClip(b.a2 / 256), ByteClip(b.a5 / 256);
    dst[d + 3], dst[d + 4] := ByteClip(b.a3 / 256), ByteClip(b.a4 / 256);
  }
}
