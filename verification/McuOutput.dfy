/** The output of an MCU (mcu_output). The working buffer for the RGB pixels and the buffer of the
    decoded blocks are adjacent, and the RGB pixels of an MCU of two or four Y blocks overrun the
    first into the second. All passes work in place. */
module McuOutput {
  import opened Machine
  import opened Sequences
  import Idct
  import HuffmanBuild

  datatype Rgb = Rgb(r: byte, g: byte, b: byte)

  /** A picture without bounds: the pixel in each column and row. */
  type Picture = (nat, nat) -> Rgb

  // ----- rows of pixels -----

  /** The first `n` pixels of row `y`. */
  ghost function Row(f: Picture, y: nat, n: nat): (s: seq<Rgb>)
    ensures |s| == n
  {
    if n == 0 then [] else Row(f, y, n - 1) + [f(n - 1, y)]
  }

  /** The first `h` rows of `w` pixels, one after the other. */
  ghost function Rows(f: Picture, w: nat, h: nat): seq<Rgb> {
    if h == 0 then [] else Rows(f, w, h - 1) + Row(f, h - 1, w)
  }

  /** The place of pixel (x, y) in rows of `w` pixels. */
  function Index(w: nat, x: nat, y: nat): nat
    decreases y
  {
    if y == 0 then x else Index(w, x, y - 1) + w
  }

  lemma {:induction false} IndexIs(w: nat, x: nat, y: nat)
    ensures Index(w, x, y) == y * w + x
    decreases y
  {
    if y > 0 { IndexIs(w, x, y - 1); }
  }

  lemma {:induction false} IndexRight(w: nat, x: nat, y: nat, u: nat)
    requires x <= u
    ensures Index(w, u, y) == Index(w, x, y) + (u - x)
    decreases y
  {
    if y > 0 { IndexRight(w, x, y - 1, u); }
  }

  lemma {:induction false} IndexBelow(w: nat, x: nat, y: nat, j: nat)
    ensures Index(w, x, y) <= Index(w, x, y + j)
    decreases j
  {
    if j > 0 { IndexBelow(w, x, y, j - 1); }
  }

  lemma {:induction false} RowAt(f: Picture, y: nat, n: nat, x: nat)
    requires x < n
    ensures Row(f, y, n)[x] == f(x, y)
    decreases n
  {
    if x < n - 1 { RowAt(f, y, n - 1, x); }
  }

  lemma {:induction false} RowsLength(f: Picture, w: nat, h: nat)
    ensures |Rows(f, w, h)| == Index(w, 0, h)
  {
    if h > 0 { RowsLength(f, w, h - 1); }
  }

  lemma {:induction false} RowsPrefix(f: Picture, w: nat, m: nat, h: nat)
    requires m <= h
    ensures Rows(f, w, m) <= Rows(f, w, h)
    decreases h
  {
    if m < h { RowsPrefix(f, w, m, h - 1); }
  }

  /** Pictures that agree in a rectangle have the same rows in it. */
  lemma {:induction false} RowsAgree(f: Picture, g: Picture, w: nat, h: nat)
    requires forall x: nat, y: nat :: x < w && y < h ==> f(x, y) == g(x, y)
    ensures Rows(f, w, h) == Rows(g, w, h)
    decreases h
  {
    if h > 0 {
      RowsAgree(f, g, w, h - 1);
      RowAgrees(f, g, h - 1, w);
    }
  }

  lemma {:induction false} RowAgrees(f: Picture, g: Picture, y: nat, n: nat)
    requires forall x: nat :: x < n ==> f(x, y) == g(x, y)
    ensures Row(f, y, n) == Row(g, y, n)
    decreases n
  {
    if n > 0 { RowAgrees(f, g, y, n - 1); }
  }

  /** Every pixel stands at its place. */
  lemma RowsAt(f: Picture, w: nat, h: nat, x: nat, y: nat)
    requires x < w && y < h
    ensures Index(w, x, y) < |Rows(f, w, h)| && Rows(f, w, h)[Index(w, x, y)] == f(x, y)
  {
    RowsLength(f, w, y);
    RowAt(f, y, w, x);
    IndexRight(w, 0, y, x);
    RowsPrefix(f, w, y + 1, h);
    var k := Index(w, x, y);
    assert Rows(f, w, y + 1)[k] == Row(f, y, w)[x];
    assert Rows(f, w, h)[k] == Rows(f, w, y + 1)[k];
  }

  /** One more pixel, row by row. */
  lemma NextPixel(f: Picture, w: nat, y: nat, x: nat)
    ensures Rows(f, w, y) + Row(f, y, x) + [f(x, y)] == Rows(f, w, y) + Row(f, y, x + 1)
  {
  }

  // ----- colours -----

  const CVACC: nat := 128

  /** YCbCr to RGB in fixed point. */
  function Convert(yy: byte, b: byte, r: byte): Rgb {
    var cb, cr := b - 128, r - 128;
    Rgb(Idct.ByteClip(yy + CDiv(179 * cr, CVACC)),
        Idct.ByteClip(yy - CDiv(44 * cb + 91 * cr, CVACC)),
        Idct.ByteClip(yy + CDiv(226 * cb, CVACC)))
  }

  /** The clipping table saturates every colour exactly. */
  lemma ConvertSaturates(yy: byte, b: byte, r: byte)
    ensures var (cb, cr) := (b - 128, r - 128);
      Convert(yy, b, r) == Rgb(Idct.Clamp(yy + CDiv(179 * cr, CVACC)),
                               Idct.Clamp(yy - CDiv(44 * cb + 91 * cr, CVACC)),
                               Idct.Clamp(yy + CDiv(226 * cb, CVACC)))
  {
    var cb, cr := b - 128, r - 128;
    Idct.ClipSaturates(yy + CDiv(179 * cr, CVACC));
    Idct.ClipSaturates(yy - CDiv(44 * cb + 91 * cr, CVACC));
    Idct.ClipSaturates(yy + CDiv(226 * cb, CVACC));
  }

  /** Five, six and five bits: the high bits of each channel. */
  function Pack565(p: Rgb): (w: nat)
    ensures w < TWO16
  {
    p.r / 8 * 8 * 256 + p.g / 4 * 4 * 8 + p.b / 8
  }

  lemma Pack565Fields(p: Rgb)
    ensures var w := Pack565(p);
      w / 2048 == p.r / 8 && w / 32 % 64 == p.g / 4 && w % 32 == p.b / 8
  {
    var (a, b, c, w) := (p.r / 8, p.g / 4, p.b / 8, Pack565(p));
    ModUnique(w, 2048, a, 32 * b + c);
    ModUnique(w, 32, 64 * a + b, c);
    ModUnique(64 * a + b, 64, a, b);
  }

  // ----- the decoded blocks -----

  /** Sizes of an MCU that the decoder accepts: 1x1, 2x1 or 2x2 Y blocks. */
  predicate Sampling(mx: nat, my: nat) {
    (mx == 8 && my == 8) || (mx == 16 && (my == 8 || my == 16))
  }

  /** The number of Y blocks. */
  function Blocks(mx: nat, my: nat): nat {
    if mx == 8 then 1 else if my == 8 then 2 else 4
  }

  /** Size of the working buffer for the IDCT and the RGB output, as jd_prepare allocates it. */
  function WorkSize(n: nat): nat {
    Max(n * 64 * 2 + 64, 256)
  }

  /** Size of the buffer of the decoded blocks. */
  function McuSize(n: nat): nat {
    (n + 2) * 64
  }

  /** The buffers at the end of jd_prepare: the sizes are whole words, so the second begins right where
      the first ends. */
  method AllocBuffers(ts: HuffmanBuild.TableStore, mx: nat, my: nat) returns (rc: int, workbuf: nat, mcubuf: nat)
    requires Sampling(mx, my)
    modifies ts`szPool, ts`pool
    ensures var n := Blocks(mx, my);
      rc == if WorkSize(n) + McuSize(n) <= old(ts.szPool) then HuffmanBuild.JDR_OK else HuffmanBuild.JDR_MEM1
    ensures rc == HuffmanBuild.JDR_OK <==> old(ts.szPool) >= if mx == 8 then 448 else if my == 8 then 576 else 960
    ensures rc == HuffmanBuild.JDR_OK ==> workbuf == old(ts.pool) && mcubuf == workbuf + WorkSize(Blocks(mx, my))
  {
    var n := Blocks(mx, my);
    mcubuf := 0;
    var ok;
    ok, workbuf := ts.AllocPool(WorkSize(n));
    if !ok { return HuffmanBuild.JDR_MEM1, workbuf, mcubuf; }
    ok, mcubuf := ts.AllocPool(McuSize(n));
    rc := if ok then HuffmanBuild.JDR_OK else HuffmanBuild.JDR_MEM1;
  }

  /** Where the Y sample of pixel (x, y) is: its block, and its place in the block. */
  function YIndex(mx: nat, x: nat, y: nat): nat {
    ((if mx == 16 then 2 * (y / 8) else y / 8) + x / 8) * 64 + y % 8 * 8 + x % 8
  }

  /** Where its Cb sample is; the Cr sample is one block further. */
  function CIndex(mx: nat, my: nat, x: nat, y: nat): nat {
    Blocks(mx, my) * 64 + (if my == 16 then y / 2 else y) * 8 + (if mx == 16 then x / 2 else x)
  }

  lemma IndexBounds(mx: nat, my: nat, x: nat, y: nat)
    requires Sampling(mx, my) && x < mx && y < my
    ensures YIndex(mx, x, y) < Blocks(mx, my) * 64 <= CIndex(mx, my, x, y)
    ensures CIndex(mx, my, x, y) + 64 < McuSize(Blocks(mx, my))
  {
  }

  /** Pixel (x, y) of the MCU whose decoded blocks are `mcu`. */
  function PixelOf(mcu: seq<byte>, mx: nat, my: nat, x: nat, y: nat): Rgb {
    if Sampling(mx, my) && |mcu| == McuSize(Blocks(mx, my)) && x < mx && y < my then
      IndexBounds(mx, my, x, y);
      Convert(mcu[YIndex(mx, x, y)], mcu[CIndex(mx, my, x, y)], mcu[CIndex(mx, my, x, y) + 64])
    else Rgb(0, 0, 0)
  }

  /** The first sample of every block is all that 1/8 scaling looks at. */
  function CornerOf(mcu: seq<byte>, mx: nat, my: nat, x: nat, y: nat): Rgb {
    if Sampling(mx, my) && |mcu| == McuSize(Blocks(mx, my)) && 8 * x < mx && 8 * y < my then
      IndexBounds(mx, my, 8 * x, 8 * y);
      var n := Blocks(mx, my);
      Convert(mcu[YIndex(mx, 8 * x, 8 * y)], mcu[n * 64], mcu[n * 64 + 64])
    else Rgb(0, 0, 0)
  }

  ghost function Decoded(mcu: seq<byte>, mx: nat, my: nat): Picture {
    (x: nat, y: nat) => PixelOf(mcu, mx, my, x, y)
  }

  ghost function Corners(mcu: seq<byte>, mx: nat, my: nat): Picture {
    (x: nat, y: nat) => CornerOf(mcu, mx, my, x, y)
  }

  // ----- what the pixels are, without the indices and the conversion above -----

  /** The colour of a Y, a Cb and a Cr sample: 1.402 Cr, 0.344 Cb and 0.714 Cr, and 1.772 Cb in units
      of 1/128, saturated. */
  predicate Coloured(p: Rgb, yy: int, b: int, r: int) {
    && p.r == Idct.Clamp(yy + CDiv(179 * (r - 128), 128))
    && p.g == Idct.Clamp(yy - CDiv(44 * (b - 128) + 91 * (r - 128), 128))
    && p.b == Idct.Clamp(yy + CDiv(226 * (b - 128), 128))
  }

  /** Pixel (x, y) of an MCU of one, two or four Y blocks, a Cb block and a Cr block, of 64 samples each:
      its Y sample, and the chroma samples of its column and row or of the pair that it is in. */
  predicate IsPixel(p: Rgb, mcu: seq<byte>, mx: nat, my: nat, x: nat, y: nat) {
    && x < mx && y < my
    && if mx == 8 then
         |mcu| == 192 && my == 8 && Coloured(p, mcu[8 * y + x], mcu[64 + 8 * y + x], mcu[128 + 8 * y + x])
       else if my == 8 then
         && |mcu| == 256 && mx == 16
         && Coloured(p, mcu[64 * (x / 8) + 8 * y + x % 8], mcu[128 + 8 * y + x / 2], mcu[192 + 8 * y + x / 2])
       else
         && |mcu| == 384 && mx == my == 16
         && Coloured(p, mcu[128 * (y / 8) + 64 * (x / 8) + 8 * (y % 8) + x % 8],
                     mcu[256 + 8 * (y / 2) + x / 2], mcu[320 + 8 * (y / 2) + x / 2])
  }

  lemma ConvertColours(yy: byte, b: byte, r: byte)
    ensures Coloured(Convert(yy, b, r), yy, b, r)
  {
    ConvertSaturates(yy, b, r);
  }

  lemma PixelFrom(mcu: seq<byte>, mx: nat, my: nat, x: nat, y: nat, yi: nat, ci: nat)
    requires Sampling(mx, my) && |mcu| == McuSize(Blocks(mx, my)) && x < mx && y < my
    requires yi == YIndex(mx, x, y) && ci == CIndex(mx, my, x, y)
    ensures yi < |mcu| && ci + 64 < |mcu| && Coloured(PixelOf(mcu, mx, my, x, y), mcu[yi], mcu[ci], mcu[ci + 64])
  {
    IndexBounds(mx, my, x, y);
    ConvertColours(mcu[yi], mcu[ci], mcu[ci + 64]);
  }

  lemma Places(mx: nat, my: nat, x: nat, y: nat)
    requires Sampling(mx, my) && x < mx && y < my
    ensures mx == 8 ==> YIndex(mx, x, y) == 8 * y + x && CIndex(mx, my, x, y) == 64 + 8 * y + x
    ensures mx == 16 ==> YIndex(mx, x, y) == 128 * (y / 8) + 64 * (x / 8) + 8 * (y % 8) + x % 8
    ensures mx == 16 && my == 8 ==> y / 8 == 0 && y % 8 == y && CIndex(mx, my, x, y) == 128 + 8 * y + x / 2
    ensures my == 16 ==> CIndex(mx, my, x, y) == 256 + 8 * (y / 2) + x / 2
  {
  }

  lemma PixelIs(mcu: seq<byte>, mx: nat, my: nat, x: nat, y: nat)
    requires Sampling(mx, my) && |mcu| == McuSize(Blocks(mx, my)) && x < mx && y < my
    ensures IsPixel(PixelOf(mcu, mx, my, x, y), mcu, mx, my, x, y)
  {
    Places(mx, my, x, y);
    PixelFrom(mcu, mx, my, x, y, YIndex(mx, x, y), CIndex(mx, my, x, y));
  }

  /** At 1/8 scale: the first samples of a Y block, of the Cb block and of the Cr block. */
  predicate IsCorner(p: Rgb, mcu: seq<byte>, mx: nat, my: nat, x: nat, y: nat) {
    && 8 * x < mx && 8 * y < my
    && if mx == 8 then |mcu| == 192 && my == 8 && Coloured(p, mcu[0], mcu[64], mcu[128])
       else if my == 8 then |mcu| == 256 && mx == 16 && Coloured(p, mcu[64 * x], mcu[128], mcu[192])
       else |mcu| == 384 && mx == my == 16 && Coloured(p, mcu[128 * y + 64 * x], mcu[256], mcu[320])
  }

  lemma CornerFrom(mcu: seq<byte>, mx: nat, my: nat, x: nat, y: nat, yi: nat, ci: nat)
    requires Sampling(mx, my) && |mcu| == McuSize(Blocks(mx, my)) && 8 * x < mx && 8 * y < my
    requires yi == 128 * y + 64 * x && ci == Blocks(mx, my) * 64
    ensures yi < |mcu| && ci + 64 < |mcu| && Coloured(CornerOf(mcu, mx, my, x, y), mcu[yi], mcu[ci], mcu[ci + 64])
  {
    CornerPlace(mx, my, mx / 8, x, y);
    ConvertColours(mcu[yi], mcu[ci], mcu[ci + 64]);
  }

  lemma CornerIs(mcu: seq<byte>, mx: nat, my: nat, x: nat, y: nat)
    requires Sampling(mx, my) && |mcu| == McuSize(Blocks(mx, my)) && 8 * x < mx && 8 * y < my
    ensures IsCorner(CornerOf(mcu, mx, my, x, y), mcu, mx, my, x, y)
  {
    assert x <= 1 && y <= 1 && (mx == 8 ==> x == 0) && (my == 8 ==> y == 0);
    CornerColoured(CornerOf(mcu, mx, my, x, y), mcu, mx, my, x, y);
  }

  lemma CornerColoured(p: Rgb, mcu: seq<byte>, mx: nat, my: nat, x: nat, y: nat)
    requires Sampling(mx, my) && |mcu| == McuSize(Blocks(mx, my)) && 8 * x < mx && 8 * y < my
    requires x <= 1 && y <= 1 && (mx == 8 ==> x == 0) && (my == 8 ==> y == 0) && p == CornerOf(mcu, mx, my, x, y)
    ensures IsCorner(p, mcu, mx, my, x, y)
  {
    CornerFrom(mcu, mx, my, x, y, 128 * y + 64 * x, Blocks(mx, my) * 64);
  }

  // ----- averaging -----

  /** The first column or row of square number `n`, for squares of width `w`. */
  function Grown(n: nat, w: nat): nat {
    if n == 0 then 0 else Grown(n - 1, w) + w
  }

  /** The squares that become one pixel, at half and at quarter scale. */
  predicate Width(w: nat) {
    w == 2 || w == 4
  }

  /** A sum over a square of width `w`, divided by its size. */
  function Descaled(sum: nat, w: nat): nat {
    if w == 2 then sum / 4 else sum / 16
  }

  /** The sums of the three channels. */
  datatype Sum = Sum(r: nat, g: nat, b: nat)

  predicate Under(s: Sum, cap: nat) {
    s.r <= cap && s.g <= cap && s.b <= cap
  }

  function Plus(s: Sum, p: Rgb): Sum {
    Sum(s.r + p.r, s.g + p.g, s.b + p.b)
  }

  /** `s` and `n` pixels of a row. */
  ghost function RowSum(s: Sum, f: Picture, x: nat, y: nat, n: nat): Sum
    decreases n
  {
    if n == 0 then s else Plus(RowSum(s, f, x, y, n - 1), f(x + n - 1, y))
  }

  /** `n` rows of `w` pixels. */
  ghost function SquareSum(f: Picture, x: nat, y: nat, w: nat, n: nat): Sum
    decreases n
  {
    if n == 0 then Sum(0, 0, 0) else RowSum(SquareSum(f, x, y, w, n - 1), f, x, y + n - 1, w)
  }

  lemma NextRow(f: Picture, x: nat, y: nat, w: nat, j: nat)
    ensures SquareSum(f, x, y, w, j + 1) == RowSum(SquareSum(f, x, y, w, j), f, x, y + j, w)
  {
  }

  /** The means of a square. The casts to bytes change nothing (AveragedAt). */
  function Mean(s: Sum, w: nat): Rgb {
    Rgb(Descaled(s.r, w) % 256, Descaled(s.g, w) % 256, Descaled(s.b, w) % 256)
  }

  /** The mean of each channel over every square of width `w`, rounded down. */
  ghost function Averaged(f: Picture, w: nat): Picture {
    (x: nat, y: nat) => Mean(SquareSum(f, Grown(x, w), Grown(y, w), w, w), w)
  }

  ghost predicate IsAveraged(g: Picture, f: Picture, w: nat) {
    forall n: nat {:trigger Asked(n)} :: Asked(n) ==> g == Averaged(f, w)
  }

  lemma {:induction false} RowSumBound(s: Sum, f: Picture, x: nat, y: nat, n: nat, cap: nat)
    requires Under(s, cap)
    ensures Under(RowSum(s, f, x, y, n), cap + 255 * n)
    decreases n
  {
    if n > 0 { RowSumBound(s, f, x, y, n - 1, cap); }
  }

  lemma {:induction false} SquareSumBound(f: Picture, x: nat, y: nat, w: nat, n: nat)
    requires Width(w)
    ensures Under(SquareSum(f, x, y, w, n), if w == 2 then 510 * n else 1020 * n)
    decreases n
  {
    if n > 0 {
      SquareSumBound(f, x, y, w, n - 1);
      RowSumBound(SquareSum(f, x, y, w, n - 1), f, x, y + n - 1, w, if w == 2 then 510 * (n - 1) else 1020 * (n - 1));
    }
  }

  /** A mean is a byte: its cast loses nothing. */
  lemma MeanIsByte(s: Sum, w: nat)
    requires Width(w) && Under(s, if w == 2 then 1020 else 4080)
    ensures Mean(s, w) == Rgb(Descaled(s.r, w), Descaled(s.g, w), Descaled(s.b, w))
  {
  }

  lemma AveragedAt(f: Picture, w: nat, x: nat, y: nat, s: Sum)
    requires Width(w) && s == SquareSum(f, Grown(x, w), Grown(y, w), w, w)
    ensures Averaged(f, w)(x, y) == Mean(s, w) && Under(s, if w == 2 then 1020 else 4080)
  {
    SquareSumBound(f, Grown(x, w), Grown(y, w), w, w);
    MeanIsByte(s, w);
  }

  /** The channels of four pixels. */
  function Four(a: Rgb, b: Rgb, c: Rgb, d: Rgb): Sum {
    Sum(a.r + b.r + c.r + d.r, a.g + b.g + c.g + d.g, a.b + b.b + c.b + d.b)
  }

  /** `p` is the mean of `n` pixels with these sums, rounded down. */
  predicate IsMean(p: Rgb, n: nat, s: Sum) {
    n * p.r <= s.r < n * p.r + n && n * p.g <= s.g < n * p.g + n && n * p.b <= s.b < n * p.b + n
  }

  /** A pixel at half scale is the mean of two by two pixels. */
  predicate IsHalf(p: Rgb, f: Picture, x: nat, y: nat) {
    IsMean(p, 4, Four(f(2 * x, 2 * y), f(2 * x + 1, 2 * y), f(2 * x, 2 * y + 1), f(2 * x + 1, 2 * y + 1)))
  }

  /** The channels of four by four pixels. */
  function Sixteen(f: Picture, u: nat, v: nat): Sum {
    var a := Four(f(u, v), f(u + 1, v), f(u + 2, v), f(u + 3, v));
    var b := Four(f(u, v + 1), f(u + 1, v + 1), f(u + 2, v + 1), f(u + 3, v + 1));
    var c := Four(f(u, v + 2), f(u + 1, v + 2), f(u + 2, v + 2), f(u + 3, v + 2));
    var d := Four(f(u, v + 3), f(u + 1, v + 3), f(u + 2, v + 3), f(u + 3, v + 3));
    Sum(a.r + b.r + c.r + d.r, a.g + b.g + c.g + d.g, a.b + b.b + c.b + d.b)
  }

  /** A pixel at quarter scale is the mean of four by four pixels. */
  predicate IsQuarter(p: Rgb, f: Picture, x: nat, y: nat) {
    IsMean(p, 16, Sixteen(f, 4 * x, 4 * y))
  }

  lemma HalfIs(f: Picture, x: nat, y: nat)
    ensures IsHalf(Averaged(f, 2)(x, y), f, x, y)
  {
    GrownIs(x, 2);
    GrownIs(y, 2);
    var s := TwoByTwo(f, 2 * x, 2 * y);
    AveragedAt(f, 2, x, y, s);
    MeanIs(s, 2);
  }

  lemma MeanIs(s: Sum, w: nat)
    requires Width(w) && Under(s, if w == 2 then 1020 else 4080)
    ensures IsMean(Mean(s, w), if w == 2 then 4 else 16, s)
  {
    MeanIsByte(s, w);
  }

  lemma TwoByTwo(f: Picture, u: nat, v: nat) returns (s: Sum)
    ensures s == SquareSum(f, u, v, 2, 2) == Four(f(u, v), f(u + 1, v), f(u, v + 1), f(u + 1, v + 1))
  {
    s := SquareSum(f, u, v, 2, 2);
    NextRow(f, u, v, 2, 0);
    NextRow(f, u, v, 2, 1);
    RowOfTwo(Sum(0, 0, 0), f, u, v);
    RowOfTwo(SquareSum(f, u, v, 2, 1), f, u, v + 1);
  }

  lemma RowOfTwo(s: Sum, f: Picture, x: nat, y: nat)
    ensures RowSum(s, f, x, y, 2) == Plus(Plus(s, f(x, y)), f(x + 1, y))
  {
    assert RowSum(s, f, x, y, 1) == Plus(s, f(x, y));
  }

  lemma QuarterIs(f: Picture, x: nat, y: nat)
    ensures IsQuarter(Averaged(f, 4)(x, y), f, x, y)
  {
    GrownIs(x, 4);
    GrownIs(y, 4);
    var s := FourByFour(f, 4 * x, 4 * y);
    AveragedAt(f, 4, x, y, s);
    MeanIs(s, 4);
  }

  lemma FourByFour(f: Picture, u: nat, v: nat) returns (s: Sum)
    ensures s == SquareSum(f, u, v, 4, 4) == Sixteen(f, u, v)
  {
    s := SquareSum(f, u, v, 4, 4);
    NextRow(f, u, v, 4, 0);
    NextRow(f, u, v, 4, 1);
    NextRow(f, u, v, 4, 2);
    NextRow(f, u, v, 4, 3);
    RowOfFour(Sum(0, 0, 0), f, u, v);
    RowOfFour(SquareSum(f, u, v, 4, 1), f, u, v + 1);
    RowOfFour(SquareSum(f, u, v, 4, 2), f, u, v + 2);
    RowOfFour(SquareSum(f, u, v, 4, 3), f, u, v + 3);
  }

  lemma RowOfFour(s: Sum, f: Picture, x: nat, y: nat)
    ensures var (t, q) := (RowSum(s, f, x, y, 4), Four(f(x, y), f(x + 1, y), f(x + 2, y), f(x + 3, y)));
      t == Sum(s.r + q.r, s.g + q.g, s.b + q.b)
  {
    assert RowSum(s, f, x, y, 1) == Plus(s, f(x, y));
    assert RowSum(s, f, x, y, 2) == Plus(RowSum(s, f, x, y, 1), f(x + 1, y));
    assert RowSum(s, f, x, y, 3) == Plus(RowSum(s, f, x, y, 2), f(x + 2, y));
  }

  /** The widths of an MCU, whole or descaled. */
  lemma {:induction false} WidthOf(w: nat, x: nat, y: nat)
    requires w == 2 || w == 4 || w == 8 || w == 16
    ensures Index(w, x, y) == x + (if w == 2 then 2 * y else if w == 4 then 4 * y else if w == 8 then 8 * y else 16 * y)
    decreases y
  {
    if y > 0 { WidthOf(w, x, y - 1); }
  }

  lemma {:induction false} GrownIs(n: nat, w: nat)
    requires Width(w)
    ensures Grown(n, w) == if w == 2 then 2 * n else 4 * n
  {
    if n > 0 { GrownIs(n - 1, w); }
  }

  /** `m` squares of width `w` fill a side, and `n` of them do not go beyond it. */
  lemma {:induction false} MoreSquares(m: nat, w: nat, n: nat)
    requires w > 0 && Grown(n, w) <= Grown(m, w)
    ensures n <= m && (Grown(n, w) < Grown(m, w) <==> n < m)
    ensures Grown(n, w) < Grown(m, w) ==> Grown(n + 1, w) <= Grown(m, w)
  {
    if n == 0 {
      GrownFirst(m, w);
    } else if m > 0 {
      MoreSquares(m - 1, w, n - 1);
    } else {
      assert false;
    }
  }

  lemma {:induction false} GrownFirst(m: nat, w: nat)
    ensures m > 0 ==> Grown(1, w) <= Grown(m, w)
  {
    if m > 1 { GrownFirst(m - 1, w); }
  }

  /** A square lies in the MCU, and its pixel is stored before it begins. */
  lemma SquareFits(mx: nat, my: nat, w: nat, m: nat, x: nat, y: nat)
    requires Sampling(mx, my) && Width(w) && Grown(m, w) == mx && Grown(x, w) < mx && Grown(y, w) < my
    ensures Grown(x, w) + w <= mx && Grown(y, w) + w <= my
    ensures Index(m, x, y) <= Index(mx, Grown(x, w), Grown(y, w))
    ensures 3 * Index(m, x, y) + 3 <= WorkSize(Blocks(mx, my))
  {
    GrownIs(m, w);
    GrownIs(x, w);
    GrownIs(y, w);
    WidthOf(m, x, y);
    WidthOf(mx, Grown(x, w), Grown(y, w));
    if w == 2 { TwoFits(mx, my, x, y); } else { FourFits(mx, my, x, y); }
  }

  lemma TwoFits(mx: nat, my: nat, x: nat, y: nat)
    requires Sampling(mx, my) && 2 * x < mx && 2 * y < my
    ensures 2 * x + 2 <= mx && 2 * y + 2 <= my
    ensures mx == 8 ==> 3 * (x + 4 * y) + 3 <= WorkSize(Blocks(mx, my))
    ensures mx == 16 ==> 3 * (x + 8 * y) + 3 <= WorkSize(Blocks(mx, my))
  {
  }

  lemma FourFits(mx: nat, my: nat, x: nat, y: nat)
    requires Sampling(mx, my) && 4 * x < mx && 4 * y < my
    ensures 4 * x + 4 <= mx && 4 * y + 4 <= my
    ensures mx == 8 ==> 3 * (x + 2 * y) + 3 <= WorkSize(Blocks(mx, my))
    ensures mx == 16 ==> 3 * (x + 4 * y) + 3 <= WorkSize(Blocks(mx, my))
  {
  }

  // ----- the passes -----

  /** The samples and the pixel of a block, for 1/8 scaling. */
  lemma CornerPlace(mx: nat, my: nat, m: nat, x: nat, y: nat)
    requires Sampling(mx, my) && 8 * m == mx && 8 * x < mx && 8 * y < my
    ensures YIndex(mx, 8 * x, 8 * y) == 128 * y + 64 * x < Blocks(mx, my) * 64
    ensures 3 * (Index(m, 0, y) + x) + 3 <= 12
  {
  }

  /** Rows without the cut off pixels do not take more room. */
  lemma {:induction false} Narrower(rx: nat, w: nat, y: nat)
    requires rx <= w
    ensures Index(rx, 0, y) <= Index(w, 0, y)
  {
    if y > 0 { Narrower(rx, w, y - 1); }
  }

  /** The samples of a pixel lie where no RGB pixel before it has been written. */
  lemma NotOverrun(mx: nat, my: nat, x: nat, y: nat)
    requires Sampling(mx, my) && x < mx && y < my
    ensures 3 * Index(mx, x, y) <= WorkSize(Blocks(mx, my)) + YIndex(mx, x, y)
    ensures 3 * Index(mx, x, y) + 3 <= WorkSize(Blocks(mx, my)) + CIndex(mx, my, x, y)
  {
    WidthOf(mx, x, y);
  }

  /** The pointers of the pixel loop: consecutive samples, and the jump to the next block. */
  lemma Walk(mx: nat, my: nat, x: nat, y: nat)
    requires Sampling(mx, my) && x < mx && y < my
    ensures YIndex(mx, x, y) == YIndex(mx, 0, y) + x + (if x >= 8 then 56 else 0)
    ensures CIndex(mx, my, x, y) == CIndex(mx, my, 0, y) + (if mx == 16 then x / 2 else x)
  {
    if x < 8 { DivMod8(x, 0); } else { DivMod8(x, 1); }
  }

  lemma DivMod8(x: nat, q: nat)
    requires 8 * q <= x < 8 * q + 8
    ensures x / 8 == q && x % 8 == x - 8 * q
  {
  }

  /** Where the pointers start in row `y`. */
  lemma RowBase(mx: nat, my: nat, y: nat)
    requires Sampling(mx, my) && y < my
    ensures YIndex(mx, 0, y) == if y >= 8 then 8 * y + 64 else 8 * y
    ensures CIndex(mx, my, 0, y) == if my == 16 then 64 * 4 + y / 2 * 8 else mx * 8 + y * 8
  {
    if y < 8 { DivMod8(y, 0); } else { DivMod8(y, 1); }
  }

  /** A side of the MCU, or a coordinate, shifted right by the scale. */
  function Shrunk(n: nat, scale: nat): nat {
    match scale case 0 => n case 1 => n / 2 case 2 => n / 4 case _ => n / 8
  }

  /** The part of an MCU side that lies in the image, scaled. */
  function Visible(x: nat, mx: nat, width: nat, scale: nat): nat {
    Shrunk(if x + mx <= width then mx else if x <= width then width - x else 0, scale)
  }

  lemma VisibleFits(x: nat, mx: nat, width: nat, scale: nat)
    requires x < width
    ensures Visible(x, mx, width, scale) == Shrunk(if x + mx <= width then mx else width - x, scale)
    ensures Visible(x, mx, width, scale) <= Shrunk(mx, scale)
  {
  }

  /** The picture an MCU stands for: at full size, averaged over squares, or its blocks' first samples. */
  ghost function Scaled(mcu: seq<byte>, mx: nat, my: nat, scale: nat): Picture {
    match scale
    case 0 => Decoded(mcu, mx, my)
    case 1 => Averaged(Decoded(mcu, mx, my), 2)
    case 2 => Averaged(Decoded(mcu, mx, my), 4)
    case _ => Corners(mcu, mx, my)
  }

  ghost predicate ArePixels(g: Picture, mcu: seq<byte>, mx: nat, my: nat) {
    forall x: nat, y: nat :: x < mx && y < my ==> IsPixel(g(x, y), mcu, mx, my, x, y)
  }

  ghost predicate AreCorners(g: Picture, mcu: seq<byte>, mx: nat, my: nat) {
    forall x: nat, y: nat :: 8 * x < mx && 8 * y < my ==> IsCorner(g(x, y), mcu, mx, my, x, y)
  }

  ghost predicate AreHalves(g: Picture, f: Picture) {
    forall x: nat, y: nat :: IsHalf(g(x, y), f, x, y)
  }

  ghost predicate AreQuarters(g: Picture, f: Picture) {
    forall x: nat, y: nat :: IsQuarter(g(x, y), f, x, y)
  }

  /** `g` is the picture of the decoded blocks `mcu` at this scale: their pixels, the means of two by two
      or four by four of them, or the colours of the first samples. */
  ghost predicate Meant(g: Picture, mcu: seq<byte>, mx: nat, my: nat, scale: nat) {
    match scale
    case 0 => ArePixels(g, mcu, mx, my)
    case 1 => exists f: Picture :: ArePixels(f, mcu, mx, my) && AreHalves(g, f)
    case 2 => exists f: Picture :: ArePixels(f, mcu, mx, my) && AreQuarters(g, f)
    case _ => AreCorners(g, mcu, mx, my)
  }

  lemma ScaledIs(mcu: seq<byte>, mx: nat, my: nat, scale: nat)
    requires Sampling(mx, my) && |mcu| == McuSize(Blocks(mx, my))
    ensures Meant(Scaled(mcu, mx, my, scale), mcu, mx, my, scale)
  {
    var f := Decoded(mcu, mx, my);
    DecodedIs(mcu, mx, my);
    match scale
    case 0 =>
    case 1 => forall x: nat, y: nat ensures IsHalf(Averaged(f, 2)(x, y), f, x, y) { HalfIs(f, x, y); }
      assert AreHalves(Scaled(mcu, mx, my, 1), f);
    case 2 => forall x: nat, y: nat ensures IsQuarter(Averaged(f, 4)(x, y), f, x, y) { QuarterIs(f, x, y); }
      assert AreQuarters(Scaled(mcu, mx, my, 2), f);
    case _ => CornersAre(mcu, mx, my);
  }

  lemma DecodedIs(mcu: seq<byte>, mx: nat, my: nat)
    requires Sampling(mx, my) && |mcu| == McuSize(Blocks(mx, my))
    ensures ArePixels(Decoded(mcu, mx, my), mcu, mx, my)
  {
    forall x: nat, y: nat | x < mx && y < my ensures IsPixel(Decoded(mcu, mx, my)(x, y), mcu, mx, my, x, y) {
      PixelIs(mcu, mx, my, x, y);
    }
  }

  lemma CornersAre(mcu: seq<byte>, mx: nat, my: nat)
    requires Sampling(mx, my) && |mcu| == McuSize(Blocks(mx, my))
    ensures AreCorners(Corners(mcu, mx, my), mcu, mx, my)
  {
    forall x: nat, y: nat | 8 * x < mx && 8 * y < my ensures IsCorner(Corners(mcu, mx, my)(x, y), mcu, mx, my, x, y) {
      CornerIs(mcu, mx, my, x, y);
    }
  }

  /** The scale halves every side so many times. */
  lemma ShrunkIs(n: nat, scale: nat)
    requires scale <= 3
    ensures Shrunk(n, scale) == n / Pow2(scale)
  {
    assert Pow2(0) == 1 && Pow2(1) == 2 && Pow2(2) == 4 && Pow2(3) == 8;
  }

  function PackAll(ps: seq<Rgb>): (ws: seq<nat>)
    ensures |ws| == |ps| && forall k :: 0 <= k < |ps| ==> ws[k] == Pack565(ps[k])
  {
    seq(|ps|, k requires 0 <= k < |ps| => Pack565(ps[k]))
  }

  /** The rectangle an MCU covers in the output, bounds included. */
  datatype Rect = Rect(left: nat, right: nat, top: nat, bottom: nat)

  class Mcu {
    /** The working buffer from 0 on, directly followed by the buffer of the decoded blocks. */
    const mem: array<byte>
    const mx: nat
    const my: nat

    ghost predicate Valid() {
      Sampling(mx, my) && mem.Length == WorkSize(Blocks(mx, my)) + McuSize(Blocks(mx, my))
    }

    /** An MCU of the given size, as jd_prepare allocates it. */
    constructor (mx: nat, my: nat)
      requires Sampling(mx, my)
      ensures Valid() && fresh(mem) && this.mx == mx && this.my == my
    {
      this.mx, this.my := mx, my;
      mem := new byte[WorkSize(Blocks(mx, my)) + McuSize(Blocks(mx, my))];
    }

    function Mcubuf(): nat {
      WorkSize(Blocks(mx, my))
    }

    /** The decoded blocks from position `d` of the memory on are still those of `mcu`. */
    ghost predicate Intact(mcu: seq<byte>, d: nat)
      requires Valid()
      reads mem
    {
      |mcu| == McuSize(Blocks(mx, my)) && forall k :: d <= k < mem.Length && Mcubuf() <= k ==> mem[k] == mcu[k - Mcubuf()]
    }

    /** The three bytes from `at` on are the pixel `p`. */
    ghost predicate Holds(at: nat, p: Rgb)
      reads mem
    {
      at + 3 <= mem.Length && mem[at] == p.r && mem[at + 1] == p.g && mem[at + 2] == p.b
    }

    /** The buffer begins with the pixels `ps`. */
    ghost predicate Begins(ps: seq<Rgb>)
      reads mem
    {
      3 * |ps| <= mem.Length && forall k: nat :: k < |ps| ==> Holds(3 * k, ps[k])
    }

    /** The pixels of a `w` by `h` picture `f` that lie at index `n` or after it are in place. */
    ghost predicate Still(f: Picture, w: nat, h: nat, n: nat)
      reads mem
    {
      forall x: nat, y: nat :: x < w && y < h && n <= Index(w, x, y) ==> Holds(3 * Index(w, x, y), f(x, y))
    }

    lemma RowsStill(f: Picture, w: nat, h: nat)
      requires Begins(Rows(f, w, h))
      ensures Still(f, w, h, 0)
    {
      forall x: nat, y: nat | x < w && y < h ensures Holds(3 * Index(w, x, y), f(x, y)) {
        RowsAt(f, w, h, x, y);
      }
    }

    /** Appends a pixel to the pixels `ps` at the beginning of the buffer. */
    method Append(ghost ps: seq<Rgb>, d: nat, p: Rgb)
      requires Begins(ps) && d == 3 * |ps| && d + 3 <= mem.Length
      modifies mem
      ensures Begins(ps + [p])
      ensures forall k :: d + 3 <= k < mem.Length ==> mem[k] == old(mem[k])
    {
      mem[d], mem[d + 1], mem[d + 2] := p.r, p.g, p.b;
      forall k: nat | k < |ps| + 1 ensures Holds(3 * k, (ps + [p])[k]) {
        if k < |ps| { assert old(Holds(3 * k, ps[k])); }
      }
    }

    /** The pointers of the pixel loop before pixel (x, y), `x` increments after the row start. */
    ghost predicate Pointers(x: nat, y: nat, py: nat, pc: nat) {
      && py == Mcubuf() + YIndex(mx, 0, y) + x + (if x > 8 then 56 else 0)
      && pc == Mcubuf() + CIndex(mx, my, 0, y) + (if mx == 16 then x / 2 else x)
    }

    method StartRow(iy: nat) returns (py: nat, pc: nat)
      requires Valid() && iy < my
      ensures Pointers(0, iy, py, pc)
    {
      RowBase(mx, my, iy);
      pc := Mcubuf();
      py := pc + iy * 8;
      if my == 16 {
        pc := pc + 64 * 4 + iy / 2 * 8;
        if iy >= 8 { py := py + 64; }
      } else {
        pc := pc + mx * 8 + iy * 8;
      }
    }

    /** The pointers to the samples of pixel `ix` of a row, and the chroma pointer after it. */
    method Advance(ix: nat, ghost iy: nat, py0: nat, pc0: nat) returns (py: nat, pc: nat)
      requires Valid() && ix < mx && iy < my && Pointers(ix, iy, py0, pc0)
      ensures py == Mcubuf() + YIndex(mx, ix, iy) && pc0 == Mcubuf() + CIndex(mx, my, ix, iy)
      ensures Pointers(ix + 1, iy, py + 1, pc)
    {
      Walk(mx, my, ix, iy);
      py, pc := py0, pc0;
      if mx == 16 {
        if ix == 8 { py := py + 56; }
        pc := pc + ix % 2;
      } else {
        pc := pc + 1;
      }
    }

    /** Pixel (x, y) from its samples at `py` and `pc`. */
    method PutPixel(ghost x: nat, ghost y: nat, py: nat, pc: nat, d: nat, ghost mcu: seq<byte>, ghost ps: seq<Rgb>)
      requires Valid() && x < mx && y < my && Begins(ps) && d == 3 * |ps|
      requires |ps| == Index(mx, x, y) && Intact(mcu, d)
      requires py == Mcubuf() + YIndex(mx, x, y) && pc == Mcubuf() + CIndex(mx, my, x, y)
      modifies mem
      ensures d + 3 <= mem.Length && Intact(mcu, d + 3)
      ensures Begins(ps + [PixelOf(mcu, mx, my, x, y)]) && IsPixel(PixelOf(mcu, mx, my, x, y), mcu, mx, my, x, y)
    {
      PixelIs(mcu, mx, my, x, y);
      NotOverrun(mx, my, x, y);
      IndexBounds(mx, my, x, y);
      Append(ps, d, Convert(mem[py], mem[pc], mem[pc + 64]));
    }

    method BuildRow(ghost iy: nat, py0: nat, pc0: nat, d: nat, ghost mcu: seq<byte>, ghost f: Picture)
      returns (rgb24: nat)
      requires Valid() && iy < my && d == 3 * Index(mx, 0, iy) && Intact(mcu, d)
      requires f == Decoded(mcu, mx, my) && Pointers(0, iy, py0, pc0)
      requires Begins(Rows(f, mx, iy))
      modifies mem
      ensures rgb24 == 3 * Index(mx, 0, iy + 1) && Intact(mcu, rgb24) && Begins(Rows(f, mx, iy + 1))
    {
      var py, pc := py0, pc0;
      rgb24 := d;
      RowsLength(f, mx, iy);
      for ix := 0 to mx
        invariant rgb24 == d + 3 * ix
        invariant Pointers(ix, iy, py, pc)
        invariant Begins(Rows(f, mx, iy) + Row(f, iy, ix))
        invariant Intact(mcu, rgb24)
      {
        var c := pc;
        py, pc := Advance(ix, iy, py, c);
        IndexRight(mx, 0, iy, ix);
        PutPixel(ix, iy, py, c, rgb24, mcu, Rows(f, mx, iy) + Row(f, iy, ix));
        NextPixel(f, mx, iy, ix);
        py, rgb24 := py + 1, rgb24 + 3;
      }
    }

    /** The RGB MCU from the decoded blocks. */
    method BuildRgb(ghost mcu: seq<byte>, ghost f: Picture)
      requires Valid() && Intact(mcu, 0) && f == Decoded(mcu, mx, my)
      modifies mem
      ensures Begins(Rows(f, mx, my)) && ArePixels(f, mcu, mx, my)
    {
      DecodedIs(mcu, mx, my);
      var rgb24 := 0;
      for iy := 0 to my
        invariant rgb24 == 3 * Index(mx, 0, iy) && Intact(mcu, rgb24)
        invariant Begins(Rows(f, mx, iy))
      {
        var py, pc := StartRow(iy);
        rgb24 := BuildRow(iy, py, pc, rgb24, mcu, f);
      }
    }

    /** The `w` pixels of row `y` from `x` on are stored from `at` on. */
    ghost predicate RowHolds(at: nat, f: Picture, x: nat, y: nat, w: nat)
      reads mem
    {
      forall u: nat :: x <= u < x + w ==> Holds(at + 3 * (u - x), f(u, y))
    }

    lemma StillRow(f: Picture, n: nat, x: nat, y: nat, j: nat, w: nat)
      requires Still(f, mx, my, n) && n <= Index(mx, x, y) && x + w <= mx && y + j < my
      ensures RowHolds(3 * Index(mx, x, y + j), f, x, y + j, w)
    {
      var at := 3 * Index(mx, x, y + j);
      IndexBelow(mx, x, y, j);
      forall u: nat {:trigger f(u, y + j)} | x <= u < x + w ensures Holds(at + 3 * (u - x), f(u, y + j)) {
        IndexRight(mx, x, y + j, u);
      }
    }

    /** Adds the `w` pixels from `at` on to the three sums. */
    method AddRow(s0: Sum, at: nat, w: nat, ghost x: nat, ghost y: nat, ghost f: Picture) returns (s: Sum, rgb24: nat)
      requires w <= 4 && RowHolds(at, f, x, y, w) && Under(s0, 3060)
      ensures s == RowSum(s0, f, x, y, w) && rgb24 == at + 3 * w
    {
      s, rgb24 := s0, at;
      for i := 0 to w
        invariant rgb24 == at + 3 * i && s == RowSum(s0, f, x, y, i)
      {
        RowSumBound(s0, f, x, y, i + 1, 3060);
        assert Holds(at + 3 * (x + i - x), f(x + i, y));
        s := Sum(U16(s.r + mem[rgb24]), U16(s.g + mem[rgb24 + 1]), U16(s.b + mem[rgb24 + 2]));
        rgb24 := rgb24 + 3;
      }
    }

    function PixelAt(ix: nat, iy: nat): (d: nat)
      ensures d == 3 * Index(mx, ix, iy)
    {
      IndexIs(mx, ix, iy);
      (iy * mx + ix) * 3
    }

    /** Row `j` of the square, and the skip to its next row. */
    method AddRowOf(s0: Sum, at: nat, w: nat, x: nat, y: nat, j: nat, ghost n: nat, ghost f: Picture) returns (s: Sum, rgb24: nat)
      requires Width(w) && j < w && x + w <= mx && y + w <= my
      requires n <= Index(mx, x, y) && Still(f, mx, my, n)
      requires at == 3 * Index(mx, x, y + j) && s0 == SquareSum(f, x, y, w, j)
      ensures rgb24 == 3 * Index(mx, x, y + j + 1) && s == SquareSum(f, x, y, w, j + 1)
    {
      SquareSumBound(f, x, y, w, j);
      StillRow(f, n, x, y, j, w);
      s, rgb24 := AddRow(s0, at, w, x, y + j, f);
      NextRow(f, x, y, w, j);
      rgb24 := rgb24 + (mx - w) * 3;
    }

    /** The sums over the square of width `w` at (x, y). */
    method AddSquare(w: nat, x: nat, y: nat, ghost n: nat, ghost f: Picture) returns (s: Sum)
      requires Width(w) && x + w <= mx && y + w <= my
      requires n <= Index(mx, x, y) && Still(f, mx, my, n)
      ensures s == SquareSum(f, x, y, w, w)
    {
      s := Sum(0, 0, 0);
      var rgb24 := PixelAt(x, y);
      for j := 0 to w
        invariant rgb24 == 3 * Index(mx, x, y + j) && s == SquareSum(f, x, y, w, j)
      {
        s, rgb24 := AddRowOf(s, rgb24, w, x, y, j, n, f);
      }
    }

    /** One averaged pixel, stored over pixels that are not needed any more. */
    method AverageSquare(w: nat, ix: nat, iy: nat, op: nat, ghost x: nat, ghost y: nat, ghost f: Picture, ghost ps: seq<Rgb>)
      requires Width(w) && ix == Grown(x, w) && iy == Grown(y, w) && ix + w <= mx && iy + w <= my
      requires Begins(ps) && op == 3 * |ps| && op + 3 <= mem.Length
      requires |ps| <= Index(mx, ix, iy) && Still(f, mx, my, |ps|)
      modifies mem
      ensures Begins(ps + [Averaged(f, w)(x, y)])
      ensures Still(f, mx, my, |ps| + 1)
    {
      var s := AddSquare(w, ix, iy, |ps|, f);
      AveragedAt(f, w, x, y, s);
      Append(ps, op, Mean(s, w));
    }

    /** `x` squares of row `y` of squares have been averaged; `n` pixels are stored. */
    ghost predicate Averaging(w: nat, m: nat, x: nat, y: nat, n: nat, f: Picture, g: Picture)
      reads mem
    {
      n == Index(m, 0, y) + x && Still(f, mx, my, n) && Begins(Rows(g, m, y) + Row(g, y, x))
    }

    /** The next square of the row. */
    method AverageNext(w: nat, ix: nat, iy: nat, op: nat, ghost x: nat, ghost y: nat, ghost m: nat, ghost n: nat,
                       ghost f: Picture, ghost g: Picture)
      requires Valid() && Width(w) && IsAveraged(g, f, w) && Grown(m, w) == mx
      requires ix == Grown(x, w) < mx && iy == Grown(y, w) < my
      requires op == 3 * n && Averaging(w, m, x, y, n, f, g)
      modifies mem
      ensures Averaging(w, m, x + 1, y, n + 1, f, g)
      ensures ix + w == Grown(x + 1, w) <= mx
    {
      assert Asked(0);
      MoreSquares(m, w, x);
      SquareFits(mx, my, w, m, x, y);
      IndexRight(m, 0, y, x);
      RowsLength(g, m, y);
      AverageSquare(w, ix, iy, op, x, y, f, Rows(g, m, y) + Row(g, y, x));
      NextPixel(g, m, y, x);
    }

    method DescaleRow(w: nat, iy: nat, op0: nat, ghost y: nat, ghost m: nat, ghost f: Picture, ghost g: Picture)
      returns (op: nat)
      requires Valid() && Width(w) && IsAveraged(g, f, w) && Grown(m, w) == mx
      requires iy == Grown(y, w) < my
      requires op0 == 3 * Index(m, 0, y) && Still(f, mx, my, Index(m, 0, y)) && Begins(Rows(g, m, y))
      modifies mem
      ensures op == 3 * Index(m, 0, y + 1) && Still(f, mx, my, Index(m, 0, y + 1)) && Begins(Rows(g, m, y + 1))
    {
      op := op0;
      var ix := 0;
      ghost var x, n := 0, Index(m, 0, y);
      assert Rows(g, m, y) + Row(g, y, 0) == Rows(g, m, y);
      while ix < mx
        invariant ix == Grown(x, w) <= mx && op == 3 * n && Averaging(w, m, x, y, n, f, g)
        decreases mx - ix
      {
        AverageNext(w, ix, iy, op, x, y, m, n, f, g);
        ix, x, n, op := ix + w, x + 1, n + 1, op + 3;
      }
      MoreSquares(m, w, x);
      assert x == m && n == Index(m, 0, y + 1);
    }

    /** Averages the squares of the MCU in place. */
    method Descale(w: nat, ghost m: nat, ghost h: nat, ghost f: Picture)
      requires Valid() && Width(w) && Still(f, mx, my, 0)
      requires Grown(m, w) == mx && Grown(h, w) == my
      modifies mem
      ensures Begins(Rows(Averaged(f, w), m, h))
    {
      ghost var g := Averaged(f, w);
      var op, iy := 0, 0;
      ghost var y := 0;
      while iy < my
        invariant iy == Grown(y, w) <= my
        invariant op == 3 * Index(m, 0, y) && Still(f, mx, my, Index(m, 0, y))
        invariant Begins(Rows(g, m, y))
      {
        MoreSquares(h, w, y);
        op := DescaleRow(w, iy, op, y, m, f, g);
        iy, y := iy + w, y + 1;
      }
      MoreSquares(h, w, y);
    }

    /** The pixel of one block; the blocks stay as they are. */
    method PutCorner(py: nat, pc: nat, d: nat, ghost x: nat, ghost y: nat, ghost m: nat, ghost mcu: seq<byte>, ghost f: Picture)
      requires Valid() && Intact(mcu, 0) && f == Corners(mcu, mx, my) && 8 * m == mx && 8 * x < mx && 8 * y < my
      requires py == Mcubuf() + 128 * y + 64 * x && pc == Mcubuf() + Blocks(mx, my) * 64
      requires d == 3 * (Index(m, 0, y) + x) && Begins(Rows(f, m, y) + Row(f, y, x))
      modifies mem
      ensures Intact(mcu, 0) && Begins(Rows(f, m, y) + Row(f, y, x + 1))
    {
      RowsLength(f, m, y);
      CornerPlace(mx, my, m, x, y);
      Append(Rows(f, m, y) + Row(f, y, x), d, Convert(mem[py], mem[pc], mem[pc + 64]));
      NextPixel(f, m, y, x);
    }

    method BuildCornerRow(py0: nat, pc: nat, d: nat, ghost y: nat, ghost m: nat, ghost mcu: seq<byte>, ghost f: Picture)
      returns (rgb24: nat)
      requires Valid() && Intact(mcu, 0) && f == Corners(mcu, mx, my) && 8 * m == mx && 8 * y < my
      requires py0 == Mcubuf() + 128 * y && pc == Mcubuf() + Blocks(mx, my) * 64
      requires d == 3 * Index(m, 0, y) && Begins(Rows(f, m, y))
      modifies mem
      ensures Intact(mcu, 0) && rgb24 == 3 * Index(m, 0, y + 1) && Begins(Rows(f, m, y + 1))
    {
      var ix, py := 0, py0;
      rgb24 := d;
      ghost var x := 0;
      assert Rows(f, m, y) + Row(f, y, 0) == Rows(f, m, y);
      while ix < mx
        invariant ix == 8 * x <= mx && py == py0 + 64 * x && rgb24 == d + 3 * x
        invariant Intact(mcu, 0) && Begins(Rows(f, m, y) + Row(f, y, x))
      {
        PutCorner(py, pc, rgb24, x, y, m, mcu, f);
        ix, x, py, rgb24 := ix + 8, x + 1, py + 64, rgb24 + 3;
      }
      assert x == m;
    }

    /** One pixel a block, for 1/8 scaling. */
    method BuildCorners(ghost m: nat, ghost h: nat, ghost mcu: seq<byte>, ghost f: Picture)
      requires Valid() && Intact(mcu, 0) && f == Corners(mcu, mx, my) && 8 * m == mx && 8 * h == my
      modifies mem
      ensures Begins(Rows(f, m, h))
    {
      var rgb24, iy := 0, 0;
      var pc := Mcubuf() + Area();
      ghost var y := 0;
      while iy < my
        invariant iy == 8 * y <= my && rgb24 == 3 * Index(m, 0, y)
        invariant Intact(mcu, 0) && Begins(Rows(f, m, y))
      {
        var py := Mcubuf();
        if iy == 8 { py := py + 64 * 2; }
        rgb24 := BuildCornerRow(py, pc, rgb24, y, m, mcu, f);
        iy, y := iy + 8, y + 1;
      }
      assert y == h;
    }

    function Area(): (n: nat)
      requires Valid()
      ensures n == Blocks(mx, my) * 64
    {
      mx * my
    }

    /** A visible pixel is copied to its place in the narrower picture. */
    method SqueezePixel(s: nat, d: nat, w: nat, rx: nat, ghost h: nat, ghost x: nat, ghost y: nat, ghost n: nat, ghost f: Picture)
      requires x < rx <= w && y < h && n == Index(w, 0, y) + x && s == 3 * n && d == 3 * (Index(rx, 0, y) + x)
      requires Still(f, w, h, n) && Begins(Rows(f, rx, y) + Row(f, y, x))
      modifies mem
      ensures Still(f, w, h, n + 1) && Begins(Rows(f, rx, y) + Row(f, y, x + 1))
    {
      Narrower(rx, w, y);
      RowsLength(f, rx, y);
      IndexRight(w, 0, y, x);
      assert Holds(3 * Index(w, x, y), f(x, y));
      CopyPixel(s, d, Rows(f, rx, y) + Row(f, y, x), f(x, y));
      NextPixel(f, rx, y, x);
    }

    /** Moves the visible part of row `y` up behind the row before it. */
    method SqueezeRow(w: nat, rx: nat, s0: nat, d0: nat, ghost h: nat, ghost y: nat, ghost f: Picture) returns (s: nat, d: nat)
      requires rx <= w && y < h && s0 == 3 * Index(w, 0, y) && d0 == 3 * Index(rx, 0, y)
      requires Still(f, w, h, Index(w, 0, y)) && Begins(Rows(f, rx, y))
      modifies mem
      ensures s == 3 * Index(w, 0, y + 1) && d == 3 * Index(rx, 0, y + 1)
      ensures Still(f, w, h, Index(w, 0, y + 1)) && Begins(Rows(f, rx, y + 1))
    {
      s, d := s0, d0;
      ghost var n := Index(w, 0, y);
      assert Rows(f, rx, y) + Row(f, y, 0) == Rows(f, rx, y);
      for x := 0 to rx
        invariant n == Index(w, 0, y) + x && s == 3 * n && d == d0 + 3 * x
        invariant Still(f, w, h, n) && Begins(Rows(f, rx, y) + Row(f, y, x))
      {
        SqueezePixel(s, d, w, rx, h, x, y, n, f);
        s, d, n := s + 3, d + 3, n + 1;
      }
      s := s + (w - rx) * 3;
    }

    method CopyPixel(s: nat, d: nat, ghost ps: seq<Rgb>, ghost p: Rgb)
      requires d <= s && Holds(s, p) && Begins(ps) && d == 3 * |ps|
      modifies mem
      ensures Begins(ps + [p]) && forall k :: d + 3 <= k < mem.Length ==> mem[k] == old(mem[k])
    {
      mem[d] := mem[s];
      mem[d + 1] := mem[s + 1];
      mem[d + 2] := mem[s + 2];
      forall k: nat | k < |ps| + 1 ensures Holds(3 * k, (ps + [p])[k]) {
        if k < |ps| { assert old(Holds(3 * k, ps[k])); }
      }
    }

    /** Drops the pixels right of the visible part, in place. */
    method Squeeze(w: nat, rx: nat, ry: nat, ghost h: nat, ghost f: Picture)
      requires rx <= w && ry <= h && Still(f, w, h, 0)
      modifies mem
      ensures Begins(Rows(f, rx, ry))
    {
      var s, d := 0, 0;
      for y := 0 to ry
        invariant s == 3 * Index(w, 0, y) && d == 3 * Index(rx, 0, y)
        invariant Still(f, w, h, Index(w, 0, y)) && Begins(Rows(f, rx, y))
      {
        s, d := SqueezeRow(w, rx, s, d, h, y, f);
      }
    }

    /** The 16-bit word number `k` of the buffer, low byte first. */
    ghost function Word(k: nat): nat
      requires 2 * k + 1 < mem.Length
      reads mem
    {
      (mem[2 * k] as nat) + 256 * (mem[2 * k + 1] as nat)
    }

    ghost predicate Packed(ps: seq<Rgb>, n: nat)
      reads mem
    {
      n <= |ps| && 2 * n <= mem.Length && forall k: nat :: k < n ==> Word(k) == Pack565(ps[k])
    }

    /** RGB888 to RGB565 in place; the high bits of each channel in one word. */
    method PackWords(n0: nat, ghost ps: seq<Rgb>)
      requires n0 == |ps| > 0 && Begins(ps)
      modifies mem
      ensures Packed(ps, |ps|)
    {
      var n, s, d := n0, 0, 0;
      ghost var i := 0;
      while n > 0
        invariant i + n == |ps| && s == 3 * i && d == 2 * i
        invariant Packed(ps, i)
        invariant forall k: nat :: i <= k < |ps| ==> Holds(3 * k, ps[k])
      {
        assert Holds(3 * i, ps[i]);
        var r: nat, g: nat, b: nat := mem[s], mem[s + 1], mem[s + 2];
        var w := r / 8 * 8 * 256 + g / 4 * 4 * 8 + b / 8;
        PutWord(d, w);
        s, d, n, i := s + 3, d + 2, n - 1, i + 1;
      }
    }

    method PutWord(d: nat, w: nat)
      requires d + 2 <= mem.Length && w < TWO16
      modifies mem
      ensures (mem[d] as nat) + 256 * (mem[d + 1] as nat) == w
      ensures forall k :: 0 <= k < mem.Length && k != d && k != d + 1 ==> mem[k] == old(mem[k])
    {
      mem[d], mem[d + 1] := w % 256, w / 256;
    }

    /** Builds the pixels and averages them over squares of width `w`. */
    method BuildAveraged(w: nat, ghost m: nat, ghost h: nat, ghost mcu: seq<byte>, ghost f: Picture)
      requires Valid() && Intact(mcu, 0) && f == Decoded(mcu, mx, my)
      requires Width(w) && (if w == 2 then 2 * m == mx && 2 * h == my else 4 * m == mx && 4 * h == my)
      modifies mem
      ensures Begins(Rows(Averaged(f, w), m, h))
    {
      BuildRgb(mcu, f);
      RowsStill(f, mx, my);
      GrownIs(m, w);
      GrownIs(h, w);
      Descale(w, m, h, f);
    }

    /** Builds the pixels of the MCU, at the given scale, in the buffer. */
    method Build(scale: nat, ghost mcu: seq<byte>)
      requires Valid() && Intact(mcu, 0) && scale <= 3
      modifies mem
      ensures Begins(Rows(Scaled(mcu, mx, my, scale), Shrunk(mx, scale), Shrunk(my, scale)))
    {
      if scale == 3 {
        BuildCorners(mx / 8, my / 8, mcu, Corners(mcu, mx, my));
      } else if scale != 0 {
        BuildAveraged(if scale == 1 then 2 else 4, Shrunk(mx, scale), Shrunk(my, scale), mcu, Decoded(mcu, mx, my));
      } else {
        BuildRgb(mcu, Decoded(mcu, mx, my));
      }
    }

    /** Outputs the MCU at (x, y) of the image: nothing when no pixel of it is visible, else a rectangle
        and its pixels, which are those of the scaled picture of the decoded blocks. */
    method Output(width: nat, height: nat, scale: nat, x: nat, y: nat, ghost mcu: seq<byte>) returns (shown: bool, rect: Rect)
      requires Valid() && Intact(mcu, 0) && scale <= 3 && x < width < TWO16 && y < height < TWO16
      modifies mem
      ensures shown <==> Visible(x, mx, width, scale) > 0 && Visible(y, my, height, scale) > 0
      ensures shown ==> rect == Rect(Shrunk(x, scale), Shrunk(x, scale) + Visible(x, mx, width, scale) - 1,
                                     Shrunk(y, scale), Shrunk(y, scale) + Visible(y, my, height, scale) - 1)
      ensures shown ==> ShowsAll(Visible(x, mx, width, scale), Visible(y, my, height, scale), Scaled(mcu, mx, my, scale))
      ensures shown ==> PixelsOf(mcu, Visible(x, mx, width, scale), Visible(y, my, height, scale), scale)
      ensures Meant(Scaled(mcu, mx, my, scale), mcu, mx, my, scale)
    {
      ScaledIs(mcu, mx, my, scale);
      rect := Rect(0, 0, 0, 0);
      var rx, ry := VisibleSize(width, height, scale, x, y);
      if rx == 0 || ry == 0 { return false, rect; }
      rect := Rect(Shrunk(x, scale), Shrunk(x, scale) + rx - 1, Shrunk(y, scale), Shrunk(y, scale) + ry - 1);
      Draw(rx, ry, scale, mcu);
      shown := true;
    }

    method VisibleSize(width: nat, height: nat, scale: nat, x: nat, y: nat) returns (rx: nat, ry: nat)
      requires x < width && y < height
      ensures rx == Visible(x, mx, width, scale) <= Shrunk(mx, scale)
      ensures ry == Visible(y, my, height, scale) <= Shrunk(my, scale)
    {
      VisibleFits(x, mx, width, scale);
      VisibleFits(y, my, height, scale);
      rx := Shrunk(if x + mx <= width then mx else width - x, scale);
      ry := Shrunk(if y + my <= height then my else height - y, scale);
    }

    /** The visible part of the picture, in words. */
    method Draw(rx: nat, ry: nat, scale: nat, ghost mcu: seq<byte>)
      requires Valid() && Intact(mcu, 0) && scale <= 3 && 0 < rx <= Shrunk(mx, scale) && 0 < ry <= Shrunk(my, scale)
      modifies mem
      ensures ShowsAll(rx, ry, Scaled(mcu, mx, my, scale)) && PixelsOf(mcu, rx, ry, scale)
    {
      Build(scale, mcu);
      Finish(rx, ry, Shrunk(mx, scale), Shrunk(my, scale), Scaled(mcu, mx, my, scale));
    }

    /** Word `k` of the buffer is the pixel `p`. */
    ghost predicate Shows(k: nat, p: Rgb)
      reads mem
    {
      2 * k + 1 < mem.Length && Word(k) == Pack565(p)
    }

    /** The words of the buffer are the pixels of the rectangle, row by row. */
    ghost predicate PixelsOf(mcu: seq<byte>, rx: nat, ry: nat, scale: nat)
      reads mem
    {
      var ps := Rows(Scaled(mcu, mx, my, scale), rx, ry);
      |ps| == rx * ry && Packed(ps, |ps|)
    }

    /** The output of an MCU, and what the output function is given. */
    method OutputWords(width: nat, height: nat, scale: nat, x: nat, y: nat, ghost mcu: seq<byte>)
      returns (shown: bool, rect: Rect, words: seq<nat>)
      requires Valid() && Intact(mcu, 0) && scale <= 3 && x < width < TWO16 && y < height < TWO16
      modifies mem
      ensures var (w, h) := (Visible(x, mx, width, scale), Visible(y, my, height, scale));
        && (shown <==> w > 0 && h > 0)
        && (shown ==>
             && rect == Rect(Shrunk(x, scale), Shrunk(x, scale) + w - 1, Shrunk(y, scale), Shrunk(y, scale) + h - 1)
             && words == PackAll(Rows(Scaled(mcu, mx, my, scale), w, h)))
    {
      words := [];
      shown, rect := Output(width, height, scale, x, y, mcu);
      if shown {
        var w, h := Visible(x, mx, width, scale), Visible(y, my, height, scale);
        words := Bitmap(w * h, Rows(Scaled(mcu, mx, my, scale), w, h));
      }
    }

    /** What the output function is given: the first `n` words. */
    method Bitmap(n: nat, ghost ps: seq<Rgb>) returns (ws: seq<nat>)
      requires n == |ps| && Packed(ps, n)
      ensures ws == PackAll(ps)
    {
      ws := [];
      for k := 0 to n
        invariant ws == PackAll(ps)[..k]
      {
        assert Word(k) == Pack565(ps[k]) == PackAll(ps)[k];
        ws := ws + [(mem[2 * k] as nat) + 256 * (mem[2 * k + 1] as nat)];
      }
    }

    /** The rectangle of `rx` by `ry` pixels shown, row by row, is that part of the picture. */
    ghost predicate ShowsAll(rx: nat, ry: nat, f: Picture)
      reads mem
    {
      forall i: nat, j: nat :: i < rx && j < ry ==> Shows(Index(rx, i, j), f(i, j))
    }

    /** Cuts the pixels to the visible part and packs them. */
    method Finish(rx: nat, ry: nat, w: nat, ghost h: nat, ghost f: Picture)
      requires 0 < rx <= w && 0 < ry <= h && Begins(Rows(f, w, h))
      modifies mem
      ensures ShowsAll(rx, ry, f) && Packed(Rows(f, rx, ry), |Rows(f, rx, ry)|) && |Rows(f, rx, ry)| == rx * ry
    {
      RowsStill(f, w, h);
      RowsLength(f, rx, ry);
      IndexIs(rx, 0, ry);
      if rx < w {
        Squeeze(w, rx, ry, h, f);
      } else {
        RowsPrefix(f, w, ry, h);
        assert forall k: nat :: k < |Rows(f, w, ry)| ==> Rows(f, w, ry)[k] == Rows(f, w, h)[k];
      }
      PackWords(rx * ry, Rows(f, rx, ry));
      forall i: nat, j: nat | i < rx && j < ry ensures Shows(Index(rx, i, j), f(i, j)) {
        RowsAt(f, rx, ry, i, j);
      }
    }
  }
}