/** The whole decompression (jd_decomp): restarts, loading and output of the MCUs in turn, on the
    memory that the last two share. */
module Decompress {
  import opened Machine
  import opened Sequences
  import opened BitReader
  import opened Huffman
  import opened Progress
  import Entropy
  import Idct
  import Load = McuLoad
  import Out = McuOutput
  import Walk = McuWalk

  const JDR_OK: int := 0
  const JDR_INTR: int := 1
  const JDR_PAR: int := 5

  // ----- what each step does -----

  /** A rectangle given to the output function, and its pixels row by row. */
  datatype Shown = Shown(rect: Out.Rect, words: seq<nat>)

  /** What does not change during decompression; `accept` is the answer of the output function to each
      rectangle in turn. */
  datatype Setup = Setup(stream: seq<nat>, coder: Load.Coder, dqf: seq<seq<int>>, grid: Walk.Grid, nrst: nat, scale: nat,
                         accept: nat -> bool)

  /** The place in the input, the DC values, and what has been output. */
  datatype State = State(p: Pos, dcv: seq<int>, shown: seq<Shown>)

  datatype Did = Did(rc: int, s: State)

  ghost predicate ValidSetup(g: Setup) {
    && |g.coder.dc| == |g.coder.ac| == 2
    && |g.dqf| == 3 && |g.dqf[0]| == |g.dqf[1]| == |g.dqf[2]| == 64
    && Walk.Valid(g.grid) && Out.Sampling(g.grid.mx, g.grid.my) && g.nrst < TWO16 && g.scale <= 3
  }

  function Nby(g: Setup): nat {
    Out.Blocks(g.grid.mx, g.grid.my)
  }

  /** A restart, if MCU number `k` comes after a complete interval. */
  function Marked(g: Setup, s: State, k: nat): Did {
    if Walk.Restarts(k, g.nrst) then
      var m := ReadMarker(g.stream, s.p, U16(k / g.nrst - 1));
      Did(m.v, State(m.p, [0, 0, 0], s.shown))
    else Did(JDR_OK, s)
  }

  /** The blocks of an MCU have 64 coefficients each. */
  predicate Whole(g: Setup, blocks: seq<seq<int>>) {
    |blocks| == Nby(g) + 2 && forall b :: 0 <= b < |blocks| ==> |blocks[b]| == 64
  }

  /** The bytes of the decoded blocks; with scale 1/8 only the first of each block counts. */
  function McuBytes(g: Setup, blocks: seq<seq<int>>): (mcu: seq<byte>)
    requires ValidSetup(g) && Whole(g, blocks)
    ensures |mcu| == Out.McuSize(Nby(g))
  {
    seq(64 * (Nby(g) + 2), j requires 0 <= j < 64 * (Nby(g) + 2) =>
      Load.BlockBytes(blocks[j / 64], g.dqf[Load.Component(Nby(g), j / 64)], g.scale, Zeros(64))[j % 64])
  }

  /** The part of the MCU at (x, y) that is in the image, in scaled pixels. */
  function Wide(g: Setup, x: nat): nat {
    Out.Visible(x, g.grid.mx, g.grid.width, g.scale)
  }

  function High(g: Setup, y: nat): nat {
    Out.Visible(y, g.grid.my, g.grid.height, g.scale)
  }

  function RectAt(g: Setup, x: nat, y: nat): Out.Rect
    requires Wide(g, x) > 0 && High(g, y) > 0
  {
    Out.Rect(Out.Shrunk(x, g.scale), Out.Shrunk(x, g.scale) + Wide(g, x) - 1,
             Out.Shrunk(y, g.scale), Out.Shrunk(y, g.scale) + High(g, y) - 1)
  }

  /** A rectangle with the pixels that these bytes give. */
  ghost function OneShown(g: Setup, mcu: seq<byte>, x: nat, y: nat): Shown
    requires Wide(g, x) > 0 && High(g, y) > 0
  {
    Shown(RectAt(g, x, y), Out.PackAll(Out.Rows(Out.Scaled(mcu, g.grid.mx, g.grid.my, g.scale), Wide(g, x), High(g, y))))
  }

  /** What is output for an MCU with these bytes: nothing, or one rectangle. */
  ghost function FromBytes(g: Setup, mcu: seq<byte>, x: nat, y: nat): seq<Shown> {
    if Wide(g, x) == 0 || High(g, y) == 0 then [] else [OneShown(g, mcu, x, y)]
  }

  /** What is output for an MCU with these blocks. */
  ghost function ShownAt(g: Setup, blocks: seq<seq<int>>, x: nat, y: nat): seq<Shown>
    requires ValidSetup(g) && Whole(g, blocks)
  {
    FromBytes(g, McuBytes(g, blocks), x, y)
  }

  /** The output of an MCU; the output function may refuse to go on. */
  ghost function Output(g: Setup, s: State, blocks: seq<seq<int>>, x: nat, y: nat): Did
    requires ValidSetup(g) && Whole(g, blocks)
  {
    var more := ShownAt(g, blocks, x, y);
    Did(if more == [] || g.accept(|s.shown|) then JDR_OK else JDR_INTR, s.(shown := s.shown + more))
  }

  /** Loading and output of an MCU. */
  ghost function LoadAndOutput(g: Setup, s: State, x: nat, y: nat): Did
    requires ValidSetup(g) && |s.dcv| == 3
  {
    var m := Load.DecodeBlocks(g.coder, s.p, s.dcv, Load.McuComponents(Nby(g)));
    if m.rc != JDR_OK then Did(m.rc, s)
    else if Whole(g, m.blocks) then Output(g, State(m.p, m.dcv, s.shown), m.blocks, x, y)
    else Did(JDR_INTR, s)
  }

  /** MCU number `k`, at (x, y). */
  ghost function McuStep(g: Setup, s: State, k: nat, x: nat, y: nat): Did
    requires ValidSetup(g) && |s.dcv| == 3
  {
    var d := Marked(g, s, k);
    if d.rc != JDR_OK then d else LoadAndOutput(g, d.s, x, y)
  }

  ghost function StepOf(g: Setup): (State, nat, nat, nat) -> Did {
    (s: State, k: nat, x: nat, y: nat) => if ValidSetup(g) && |s.dcv| == 3 then McuStep(g, s, k, x, y) else Did(JDR_INTR, s)
  }

  function PlacesOf(g: Setup): nat -> Walk.Place {
    (k: nat) => Walk.PlaceOf(g.grid, k)
  }

  /** The first `n` MCUs, up to the first failure or the end of the walk. */
  function Run(step: (State, nat, nat, nat) -> Did, place: nat -> Walk.Place, s: State, n: nat): Did {
    if n == 0 then Did(JDR_OK, s)
    else
      var d := Run(step, place, s, n - 1);
      match place(n - 1)
      case Over => d
      case At(x, y) => if d.rc != JDR_OK then d else step(d.s, n - 1, x, y)
  }

  ghost function RunMcus(g: Setup, s: State, n: nat): Did {
    Run(StepOf(g), PlacesOf(g), s, n)
  }

  lemma RunNext(g: Setup, s0: State, k: nat, s: State, x: nat, y: nat)
    requires ValidSetup(g) && |s.dcv| == 3
    requires RunMcus(g, s0, k) == Did(JDR_OK, s) && Walk.PlaceOf(g.grid, k) == Walk.At(x, y)
    ensures RunMcus(g, s0, k + 1) == McuStep(g, s, k, x, y)
  {
    assert StepOf(g)(s, k, x, y) == McuStep(g, s, k, x, y) && PlacesOf(g)(k) == Walk.At(x, y);
  }

  /** Past a failure or the end nothing more happens. */
  lemma {:induction false} RunSettles(step: (State, nat, nat, nat) -> Did, place: nat -> Walk.Place, s: State, n: nat, m: nat)
    requires n <= m && forall k: nat :: place(k) == Walk.Over ==> place(k + 1) == Walk.Over
    requires Run(step, place, s, n).rc != JDR_OK || place(n) == Walk.Over
    ensures Run(step, place, s, m) == Run(step, place, s, n)
    ensures Run(step, place, s, n).rc == JDR_OK ==> place(m) == Walk.Over
    decreases m
  {
    if n < m {
      RunSettles(step, place, s, n, m - 1);
      assert place(m - 1) == Walk.Over ==> place((m - 1) + 1) == Walk.Over;
    }
  }

  lemma RunsAgreeFor(step: (State, nat, nat, nat) -> Did, place: nat -> Walk.Place, s: State, n: nat, m: nat)
    requires forall k: nat :: place(k) == Walk.Over ==> place(k + 1) == Walk.Over
    requires Run(step, place, s, n).rc != JDR_OK || place(n) == Walk.Over
    requires Run(step, place, s, m).rc != JDR_OK || place(m) == Walk.Over
    ensures Run(step, place, s, n) == Run(step, place, s, m)
  {
    if n <= m { RunSettles(step, place, s, n, m); } else { RunSettles(step, place, s, m, n); }
  }

  lemma OverGoesOn(g: Setup, place: nat -> Walk.Place)
    requires place == PlacesOf(g)
    ensures forall k: nat :: place(k) == Walk.Over ==> place(k + 1) == Walk.Over
  {
    forall k: nat | place(k) == Walk.Over ensures place(k + 1) == Walk.Over {
      Walk.OverStays(g.grid, k, k + 1);
    }
  }

  /** Two runs that have come to a failure or to the end have come to the same. */
  lemma RunsAgree(g: Setup, s: State, n: nat, m: nat)
    requires RunMcus(g, s, n).rc != JDR_OK || Walk.PlaceOf(g.grid, n) == Walk.Over
    requires RunMcus(g, s, m).rc != JDR_OK || Walk.PlaceOf(g.grid, m) == Walk.Over
    ensures RunMcus(g, s, n) == RunMcus(g, s, m)
  {
    OverGoesOn(g, PlacesOf(g));
    RunsAgreeFor(StepOf(g), PlacesOf(g), s, n, m);
  }

  // ----- the pixels of a stored MCU -----

  lemma Place64(b: nat, i: nat)
    requires i < 64
    ensures (64 * b + i) / 64 == b && (64 * b + i) % 64 == i
  {
  }

  lemma BytesAt(g: Setup, blocks: seq<seq<int>>, b: nat, i: nat)
    requires ValidSetup(g) && Whole(g, blocks) && b < Nby(g) + 2 && i < 64
    ensures McuBytes(g, blocks)[64 * b + i] ==
      Load.BlockBytes(blocks[b], g.dqf[Load.Component(Nby(g), b)], g.scale, Zeros(64))[i]
  {
    Place64(b, i);
  }

  /** A stored MCU has these bytes where the output looks: all of them, or with scale 1/8 the first of
      each block. */
  lemma StoredBytes(g: Setup, mcu: seq<byte>, was: seq<byte>, blocks: seq<seq<int>>, b: nat, i: nat)
    requires ValidSetup(g) && Whole(g, blocks) && b < Nby(g) + 2 && i < 64 && (g.scale == 3 ==> i == 0)
    requires Load.StoredIn(mcu, was, blocks, g.dqf, Nby(g), g.scale)
    ensures mcu[64 * b + i] == McuBytes(g, blocks)[64 * b + i]
  {
    BytesAt(g, blocks, b, i);
    assert |blocks[b]| == 64;
    assert mcu[64 * b..64 * b + 64][i] == mcu[64 * b + i];
  }

  lemma WholeStored(g: Setup, mcu: seq<byte>, was: seq<byte>, blocks: seq<seq<int>>)
    requires ValidSetup(g) && Whole(g, blocks) && g.scale != 3
    requires Load.StoredIn(mcu, was, blocks, g.dqf, Nby(g), g.scale)
    ensures mcu == McuBytes(g, blocks)
  {
    forall j | 0 <= j < |mcu| ensures mcu[j] == McuBytes(g, blocks)[j] {
      assert j == 64 * (j / 64) + j % 64;
      StoredBytes(g, mcu, was, blocks, j / 64, j % 64);
    }
  }

  lemma CornersStored(g: Setup, mcu: seq<byte>, was: seq<byte>, blocks: seq<seq<int>>, x: nat, y: nat)
    requires ValidSetup(g) && Whole(g, blocks) && g.scale == 3
    requires Load.StoredIn(mcu, was, blocks, g.dqf, Nby(g), g.scale)
    ensures Out.CornerOf(mcu, g.grid.mx, g.grid.my, x, y) == Out.CornerOf(McuBytes(g, blocks), g.grid.mx, g.grid.my, x, y)
  {
    var (mx, my, n) := (g.grid.mx, g.grid.my, Nby(g));
    if 8 * x < mx && 8 * y < my {
      Out.CornerPlace(mx, my, mx / 8, x, y);
      StoredBytes(g, mcu, was, blocks, 2 * y + x, 0);
      StoredBytes(g, mcu, was, blocks, n, 0);
      StoredBytes(g, mcu, was, blocks, n + 1, 0);
    }
  }

  /** The rectangle of a stored MCU is that of its bytes. */
  lemma RowsStored(g: Setup, mcu: seq<byte>, was: seq<byte>, blocks: seq<seq<int>>, w: nat, h: nat)
    requires ValidSetup(g) && Whole(g, blocks)
    requires Load.StoredIn(mcu, was, blocks, g.dqf, Nby(g), g.scale)
    ensures Out.Rows(Out.Scaled(mcu, g.grid.mx, g.grid.my, g.scale), w, h) ==
      Out.Rows(Out.Scaled(McuBytes(g, blocks), g.grid.mx, g.grid.my, g.scale), w, h)
  {
    var (mx, my) := (g.grid.mx, g.grid.my);
    if g.scale == 3 {
      forall x: nat, y: nat | x < w && y < h ensures Out.Corners(mcu, mx, my)(x, y) == Out.Corners(McuBytes(g, blocks), mx, my)(x, y) {
        CornersStored(g, mcu, was, blocks, x, y);
      }
      Out.RowsAgree(Out.Corners(mcu, mx, my), Out.Corners(McuBytes(g, blocks), mx, my), w, h);
    } else {
      WholeStored(g, mcu, was, blocks);
    }
  }

  // ----- what is shown of an MCU, component by component -----

  /** The byte of a DC value at scale 1/8: a 256th of it, rounded toward zero, above 128. */
  predicate IsLevel(b: byte, dc: int) {
    -129 * 256 < dc < 128 * 256 ==>
      if dc >= 0 then 256 * (b - 128) <= dc < 256 * (b - 128) + 256 else 256 * (b - 128) - 256 < dc <= 256 * (b - 128)
  }

  /** These 64 bytes stand for a block with the factors `q`: they are its samples, or at scale 1/8 the
      first one is made of its DC value. */
  predicate StandsFor(bytes: seq<byte>, zz: seq<int>, q: seq<int>, scale: nat)
    requires |zz| == |q| == |bytes| == 64
  {
    if scale == 3 then IsLevel(bytes[0], Entropy.Raster(zz, q)[0]) else bytes == Idct.Samples(Entropy.Raster(zz, q))
  }

  /** The bytes of an MCU: its Y blocks with the factors of component 0, then a Cb block with those of
      component 1 and a Cr block with those of component 2. */
  predicate OfComponents(mcu: seq<byte>, blocks: seq<seq<int>>, dqf: seq<seq<int>>, nby: nat, scale: nat) {
    && |blocks| == nby + 2 && |mcu| == 64 * (nby + 2) && (forall b :: 0 <= b < nby + 2 ==> |blocks[b]| == 64)
    && |dqf| == 3 && |dqf[0]| == |dqf[1]| == |dqf[2]| == 64
    && (forall b :: 0 <= b < nby ==> StandsFor(mcu[64 * b..64 * b + 64], blocks[b], dqf[0], scale))
    && StandsFor(mcu[64 * nby..64 * nby + 64], blocks[nby], dqf[1], scale)
    && StandsFor(mcu[64 * nby + 64..64 * nby + 128], blocks[nby + 1], dqf[2], scale)
  }

  lemma LevelByte(dc: int, was: seq<byte>, zz: seq<int>, q: seq<int>)
    requires |zz| == |q| == |was| == 64 && dc == Entropy.Raster(zz, q)[0]
    ensures IsLevel(Load.BlockBytes(zz, q, 3, was)[0], dc)
  {
    CDivTruncates(dc, 256);
  }

  lemma BlockStands(g: Setup, blocks: seq<seq<int>>, b: nat)
    requires ValidSetup(g) && Whole(g, blocks) && b < Nby(g) + 2
    ensures |g.dqf[Load.Component(Nby(g), b)]| == 64
    ensures StandsFor(McuBytes(g, blocks)[64 * b..64 * b + 64], blocks[b], g.dqf[Load.Component(Nby(g), b)], g.scale)
  {
    var q, part := g.dqf[Load.Component(Nby(g), b)], McuBytes(g, blocks)[64 * b..64 * b + 64];
    var bytes := Load.BlockBytes(blocks[b], q, g.scale, Zeros(64));
    forall i | 0 <= i < 64 ensures part[i] == bytes[i] { BytesAt(g, blocks, b, i); }
    assert part == bytes;
    if g.scale == 3 { LevelByte(Entropy.Raster(blocks[b], q)[0], Zeros(64), blocks[b], q); }
  }

  lemma BytesOfComponents(g: Setup, blocks: seq<seq<int>>)
    requires ValidSetup(g) && Whole(g, blocks)
    ensures OfComponents(McuBytes(g, blocks), blocks, g.dqf, Nby(g), g.scale)
  {
    var n := Nby(g);
    forall b | 0 <= b < n ensures StandsFor(McuBytes(g, blocks)[64 * b..64 * b + 64], blocks[b], g.dqf[0], g.scale) {
      BlockStands(g, blocks, b);
    }
    BlockStands(g, blocks, n);
    BlockStands(g, blocks, n + 1);
  }

  /** What is shown for an MCU at (x, y): the pixels of the visible part, row by row, of the picture that
      the bytes of its components mean, in 16-bit words; the rectangle begins at the scaled place. */
  lemma ShownMeans(g: Setup, blocks: seq<seq<int>>, x: nat, y: nat) returns (mcu: seq<byte>, f: Out.Picture)
    requires ValidSetup(g) && Whole(g, blocks) && Wide(g, x) > 0 && High(g, y) > 0
    ensures OfComponents(mcu, blocks, g.dqf, Nby(g), g.scale) && Out.Meant(f, mcu, g.grid.mx, g.grid.my, g.scale)
    ensures |ShownAt(g, blocks, x, y)| == 1 && Drawn(ShownAt(g, blocks, x, y)[0], f, Wide(g, x), High(g, y))
    ensures ShownAt(g, blocks, x, y)[0].rect.left == x / Pow2(g.scale) && ShownAt(g, blocks, x, y)[0].rect.top == y / Pow2(g.scale)
  {
    mcu := McuBytes(g, blocks);
    f := Out.Scaled(mcu, g.grid.mx, g.grid.my, g.scale);
    BytesOfComponents(g, blocks);
    Out.ScaledIs(mcu, g.grid.mx, g.grid.my, g.scale);
    Out.ShrunkIs(x, g.scale);
    Out.ShrunkIs(y, g.scale);
    DrawnWords(f, RectAt(g, x, y), Wide(g, x), High(g, y));
  }

  /** A rectangle of `w` by `h` pixels with those of the picture `f` in 5, 6 and 5 bits, row by row. */
  ghost predicate Drawn(s: Shown, f: Out.Picture, w: nat, h: nat) {
    && s.rect.right - s.rect.left == w - 1 && s.rect.bottom - s.rect.top == h - 1
    && forall i: nat, j: nat :: i < w && j < h ==> DrawnAt(s, f(i, j), Out.Index(w, i, j))
  }

  predicate DrawnAt(s: Shown, p: Out.Rgb, k: nat) {
    && k < |s.words|
    && s.words[k] / 2048 == p.r / 8 && s.words[k] / 32 % 64 == p.g / 4 && s.words[k] % 32 == p.b / 8
  }

  lemma DrawnWords(f: Out.Picture, rect: Out.Rect, w: nat, h: nat)
    requires w > 0 && h > 0 && rect.right - rect.left == w - 1 && rect.bottom - rect.top == h - 1
    ensures Drawn(Shown(rect, Out.PackAll(Out.Rows(f, w, h))), f, w, h)
  {
    var s := Shown(rect, Out.PackAll(Out.Rows(f, w, h)));
    forall i: nat, j: nat | i < w && j < h ensures DrawnAt(s, f(i, j), Out.Index(w, i, j)) {
      Out.RowsAt(f, w, h, i, j);
      Out.Pack565Fields(f(i, j));
    }
  }
}
