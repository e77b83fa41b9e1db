/** The decompression of a whole image that was encoded as ITU-T T.81 prescribes: every MCU is output
    with the pixels of its blocks. */
module WholeImage {
  import opened Machine
  import opened Sequences
  import opened Chain
  import opened BitReader
  import opened Entropy
  import opened Scan
  import opened Decompress
  import Load = McuLoad
  import Out = McuOutput
  import Walk = McuWalk
  import Decoder

  // ----- restart intervals of MCUs -----

  /** The components of the blocks of `n` MCUs. */
  function Repeated(cmps: seq<nat>, n: nat): seq<nat> {
    if n == 0 then [] else cmps + Repeated(cmps, n - 1)
  }

  function Flat(mcus: seq<seq<seq<int>>>): seq<seq<int>>
    decreases |mcus|
  {
    if mcus == [] then [] else mcus[0] + Flat(mcus[1..])
  }

  /** The MCUs from number `k` up to the next restart, or to the last one. */
  function IntervalEnd(total: nat, nrst: nat, k: nat): (e: nat)
    requires k < total
    ensures k < e <= total
  {
    if nrst == 0 || total <= k + nrst then total else k + nrst
  }

  /** The components of the blocks of an MCU as the encoder interleaves them: the Y blocks (0), Cb (1)
      and Cr (2) (section A.2.3 of ITU-T T.81). */
  function Interleaved(g: Setup): seq<nat> {
    if g.grid.mx == 8 then [0, 1, 2] else if g.grid.my == 8 then [0, 0, 1, 2] else [0, 0, 0, 0, 1, 2]
  }

  /** The decoder takes the blocks of an MCU for those components. */
  lemma DecodesInterleaved(g: Setup)
    ensures Load.McuComponents(Nby(g)) == Interleaved(g)
  {
  }

  function IntervalFrom(g: Setup, mcus: seq<seq<seq<int>>>, k: nat): Interval
    requires k < |mcus|
  {
    var e := IntervalEnd(|mcus|, g.nrst, k);
    Interval(Repeated(Interleaved(g), e - k), Flat(mcus[k..e]))
  }

  /** The restart intervals of the MCUs from number `k` on. */
  function Intervals(g: Setup, mcus: seq<seq<seq<int>>>, k: nat): (ivs: seq<Interval>)
    requires k < |mcus|
    ensures ivs != []
    decreases |mcus| - k
  {
    var e := IntervalEnd(|mcus|, g.nrst, k);
    [IntervalFrom(g, mcus, k)] + (if e == |mcus| then [] else Intervals(g, mcus, e))
  }

  // ----- the run over one interval -----

  lemma {:induction false} BlocksCount(c: Load.Coder, p: Pos, dcv: seq<int>, cmps: seq<nat>)
    requires |c.dc| == |c.ac| == 2 && |dcv| == 3
    ensures var m := Load.DecodeBlocks(c, p, dcv, cmps);
      m.rc == JDR_OK ==> |m.blocks| == |cmps|
    decreases |cmps|
  {
    if cmps != [] && cmps[0] < 3 {
      var id := Load.TableId(cmps[0]);
      var b := DecodeBlock(c.dc[id], c.ac[id], p, dcv[cmps[0]]);
      Load.BlocksFirst(c, p, dcv, cmps, b);
      if b.rc == JDR_OK { BlocksCount(c, b.p, dcv[cmps[0] := b.dcv], cmps[1..]); }
    }
  }

  /** The blocks of the first MCU, then those of the others. */
  lemma FirstMcu(c: Load.Coder, p: Pos, dcv: seq<int>, cmps: seq<nat>, mcu: seq<seq<int>>, others: seq<seq<int>>, n: nat)
    requires |c.dc| == |c.ac| == 2 && |dcv| == 3 && n > 0 && |mcu| == |cmps|
    requires var m := Load.DecodeBlocks(c, p, dcv, Repeated(cmps, n));
      m.rc == JDR_OK && m.blocks == mcu + others
    ensures var (f, m) := (Load.DecodeBlocks(c, p, dcv, cmps), Load.DecodeBlocks(c, p, dcv, Repeated(cmps, n)));
      && f.rc == JDR_OK && f.blocks == mcu && |f.dcv| == 3
      && var rest := Load.DecodeBlocks(c, f.p, f.dcv, Repeated(cmps, n - 1));
        rest.rc == JDR_OK && rest.blocks == others && rest.p == m.p
  {
    var f := Load.DecodeBlocks(c, p, dcv, cmps);
    Load.BlocksInParts(c, p, dcv, cmps, Repeated(cmps, n - 1));
    BlocksCount(c, p, dcv, cmps);
    var rest := Load.DecodeBlocks(c, f.p, f.dcv, Repeated(cmps, n - 1));
    assert (f.blocks + rest.blocks)[..|cmps|] == f.blocks && (mcu + others)[..|cmps|] == mcu;
    assert (f.blocks + rest.blocks)[|cmps|..] == rest.blocks && (mcu + others)[|cmps|..] == others;
  }

  /** The blocks of MCU number `k` are decoded from `p` with the DC values `dcv`. */
  predicate Ready(g: Setup, s: State, k: nat, p: Pos, dcv: seq<int>) {
    if Walk.Restarts(k, g.nrst) then ReadMarker(g.stream, s.p, U16(k / g.nrst - 1)) == Got(JDR_OK, p) && dcv == [0, 0, 0]
    else s.p == p && s.dcv == dcv
  }

  /** The image is this: its MCUs are whole and in the grid, and the output function takes them all. */
  ghost predicate Image(g: Setup, mcus: seq<seq<seq<int>>>) {
    && ValidSetup(g) && (forall n: nat :: g.accept(n))
    && (forall k: nat :: k < |mcus| ==> Whole(g, mcus[k]) && Walk.PlaceOf(g.grid, k).At?)
  }

  /** What is output for the first `k` MCUs. */
  ghost function ShownAll(g: Setup, mcus: seq<seq<seq<int>>>, k: nat): seq<Shown>
    requires Image(g, mcus) && k <= |mcus|
  {
    if k == 0 then []
    else
      var p := Walk.PlaceOf(g.grid, k - 1);
      ShownAll(g, mcus, k - 1) + ShownAt(g, mcus[k - 1], p.x, p.y)
  }

  /** `k` MCUs have been decoded and output. */
  ghost predicate Reached(g: Setup, s0: State, mcus: seq<seq<seq<int>>>, k: nat, s: State) {
    && Image(g, mcus) && k <= |mcus| && |s.dcv| == 3
    && RunMcus(g, s0, k) == Did(JDR_OK, s) && s.shown == ShownAll(g, mcus, k)
  }

  /** The same, for a proof that asks for it. */
  ghost predicate Arrived(g: Setup, s0: State, mcus: seq<seq<seq<int>>>, k: nat, s: State) {
    && (k < |mcus| ==> |mcus[k]| == Nby(g) + 2)
    && forall n: nat {:trigger Asked(n)} :: Asked(n) ==> Reached(g, s0, mcus, k, s)
  }

  /** An MCU that is decoded to these blocks. A proof that needs to know how asks for it. */
  ghost predicate DecodedAs(g: Setup, p: Pos, dcv: seq<int>, mcu: seq<seq<int>>, f: Load.Mcu) {
    |f.dcv| == 3 && forall n: nat {:trigger Asked(n)} :: Asked(n) ==>
      && |g.coder.dc| == |g.coder.ac| == 2 && |dcv| == 3
      && f == Load.DecodeBlocks(g.coder, p, dcv, Load.McuComponents(Nby(g))) && f.rc == JDR_OK && f.blocks == mcu
  }

  /** One MCU that is decoded as it should is output. */
  lemma OneMore(g: Setup, s0: State, mcus: seq<seq<seq<int>>>, k: nat, s: State, p: Pos, dcv: seq<int>, f: Load.Mcu) returns (t: State)
    requires Arrived(g, s0, mcus, k, s) && k < |mcus| && |dcv| == 3 && Ready(g, s, k, p, dcv)
    requires DecodedAs(g, p, dcv, mcus[k], f)
    ensures Arrived(g, s0, mcus, k + 1, t) && t.p == f.p && t.dcv == f.dcv
  {
    assert Asked(0);
    t := OneReached(g, s0, mcus, k, s, p, dcv, f);
    assert k + 1 < |mcus| ==> Whole(g, mcus[k + 1]);
  }

  lemma OneReached(g: Setup, s0: State, mcus: seq<seq<seq<int>>>, k: nat, s: State, p: Pos, dcv: seq<int>, f: Load.Mcu) returns (t: State)
    requires Reached(g, s0, mcus, k, s) && k < |mcus| && |dcv| == 3 && Ready(g, s, k, p, dcv)
    requires |g.coder.dc| == |g.coder.ac| == 2 && |f.dcv| == 3
    requires f == Load.DecodeBlocks(g.coder, p, dcv, Load.McuComponents(Nby(g))) && f.rc == JDR_OK && f.blocks == mcus[k]
    ensures Reached(g, s0, mcus, k + 1, t) && t.p == f.p && t.dcv == f.dcv
  {
    var place := Walk.PlaceOf(g.grid, k);
    assert Whole(g, mcus[k]) && g.accept(|s.shown|);
    RunNext(g, s0, k, s, place.x, place.y);
    assert Marked(g, s, k) == Did(JDR_OK, State(p, dcv, s.shown));
    t := State(f.p, f.dcv, s.shown + ShownAt(g, mcus[k], place.x, place.y));
  }

  /** From `p` and `dcv`, the blocks of the MCUs from number `k` up to `e` are read, and `end` comes after. */
  ghost predicate DecodesTo(g: Setup, p: Pos, dcv: seq<int>, mcus: seq<seq<seq<int>>>, k: nat, e: nat, end: Pos) {
    && k <= e <= |mcus| && |g.coder.dc| == |g.coder.ac| == 2 && |dcv| == 3
    && forall n: nat {:trigger Asked(n)} :: Asked(n) ==>
      var m := Load.DecodeBlocks(g.coder, p, dcv, Repeated(Load.McuComponents(Nby(g)), e - k));
      m.rc == JDR_OK && m.blocks == Flat(mcus[k..e]) && m.p == end
  }

  lemma DecodesFirst(g: Setup, p: Pos, dcv: seq<int>, mcus: seq<seq<seq<int>>>, k: nat, e: nat, end: Pos) returns (f: Load.Mcu)
    requires DecodesTo(g, p, dcv, mcus, k, e, end) && k < e && |mcus[k]| == Nby(g) + 2
    ensures DecodedAs(g, p, dcv, mcus[k], f) && DecodesTo(g, f.p, f.dcv, mcus, k + 1, e, end)
  {
    assert Asked(0);
    var cmps := Load.McuComponents(Nby(g));
    f := Load.DecodeBlocks(g.coder, p, dcv, cmps);
    FlatFirst(mcus, k, e);
    FirstMcu(g.coder, p, dcv, cmps, mcus[k], Flat(mcus[k + 1..e]), e - k);
  }

  lemma FlatFirst(mcus: seq<seq<seq<int>>>, k: nat, e: nat)
    requires k < e <= |mcus|
    ensures Flat(mcus[k..e]) == mcus[k] + Flat(mcus[k + 1..e])
  {
    assert mcus[k..e][0] == mcus[k] && mcus[k..e][1..] == mcus[k + 1..e];
  }

  /** A place in an interval that ends before MCU number `e`. */
  datatype Point = Point(k: nat, s: State, p: Pos, dcv: seq<int>)

  /** No restart comes between MCU number `k` and number `e`. A proof that needs this asks for it. */
  ghost predicate Unbroken(nrst: nat, k: nat, e: nat) {
    forall n: nat {:trigger Asked(n)} :: Asked(n) ==> forall j: nat :: k < j < e ==> !Walk.Restarts(j, nrst)
  }

  ghost predicate InInterval(g: Setup, s0: State, mcus: seq<seq<seq<int>>>, e: nat, end: Pos, x: Point) {
    && Arrived(g, s0, mcus, x.k, x.s) && x.k <= e <= |mcus|
    && (if x.k == e then x.s.p == end else Ready(g, x.s, x.k, x.p, x.dcv) && DecodesTo(g, x.p, x.dcv, mcus, x.k, e, end))
    && Unbroken(g.nrst, x.k, e)
  }

  lemma NextInInterval(g: Setup, s0: State, mcus: seq<seq<seq<int>>>, e: nat, end: Pos, x: Point) returns (y: Point)
    requires InInterval(g, s0, mcus, e, end, x) && x.k < e
    ensures InInterval(g, s0, mcus, e, end, y) && y.k == x.k + 1
  {
    var t := NextOutput(g, s0, mcus, e, end, x.k, x.s, x.p, x.dcv);
    y := Point(x.k + 1, t, t.p, t.dcv);
    StillInInterval(g, s0, mcus, e, end, x.k, t);
  }

  lemma NextOutput(g: Setup, s0: State, mcus: seq<seq<seq<int>>>, e: nat, end: Pos, k: nat, s: State, p: Pos, dcv: seq<int>) returns (t: State)
    requires Arrived(g, s0, mcus, k, s) && k < e <= |mcus| && Ready(g, s, k, p, dcv) && DecodesTo(g, p, dcv, mcus, k, e, end)
    ensures Arrived(g, s0, mcus, k + 1, t) && DecodesTo(g, t.p, t.dcv, mcus, k + 1, e, end)
  {
    var f := DecodesFirst(g, p, dcv, mcus, k, e, end);
    t := OneMore(g, s0, mcus, k, s, p, dcv, f);
  }

  /** Inside an interval, the reader and the DC values are just carried over. */
  lemma StillInInterval(g: Setup, s0: State, mcus: seq<seq<seq<int>>>, e: nat, end: Pos, k: nat, t: State)
    requires Arrived(g, s0, mcus, k + 1, t) && k < e <= |mcus| && Unbroken(g.nrst, k, e)
    requires DecodesTo(g, t.p, t.dcv, mcus, k + 1, e, end)
    ensures InInterval(g, s0, mcus, e, end, Point(k + 1, t, t.p, t.dcv))
  {
    if k + 1 == e {
      NothingLeft(g, t.p, t.dcv, mcus, e, end);
    } else {
      assert Asked(0);
      assert Ready(g, t, k + 1, t.p, t.dcv);
    }
  }

  lemma NothingLeft(g: Setup, p: Pos, dcv: seq<int>, mcus: seq<seq<seq<int>>>, e: nat, end: Pos)
    ensures DecodesTo(g, p, dcv, mcus, e, e, end) ==> p == end
  {
    assert Asked(0);
  }

  ghost function Points(g: Setup, s0: State, mcus: seq<seq<seq<int>>>, e: nat, end: Pos): Point -> bool {
    (z: Point) => InInterval(g, s0, mcus, e, end, z)
  }

  function PointsLeft(e: nat): Point -> nat {
    (z: Point) => if z.k <= e then e - z.k else 0
  }

  lemma PointsLead(g: Setup, s0: State, mcus: seq<seq<seq<int>>>, e: nat, end: Pos, going: Point -> bool, left: Point -> nat)
    requires going == Points(g, s0, mcus, e, end) && left == PointsLeft(e)
    ensures forall z | going(z) && left(z) > 0 :: exists y :: Closer(going, left, z, y)
  {
    forall z: Point | going(z) && left(z) > 0 ensures exists y :: Closer(going, left, z, y) {
      var y := NextInInterval(g, s0, mcus, e, end, z);
      assert Closer(going, left, z, y);
    }
  }

  /** All MCUs of an interval are output. */
  lemma IntervalReached(g: Setup, s0: State, mcus: seq<seq<seq<int>>>, e: nat, end: Pos, x: Point) returns (t: State)
    requires InInterval(g, s0, mcus, e, end, x)
    ensures Arrived(g, s0, mcus, e, t) && t.p == end
  {
    var going, left := Points(g, s0, mcus, e, end), PointsLeft(e);
    PointsLead(g, s0, mcus, e, end, going, left);
    var y := Follow(going, left, x);
    t := y.s;
  }

  // ----- the run over all of them -----

  /** What the encoder needs: usable tables, in use by the decoder, that can code every interval. */
  ghost predicate Encodable(g: Setup, ts: Tables2, ivs: seq<Interval>) {
    && UsableTables(ts) && g.coder == Load.CoderOf(g.stream, ts.dct, ts.act)
    && forall i :: 0 <= i < |ivs| ==> CodableInterval(ts, ivs[i])
  }

  lemma NoRestartInside(total: nat, nrst: nat, k: nat, i: nat)
    requires k < total && (nrst > 0 ==> k == i * nrst)
    ensures var e := IntervalEnd(total, nrst, k);
      && Unbroken(nrst, k, e)
      && (e < total ==> e == (i + 1) * nrst && Walk.Restarts(e, nrst) && e / nrst - 1 == i)
  {
    var e := IntervalEnd(total, nrst, k);
    if nrst > 0 {
      forall j: nat | k < j < e ensures !Walk.Restarts(j, nrst) { ModUnique(j, nrst, i, j - k); }
      if e < total {
        assert e == nrst * (i + 1) + 0;
        ModUnique(e, nrst, i + 1, 0);
      }
    }
  }

  lemma SameMarker(stream: seq<nat>, p: Pos, i: nat)
    ensures ReadMarker(stream, p, U16(i)) == ReadMarker(stream, p, i)
  {
    assert U16(i) % 8 == i % 8;
  }

  lemma NextSuffix(g: Setup, mcus: seq<seq<seq<int>>>, ivs: seq<Interval>, i: nat, k: nat)
    requires k < |mcus| && i < |ivs| && ivs[i..] == Intervals(g, mcus, k)
    ensures ivs[i] == IntervalFrom(g, mcus, k)
    ensures var e := IntervalEnd(|mcus|, g.nrst, k);
      e < |mcus| ==> i + 1 < |ivs| && ivs[i + 1..] == Intervals(g, mcus, e)
  {
    assert ivs[i] == ivs[i..][0] && ivs[i + 1..] == ivs[i..][1..];
  }

  /** Interval `i`, which begins with MCU number `k`, is ready to be decoded. */
  datatype Start = Start(i: nat, k: nat, s: State, p: Pos)

  ghost predicate AtInterval(g: Setup, ts: Tables2, s0: State, mcus: seq<seq<seq<int>>>, ivs: seq<Interval>, x: Start) {
    && Arrived(g, s0, mcus, x.k, x.s) && x.k <= |mcus| && Encodable(g, ts, ivs)
    && (x.k < |mcus| ==>
         && Ready(g, x.s, x.k, x.p, [0, 0, 0])
         && x.i < |ivs| && ivs[x.i..] == Intervals(g, mcus, x.k) && (g.nrst > 0 ==> x.k == x.i * g.nrst)
         && Begins(g.stream, ts, ivs, x.i, x.p))
  }

  /** An interval that is read decodes to its MCUs. */
  lemma IntervalDecodes(g: Setup, mcus: seq<seq<seq<int>>>, ivs: seq<Interval>, i: nat, k: nat, p: Pos, q: Pos) returns (end: Pos)
    requires i < |ivs| && k < |mcus| && ivs[i] == IntervalFrom(g, mcus, k) && IntervalAt(g.stream, g.coder, p, ivs, i, q)
    ensures DecodesTo(g, p, [0, 0, 0], mcus, k, IntervalEnd(|mcus|, g.nrst, k), end)
    ensures i + 1 < |ivs| ==> ReadMarker(g.stream, end, i) == Got(JDR_OK, q)
  {
    DecodesInterleaved(g);
    end := Load.DecodeBlocks(g.coder, p, [0, 0, 0], ivs[i].cmps).p;
  }

  /** Interval `i` of the scan decodes to its MCUs, and the next one begins after its marker. */
  lemma ScanInterval(g: Setup, ts: Tables2, mcus: seq<seq<seq<int>>>, ivs: seq<Interval>, i: nat, k: nat, p: Pos) returns (end: Pos, q: Pos)
    requires Encodable(g, ts, ivs) && i < |ivs| && k < |mcus| && ivs[i] == IntervalFrom(g, mcus, k)
    requires Begins(g.stream, ts, ivs, i, p)
    ensures DecodesTo(g, p, [0, 0, 0], mcus, k, IntervalEnd(|mcus|, g.nrst, k), end)
    ensures i + 1 < |ivs| ==> ReadMarker(g.stream, end, U16(i)) == Got(JDR_OK, q)
    ensures i + 1 < |ivs| ==> Begins(g.stream, ts, ivs, i + 1, q)
  {
    q := IntervalOfScan(g.stream, ts, p, ivs, i);
    end := IntervalDecodes(g, mcus, ivs, i, k, p, q);
    SameMarker(g.stream, end, i);
  }

  lemma NextInterval(g: Setup, ts: Tables2, s0: State, mcus: seq<seq<seq<int>>>, ivs: seq<Interval>, x: Start) returns (y: Start)
    requires AtInterval(g, ts, s0, mcus, ivs, x) && x.k < |mcus|
    ensures AtInterval(g, ts, s0, mcus, ivs, y) && y.k > x.k
  {
    var e := IntervalEnd(|mcus|, g.nrst, x.k);
    NextSuffix(g, mcus, ivs, x.i, x.k);
    var end, q := ScanInterval(g, ts, mcus, ivs, x.i, x.k, x.p);
    NoRestartInside(|mcus|, g.nrst, x.k, x.i);
    var t := IntervalReached(g, s0, mcus, e, end, Point(x.k, x.s, x.p, [0, 0, 0]));
    y := Start(x.i + 1, e, t, q);
  }

  ghost function Starts(g: Setup, ts: Tables2, s0: State, mcus: seq<seq<seq<int>>>, ivs: seq<Interval>): Start -> bool {
    (z: Start) => AtInterval(g, ts, s0, mcus, ivs, z)
  }

  function McusLeft(total: nat): Start -> nat {
    (z: Start) => if z.k <= total then total - z.k else 0
  }

  lemma StartsLead(g: Setup, ts: Tables2, s0: State, mcus: seq<seq<seq<int>>>, ivs: seq<Interval>, going: Start -> bool, left: Start -> nat)
    requires going == Starts(g, ts, s0, mcus, ivs) && left == McusLeft(|mcus|)
    ensures forall z | going(z) && left(z) > 0 :: exists y :: Closer(going, left, z, y)
  {
    forall z: Start | going(z) && left(z) > 0 ensures exists y :: Closer(going, left, z, y) {
      var y := NextInterval(g, ts, s0, mcus, ivs, z);
      assert Closer(going, left, z, y);
    }
  }

  lemma StartsEnd(g: Setup, ts: Tables2, s0: State, mcus: seq<seq<seq<int>>>, ivs: seq<Interval>, going: Start -> bool, left: Start -> nat,
                  y: Start)
    requires going == Starts(g, ts, s0, mcus, ivs) && left == McusLeft(|mcus|)
    requires going(y) && left(y) == 0
    ensures Reached(g, s0, mcus, |mcus|, y.s)
  {
    assert Asked(0);
  }

  lemma FirstStart(g: Setup, ts: Tables2, mcus: seq<seq<seq<int>>>, p: Pos, s0: State, ivs: seq<Interval>, going: Start -> bool)
    requires Image(g, mcus) && mcus != [] && ivs == Intervals(g, mcus, NONE) && Encodable(g, ts, ivs)
    requires Begins(g.stream, ts, ivs, NONE, p) && s0 == State(p, [0, 0, 0], [])
    requires going == Starts(g, ts, s0, mcus, ivs)
    ensures going(Start(NONE, NONE, s0, p))
  {
    assert ivs[NONE..] == ivs;
    assert Reached(g, s0, mcus, NONE, s0);
    assert Whole(g, mcus[NONE]);
  }

  /** Decompressing an encoded image, from where its scan begins, succeeds and outputs every MCU with the
      pixels of its blocks. */
  lemma ImageReached(g: Setup, ts: Tables2, mcus: seq<seq<seq<int>>>, p: Pos) returns (t: State)
    requires Image(g, mcus) && mcus != [] && Encodable(g, ts, Intervals(g, mcus, NONE))
    requires Begins(g.stream, ts, Intervals(g, mcus, NONE), NONE, p)
    ensures Reached(g, State(p, [0, 0, 0], []), mcus, |mcus|, t)
  {
    var s0, ivs := State(p, [0, 0, 0], []), Intervals(g, mcus, NONE);
    var going, left := Starts(g, ts, s0, mcus, ivs), McusLeft(|mcus|);
    FirstStart(g, ts, mcus, p, s0, ivs, going);
    t := RunOut(g, ts, s0, mcus, ivs, going, left, Start(NONE, NONE, s0, p));
  }

  lemma RunOut(g: Setup, ts: Tables2, s0: State, mcus: seq<seq<seq<int>>>, ivs: seq<Interval>, going: Start -> bool, left: Start -> nat,
               x: Start) returns (t: State)
    requires going == Starts(g, ts, s0, mcus, ivs) && left == McusLeft(|mcus|) && going(x)
    ensures Reached(g, s0, mcus, |mcus|, t)
  {
    StartsLead(g, ts, s0, mcus, ivs, going, left);
    var y := Follow(going, left, x);
    StartsEnd(g, ts, s0, mcus, ivs, going, left, y);
    t := y.s;
  }

  /** Whole MCUs, as many as the grid has. */
  lemma ImageInGrid(g: Setup, mcus: seq<seq<seq<int>>>)
    requires ValidSetup(g) && Walk.GridFits(g.grid) && |mcus| == Walk.Total(g.grid) && forall n: nat :: g.accept(n)
    requires forall k: nat :: k < |mcus| ==> Whole(g, mcus[k])
    ensures Image(g, mcus) && mcus != [] && Walk.PlaceOf(g.grid, |mcus|) == Walk.Over
  {
    Walk.OverAfterAll(g.grid);
    forall k: nat | k < |mcus| ensures Walk.PlaceOf(g.grid, k).At? {
      var c, r := Walk.PlacedBefore(g.grid, k);
    }
  }

  /** What is output for a number of MCUs, as a function of it. */
  ghost function Growing(g: Setup, mcus: seq<seq<seq<int>>>): nat -> seq<Shown> {
    (k: nat) => if Image(g, mcus) && k <= |mcus| then ShownAll(g, mcus, k) else []
  }

  ghost predicate GrowsAt(f: nat -> seq<Shown>, i: nat) {
    f(i) <= f(i + 1)
  }

  lemma {:induction false} Grows(f: nat -> seq<Shown>, k: nat, n: nat)
    requires k <= n && forall i: nat :: k <= i < n ==> GrowsAt(f, i)
    ensures f(k) <= f(n)
    decreases n
  {
    if k < n {
      Grows(f, k, n - 1);
      assert GrowsAt(f, n - 1);
    }
  }

  lemma ShownPrefix(g: Setup, mcus: seq<seq<seq<int>>>, k: nat)
    requires Image(g, mcus) && k <= |mcus|
    ensures ShownAll(g, mcus, k) <= ShownAll(g, mcus, |mcus|)
  {
    var f := Growing(g, mcus);
    forall i: nat | k <= i < |mcus| ensures GrowsAt(f, i) {
      ShownGrows(g, mcus, i, f);
    }
    Grows(f, k, |mcus|);
  }

  lemma ShownGrows(g: Setup, mcus: seq<seq<seq<int>>>, k: nat, f: nat -> seq<Shown>)
    requires Image(g, mcus) && k < |mcus| && f == Growing(g, mcus)
    ensures GrowsAt(f, k)
  {
    ShownNext(g, mcus, k);
  }

  lemma ShownNext(g: Setup, mcus: seq<seq<seq<int>>>, k: nat)
    requires Image(g, mcus) && k < |mcus|
    ensures var p := Walk.PlaceOf(g.grid, k);
      p.At? && Whole(g, mcus[k]) && ShownAll(g, mcus, k + 1) == ShownAll(g, mcus, k) + ShownAt(g, mcus[k], p.x, p.y)
  {
  }

  /** Every MCU of an image that is visible at its scale is shown where it belongs: with the pixels that
      its Y, Cb and Cr blocks mean, each dequantized with the factors of its component. */
  lemma McuShown(g: Setup, mcus: seq<seq<seq<int>>>, k: nat, x: nat, y: nat) returns (s: Shown, mcu: seq<byte>, f: Out.Picture)
    requires Image(g, mcus) && k < |mcus| && Walk.PlaceOf(g.grid, k) == Walk.At(x, y) && Wide(g, x) > 0 && High(g, y) > 0
    ensures s in ShownAll(g, mcus, |mcus|) && Drawn(s, f, Wide(g, x), High(g, y))
    ensures s.rect.left == x / Pow2(g.scale) && s.rect.top == y / Pow2(g.scale)
    ensures OfComponents(mcu, mcus[k], g.dqf, |mcus[k]| - 2, g.scale) && Out.Meant(f, mcu, g.grid.mx, g.grid.my, g.scale)
  {
    assert Whole(g, mcus[k]);
    mcu, f := ShownMeans(g, mcus[k], x, y);
    s := ShownAt(g, mcus[k], x, y)[0];
    ShownNext(g, mcus, k);
    ShownPrefix(g, mcus, k + 1);
    InPrefix(ShownAll(g, mcus, k), ShownAt(g, mcus[k], x, y), ShownAll(g, mcus, |mcus|));
  }

  lemma InPrefix(a: seq<Shown>, b: seq<Shown>, all: seq<Shown>)
    requires b != [] && a + b <= all
    ensures b[0] in all
  {
    assert (a + b)[|a|] == all[|a|];
  }

  /** The decoder on an encoded image: it succeeds, and the output function has been given, MCU by MCU,
      the visible rectangles with the pixels of their blocks. */
  method DecodeEncoded(dec: Decoder.Decoder, scale: nat, ghost ts: Tables2, ghost mcus: seq<seq<seq<int>>>, ghost g: Setup) returns (rc: int)
    requires dec.Valid() && dec.shown == [] && scale <= 3 && g == dec.G().(scale := scale)
    requires Walk.GridFits(g.grid) && |mcus| == Walk.Total(g.grid) && forall n: nat :: g.accept(n)
    requires forall k: nat :: k < |mcus| ==> Whole(g, mcus[k])
    requires mcus != [] ==> Encodable(g, ts, Intervals(g, mcus, NONE)) && Begins(g.stream, ts, Intervals(g, mcus, NONE), NONE, dec.S().p)
    modifies dec`shown, dec.jd.reader, dec.jd.reader.inbuf, dec.jd.tmp, dec.jd.mem, dec.jd`dcv, dec.jd`scale
    ensures rc == JDR_OK && Image(g, mcus) && dec.shown == ShownAll(g, mcus, |mcus|)
  {
    ghost var p := dec.S().p;
    ImageInGrid(g, mcus);
    ghost var t := ImageReached(g, ts, mcus, p);
    ghost var n;
    rc, n := dec.Decomp(scale);
    RunsAgree(g, State(p, [0, 0, 0], []), n, |mcus|);
  }
}
