/** The decompressor object at work (jd_decomp): the loops over rows and MCUs, with the restart
    counters, on the reader, the tables and the shared memory. */
module Decoder {
  import opened Machine
  import Huffman
  import opened BitReader
  import opened Sequences
  import opened Progress
  import opened Decompress
  import Load = McuLoad
  import Out = McuOutput
  import Walk = McuWalk

  /** MCU number `k` comes to `d`. A proof that needs to know how asks for it. */
  ghost predicate Comes(g: Setup, s: State, k: nat, x: nat, y: nat, d: Did) {
    forall n: nat {:trigger Asked(n)} :: Asked(n) ==> ValidSetup(g) && |s.dcv| == 3 && d == McuStep(g, s, k, x, y)
  }

  lemma MarkedTakes(g: Setup, s: State, k: nat)
    requires s.p.next <= |g.stream| && Marked(g, s, k).rc == JDR_OK
    ensures From(g.stream, s.p, Marked(g, s, k).s.p)
  {
    if Walk.Restarts(k, g.nrst) { MarkerTaken(g.stream, s.p, U16(k / g.nrst - 1)); }
  }

  lemma LoadTakes(g: Setup, dct: seq<Huffman.Table>, act: seq<Huffman.Table>, s: State, x: nat, y: nat)
    requires ValidSetup(g) && |s.dcv| == 3 && s.p.next <= |g.stream|
    requires |dct| == |act| == 2 && g.coder == Load.CoderOf(g.stream, dct, act)
    ensures var d := LoadAndOutput(g, s, x, y);
      d.rc == JDR_OK ==> Past(g.stream, s.p, d.s.p)
  {
    BlocksTaken(g.stream, dct, act, g.coder, s.p, s.dcv, Load.McuComponents(Nby(g)));
  }

  /** An MCU that succeeds takes bits of the input. */
  lemma StepTakes(g: Setup, dct: seq<Huffman.Table>, act: seq<Huffman.Table>, s: State, k: nat, x: nat, y: nat)
    requires ValidSetup(g) && |s.dcv| == 3 && s.p.next <= |g.stream|
    requires |dct| == |act| == 2 && g.coder == Load.CoderOf(g.stream, dct, act)
    ensures var d := McuStep(g, s, k, x, y);
      d.rc == JDR_OK ==> Past(g.stream, s.p, d.s.p)
  {
    var d := Marked(g, s, k);
    if d.rc == JDR_OK {
      MarkedTakes(g, s, k);
      LoadTakes(g, dct, act, d.s, x, y);
    }
  }

  /** The next MCU of a run: what it comes to, and that it takes bits of the input. */
  lemma NextDid(g: Setup, run: Path, dct: seq<Huffman.Table>, act: seq<Huffman.Table>, s: State, k: nat, x: nat, y: nat) returns (d: Did)
    requires ValidSetup(g) && |s.dcv| == 3 && s.p.next <= |g.stream| && Tied(run, g)
    requires |dct| == |act| == 2 && g.coder == Load.CoderOf(g.stream, dct, act)
    requires run.To(k, s) && Walk.PlaceOf(g.grid, k) == Walk.At(x, y)
    ensures Comes(g, s, k, x, y, d) && run.run(k + 1) == d
    ensures d.rc == JDR_OK ==> Past(g.stream, s.p, d.s.p)
  {
    assert Asked(0);
    d := McuStep(g, s, k, x, y);
    RunNext(g, run.start, k, s, x, y);
    StepTakes(g, dct, act, s, k, x, y);
  }

  lemma ShownIs(g: Setup, mcu: seq<byte>, was: seq<byte>, blocks: seq<seq<int>>, x: nat, y: nat)
    requires ValidSetup(g) && Whole(g, blocks) && Load.StoredIn(mcu, was, blocks, g.dqf, Nby(g), g.scale)
    ensures ShownAt(g, blocks, x, y) == FromBytes(g, mcu, x, y)
  {
    RowsStored(g, mcu, was, blocks, Wide(g, x), High(g, y));
  }

  class Decoder {
    const jd: Load.Jdec
    const out: Out.Mcu
    const grid: Walk.Grid
    const nrst: nat
    /** What the output function answers to each rectangle in turn. */
    const accept: nat -> bool
    /** The rectangles that it has been given. */
    var shown: seq<Shown>

    /** The buffers at the end of jd_prepare: one after the other, shared by loading and output. */
    constructor (reader: BitReader.Reader, dct: seq<Huffman.Table>, act: seq<Huffman.Table>, dqf: seq<seq<int>>,
                 grid: Walk.Grid, nrst: nat, accept: nat -> bool)
      requires reader.Valid() && Walk.Valid(grid) && Out.Sampling(grid.mx, grid.my) && nrst < TWO16
      requires |dct| == |act| == 2 && Shaped(dct[0]) && Shaped(dct[1]) && Shaped(act[0]) && Shaped(act[1])
      requires |dqf| == 3 && |dqf[0]| == |dqf[1]| == |dqf[2]| == 64
      ensures Valid() && shown == [] && jd.scale == 0 && fresh(jd) && fresh(jd.tmp) && fresh(jd.mem) && jd.reader == reader
      ensures G() == Setup(reader.stream, Load.CoderOf(reader.stream, dct, act), dqf, grid, nrst, 0, accept)
    {
      this.grid, this.nrst, this.accept, shown := grid, nrst, accept, [];
      var mcu := new Out.Mcu(grid.mx, grid.my);
      out := mcu;
      jd := new Load.Jdec(reader, dct, act, dqf, Out.Blocks(grid.mx, grid.my), 0, mcu.mem, mcu.Mcubuf());
    }

    /** The loading and the output work on the same memory. */
    ghost predicate Valid()
      reads this, jd, jd.reader, jd.reader.inbuf
    {
      && jd.Valid() && out.Valid() && jd.mem == out.mem && jd.base == out.Mcubuf()
      && jd.nby == Out.Blocks(out.mx, out.my) && jd.scale <= 3
      && grid.mx == out.mx && grid.my == out.my && Walk.Valid(grid) && nrst < TWO16
    }

    ghost function G(): (g: Setup)
      requires Valid()
      reads this, jd, jd.reader, jd.reader.inbuf
      ensures ValidSetup(g)
    {
      Setup(jd.reader.stream, jd.TheCoder(), jd.dqf, grid, nrst, jd.scale, accept)
    }

    ghost function S(): (s: State)
      requires Valid()
      reads this, jd, jd.reader, jd.reader.inbuf
      ensures |s.dcv| == 3 && s.p.next <= |jd.reader.stream|
    {
      State(jd.reader.Here(), jd.dcv, shown)
    }

    /** The restart part of the inner loop. */
    method Restarted(ghost g: Setup, ghost s: State, rst0: nat, rsc0: nat, ghost k: nat, ghost q0: nat)
      returns (rc: int, rst: nat, rsc: nat, ghost q: nat)
      requires Valid() && g == G() && s == S() && Walk.Counters(k, nrst, rst0, rsc0, q0)
      modifies jd.reader, jd.reader.inbuf, jd`dcv
      ensures rc == Marked(g, s, k).rc
      ensures rc == JDR_OK ==> Valid() && G() == g && S() == Marked(g, s, k).s && Walk.Counters(k + 1, nrst, rst, rsc, q)
    {
      Walk.CountersNext(k, nrst, rst0, rsc0, q0);
      rc, rst, rsc, q := JDR_OK, rst0, rsc0, q0;
      if nrst != 0 {
        var due := rst == nrst;
        rst := U16(rst + 1);
        if due {
          rc := jd.Restart(rsc);
          rsc := U16(rsc + 1);
          if rc != JDR_OK { return; }
          rst, q := 1, q + 1;
        }
      }
    }

    /** mcu_output, and the output function with what it is given. */
    method Show(ghost g: Setup, ghost s: State, x: nat, y: nat, ghost mcu: seq<byte>, ghost more: seq<Shown>) returns (rc: int)
      requires Valid() && g == G() && s == S() && x < grid.width && y < grid.height && mcu == jd.Mcubuf()
      requires more == FromBytes(g, mcu, x, y)
      modifies this`shown, jd.mem
      ensures Valid() && G() == g && S() == s.(shown := s.shown + more)
      ensures rc == if more == [] || accept(|s.shown|) then JDR_OK else JDR_INTR
    {
      var given, rect, words := Given(g, mcu, x, y);
      assert s.shown + [] == s.shown;
      if !given { return JDR_OK; }
      rc := if accept(|shown|) then JDR_OK else JDR_INTR;
      shown := shown + [Shown(rect, words)];
    }

    /** The rectangle of an MCU and its pixels, if there is anything to show. */
    method Given(ghost g: Setup, ghost mcu: seq<byte>, x: nat, y: nat) returns (given: bool, rect: Out.Rect, words: seq<nat>)
      requires Valid() && g == G() && mcu == jd.Mcubuf() && x < grid.width && y < grid.height
      modifies jd.mem
      ensures given <==> Wide(g, x) > 0 && High(g, y) > 0
      ensures given ==> Shown(rect, words) == OneShown(g, mcu, x, y)
    {
      given, rect, words := out.OutputWords(grid.width, grid.height, jd.scale, x, y, mcu);
    }

    /** mcu_load, then mcu_output. */
    method LoadAndShow(ghost g: Setup, ghost s: State, x: nat, y: nat) returns (rc: int)
      requires Valid() && g == G() && s == S() && x < grid.width && y < grid.height
      modifies this`shown, jd.reader, jd.reader.inbuf, jd.tmp, jd.mem, jd`dcv
      ensures rc == LoadAndOutput(g, s, x, y).rc && shown == LoadAndOutput(g, s, x, y).s.shown
      ensures rc == JDR_OK ==> Valid() && G() == g && S() == LoadAndOutput(g, s, x, y).s
    {
      ghost var was := jd.Mcubuf();
      ghost var blocks;
      rc, blocks := jd.LoadMcu(g.coder);
      if rc != JDR_OK { return; }
      assert Whole(g, blocks);
      ShownIs(g, jd.Mcubuf(), was, blocks, x, y);
      rc := Show(g, S(), x, y, jd.Mcubuf(), ShownAt(g, blocks, x, y));
    }

    /** One MCU, which is to come to `d`. */
    method OneMcu(ghost g: Setup, ghost s: State, x: nat, y: nat, rst0: nat, rsc0: nat, ghost k: nat, ghost q0: nat, ghost d: Did)
      returns (rc: int, rst: nat, rsc: nat, ghost q: nat)
      requires In(g, s) && x < grid.width && y < grid.height && Comes(g, s, k, x, y, d)
      requires Walk.Counters(k, nrst, rst0, rsc0, q0)
      modifies this`shown, jd.reader, jd.reader.inbuf, jd.tmp, jd.mem, jd`dcv
      ensures rc == d.rc && shown == d.s.shown
      ensures rc == JDR_OK ==> In(g, d.s) && Walk.Counters(k + 1, nrst, rst, rsc, q)
    {
      assert Asked(0);
      rc, rst, rsc, q := Restarted(g, s, rst0, rsc0, k, q0);
      if rc != JDR_OK { return; }
      rc := LoadAndShow(g, S(), x, y);
    }

    /** The object is in state `s`. */
    ghost predicate In(g: Setup, s: State)
      reads this, jd, jd.reader, jd.reader.inbuf
    {
      Valid() && G() == g && S() == s
    }

    /** In the row at `y`, at column `x` or past the last one, after `k` MCUs of the run. */
    ghost predicate Midway(g: Setup, run: Path, y: nat, x: nat, k: nat, s: State, rst: nat, rsc: nat, q: nat)
      reads this, jd, jd.reader, jd.reader.inbuf
    {
      && In(g, s) && run.To(k, s) && Walk.Counters(k, nrst, rst, rsc, q)
      && Walk.PlaceOf(grid, k) == if x < grid.width then Walk.At(x, y) else Walk.NextRow(grid, y)
    }

    /** A row: it ends, because every MCU takes bits of the input. */
    method OneRow(ghost g: Setup, ghost run: Path, y: nat, rst0: nat, rsc0: nat, ghost k0: nat, ghost q0: nat, ghost s0: State)
      returns (rc: int, rst: nat, rsc: nat, ghost k: nat, ghost q: nat, ghost s: State)
      requires Midway(g, run, y, 0, k0, s0, rst0, rsc0, q0) && Tied(run, g) && y < grid.height
      modifies this`shown, jd.reader, jd.reader.inbuf, jd.tmp, jd.mem, jd`dcv
      ensures rc != JDR_OK ==> run.run(k).rc == rc && run.run(k).s.shown == shown
      ensures rc == JDR_OK ==> Midway(g, run, y, grid.width, k, s, rst, rsc, q) && Past(g.stream, s0.p, s.p)
    {
      rc, rst, rsc, k, q, s := JDR_OK, rst0, rsc0, k0, q0, s0;
      var x: nat := 0;
      while x < grid.width
        invariant rc == JDR_OK && Midway(g, run, y, x, k, s, rst, rsc, q)
        invariant (x == 0 && s == s0) || Past(g.stream, s0.p, s.p)
        decreases Left(g.stream, s.p)
      {
        rc, x, rst, rsc, q, s := NextMcu(g, run, s, x, y, rst, rsc, k, q);
        k := k + 1;
        if rc != JDR_OK { return; }
      }
    }

    /** One more MCU of the run. */
    method NextMcu(ghost g: Setup, ghost run: Path, ghost s: State, x: nat, y: nat, rst0: nat, rsc0: nat, ghost k: nat, ghost q0: nat)
      returns (rc: int, x': nat, rst: nat, rsc: nat, ghost q: nat, ghost s': State)
      requires Midway(g, run, y, x, k, s, rst0, rsc0, q0) && Tied(run, g) && x < grid.width && y < grid.height
      modifies this`shown, jd.reader, jd.reader.inbuf, jd.tmp, jd.mem, jd`dcv
      ensures rc != JDR_OK ==> run.run(k + 1).rc == rc && run.run(k + 1).s.shown == shown
      ensures rc == JDR_OK ==> Midway(g, run, y, x', k + 1, s', rst, rsc, q) && Past(g.stream, s.p, s'.p)
    {
      ghost var d := NextDid(g, run, jd.dct, jd.act, s, k, x, y);
      s' := d.s;
      rc, rst, rsc, q := OneMcu(g, s, x, y, rst0, rsc0, k, q0, d);
      x' := U16(x + grid.mx);
    }

    /** The whole image. Whatever the input and the sides, it ends: at the end of the walk, or with the
        code of the first failure. */
    method Decomp(scale: nat) returns (rc: int, ghost n: nat)
      requires Valid() && shown == []
      modifies this`shown, jd.reader, jd.reader.inbuf, jd.tmp, jd.mem, jd`dcv, jd`scale
      ensures scale > 3 ==> rc == JDR_PAR && shown == []
      ensures scale <= 3 ==>
        var d := RunMcus(old(G()).(scale := scale), old(S()).(dcv := [0, 0, 0]), n);
        && rc == d.rc && shown == d.s.shown
        && (rc == JDR_OK ==> Walk.PlaceOf(grid, n) == Walk.Over && In(old(G()).(scale := scale), d.s))
      ensures rc == JDR_OK ==> Walk.GridFits(grid)
    {
      n := 0;
      if scale > 3 { return JDR_PAR, n; }
      jd.scale := scale;
      jd.dcv := [0, 0, 0];
      ghost var g, s := G(), S();
      rc, n := Rows(g, PathOf(g, s), s);
      if rc == JDR_OK { Walk.WalkEnds(grid); }
    }

    method Rows(ghost g: Setup, ghost run: Path, ghost s0: State) returns (rc: int, ghost n: nat)
      requires In(g, s0) && Tied(run, g) && run.To(0, s0)
      modifies this`shown, jd.reader, jd.reader.inbuf, jd.tmp, jd.mem, jd`dcv
      ensures rc == run.run(n).rc && shown == run.run(n).s.shown
      ensures rc == JDR_OK ==> Walk.PlaceOf(grid, n) == Walk.Over && In(g, run.run(n).s)
    {
      n, rc := 0, JDR_OK;
      var rst, rsc, y: nat := 0, 0, 0;
      ghost var q, s := 0, s0;
      while y < grid.height
        invariant rc == JDR_OK && In(g, s) && run.To(n, s) && Walk.Counters(n, nrst, rst, rsc, q)
        invariant Walk.PlaceOf(grid, n) == if y < grid.height then Walk.At(0, y) else Walk.Over
        decreases Left(g.stream, s.p)
      {
        rc, rst, rsc, n, q, s := OneRow(g, run, y, rst, rsc, n, q, s);
        if rc != JDR_OK { return; }
        y := U16(y + grid.my);
      }
    }
  }

  /** A run from `start`: what it has come to after each number of MCUs. */
  datatype Path = Path(start: State, run: nat -> Did) {
    predicate To(k: nat, s: State) {
      run(k) == Did(JDR_OK, s)
    }
  }

  ghost function PathOf(g: Setup, start: State): (r: Path)
    ensures r.start == start
  {
    Path(start, (k: nat) => RunMcus(g, start, k))
  }

  /** The run is that of the MCUs. A proof that needs this asks for it; the loops do not, so that they
      do not look into every MCU. */
  ghost predicate Tied(run: Path, g: Setup) {
    forall n: nat {:trigger Asked(n)} :: Asked(n) ==> run == PathOf(g, run.start)
  }
}
