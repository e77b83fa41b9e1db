/** Every successful read takes bits of the input, so that no input can be decoded for ever. */
module Progress {
  import opened Machine
  import opened Huffman
  import opened HuffmanBuild
  import opened BitReader
  import opened Entropy
  import opened McuLoad

  function MaskBits(msk: nat): nat {
    if msk == 0 then 0 else 1 + MaskBits(msk / 2)
  }

  /** The bits from a place on, stuffing included. */
  function Left(stream: seq<nat>, p: Pos): nat {
    if p.next <= |stream| then 8 * (|stream| - p.next) + MaskBits(p.msk) else 0
  }

  /** The place is in the input, and no further back than `p`. */
  predicate From(stream: seq<nat>, p: Pos, q: Pos) {
    q.next <= |stream| && Left(stream, q) <= Left(stream, p)
  }

  predicate Past(stream: seq<nat>, p: Pos, q: Pos) {
    q.next <= |stream| && Left(stream, q) < Left(stream, p)
  }

  lemma BitTaken(stream: seq<nat>, p: Pos)
    requires p.next <= |stream| && ReadBit(stream, p).v >= 0
    ensures Past(stream, p, ReadBit(stream, p).p)
  {
    if p.msk == 0 { SevenBits(); }
  }

  lemma SevenBits()
    ensures MaskBits(0x80 / 2) == 7
  {
    assert MaskBits(1) == 1 && MaskBits(2) == 2 && MaskBits(4) == 3 && MaskBits(8) == 4;
    assert MaskBits(16) == 5 && MaskBits(32) == 6;
  }

  lemma {:induction false} BitsTaken(stream: seq<nat>, p: Pos, n: nat, v: nat)
    requires p.next <= |stream| && ReadBits(stream, p, n, v).v >= 0
    ensures From(stream, p, ReadBits(stream, p, n, v).p)
    decreases n
  {
    if n > 0 {
      var g := ReadBit(stream, p);
      if g.v >= 0 {
        BitTaken(stream, p);
        BitsTaken(stream, g.p, n - 1, U16(2 * v) + g.v);
      }
    }
  }

  lemma {:induction false} SearchTaken(goal: Got, stream: seq<nat>, p: Pos, t: Table, len: nat, k: nat, v: nat)
    requires p.next <= |stream| && Searching(goal, stream, p, t, len, k, v) && goal.v >= 0
    ensures Past(stream, p, goal.p)
    decreases MAX_LEN - len
  {
    SymbolRound(goal, stream, p, t, len, k, v);
    if len < MAX_LEN {
      var step := SearchStep(stream, p, t, len, k, v);
      BitTaken(stream, p);
      if step.Longer? { SearchTaken(goal, stream, step.p, t, len + 1, step.k, step.v); }
    }
  }

  lemma SymbolTaken(stream: seq<nat>, p: Pos, t: Table)
    requires p.next <= |stream| && ReadsOf(stream, t).symbol(p).v >= 0
    ensures Past(stream, p, ReadsOf(stream, t).symbol(p).p)
  {
    if Shaped(t) { SearchTaken(Symbol(stream, p, t), stream, p, t, 0, 0, 0); }
  }

  lemma ValueTaken(stream: seq<nat>, p: Pos, t: Table, n: nat)
    requires p.next <= |stream| && ReadsOf(stream, t).value(p, n).Amount?
    ensures From(stream, p, ReadsOf(stream, t).value(p, n).p)
  {
    BitsTaken(stream, p, n, NONE);
  }

  lemma AcTaken(stream: seq<nat>, p: Pos, t: Table, i: nat, zz: seq<int>, dcv: int)
    requires p.next <= |stream| && |zz| == 64
    ensures var b := DecodeAc(ReadsOf(stream, t), p, i, zz, dcv);
      b.rc == JDR_OK ==> From(stream, p, b.p)
  {
    forall q: Pos, j: nat | q.next <= |stream| ensures StepTakes(stream, ReadsOf(stream, t), q, j) {
      StepTaken(stream, q, t, j);
    }
    LoopTakes(stream, ReadsOf(stream, t), p, i, zz, dcv);
  }

  predicate StepTakes(stream: seq<nat>, rd: Reads, p: Pos, i: nat) {
    var step := ReadAc(rd, p, i);
    if step.Broken? then step.rc != JDR_OK else From(stream, p, step.p)
  }

  lemma {:induction false} LoopTakes(stream: seq<nat>, rd: Reads, p: Pos, i: nat, zz: seq<int>, dcv: int)
    requires p.next <= |stream| && |zz| == 64
    requires forall q: Pos, j: nat :: q.next <= |stream| ==> StepTakes(stream, rd, q, j)
    ensures var b := DecodeAc(rd, p, i, zz, dcv);
      b.rc == JDR_OK ==> From(stream, p, b.p)
    decreases 64 - i
  {
    if i < 64 {
      assert StepTakes(stream, rd, p, i);
      match ReadAc(rd, p, i)
      case EndOfBlock(q) =>
      case Broken(rc, q) =>
      case Skip(next, q) => LoopTakes(stream, rd, q, next, zz, dcv);
      case Coefficient(j, v, q) => LoopTakes(stream, rd, q, j + 1, zz[j := v], dcv);
    }
  }

  lemma StepTaken(stream: seq<nat>, p: Pos, t: Table, i: nat)
    requires p.next <= |stream|
    ensures StepTakes(stream, ReadsOf(stream, t), p, i)
  {
    var g := ReadsOf(stream, t).symbol(p);
    if g.v >= 0 {
      SymbolTaken(stream, p, t);
      if g.v % 16 != 0 && ReadsOf(stream, t).value(g.p, g.v % 16).Amount? { ValueTaken(stream, g.p, t, g.v % 16); }
    }
  }

  lemma DcTaken(stream: seq<nat>, p: Pos, t: Table, prev: int)
    requires p.next <= |stream|
    ensures var d := DecodeDc(ReadsOf(stream, t), p, prev);
      d.DcIs? ==> Past(stream, p, d.p)
  {
    var g := ReadsOf(stream, t).symbol(p);
    if g.v >= 0 {
      SymbolTaken(stream, p, t);
      if g.v > 0 && ReadsOf(stream, t).value(g.p, g.v).Amount? { ValueTaken(stream, g.p, t, g.v); }
    }
  }

  lemma BlockTaken(stream: seq<nat>, p: Pos, dct: Table, act: Table, prev: int)
    requires p.next <= |stream|
    ensures var b := DecodeBlock(ReadsOf(stream, dct), ReadsOf(stream, act), p, prev);
      b.rc == JDR_OK ==> Past(stream, p, b.p)
  {
    DcTaken(stream, p, dct, prev);
    var d := DecodeDc(ReadsOf(stream, dct), p, prev);
    if d.DcIs? { AcTaken(stream, d.p, act, FIRST, DcOnly(d.d), d.dcv); }
  }

  lemma {:induction false} BlocksTaken(stream: seq<nat>, dct: seq<Table>, act: seq<Table>, c: Coder, p: Pos, dcv: seq<int>, cmps: seq<nat>)
    requires |dct| == |act| == 2 && c == CoderOf(stream, dct, act) && |dcv| == 3 && p.next <= |stream|
    ensures var m := DecodeBlocks(c, p, dcv, cmps);
      m.rc == JDR_OK ==> From(stream, p, m.p) && (cmps != [] ==> Past(stream, p, m.p))
    decreases |cmps|
  {
    if cmps != [] && cmps[0] < 3 {
      var id := TableId(cmps[0]);
      var b := DecodeBlock(c.dc[id], c.ac[id], p, dcv[cmps[0]]);
      BlockTaken(stream, p, dct[id], act[id], dcv[cmps[0]]);
      BlocksFirst(c, p, dcv, cmps, b);
      if b.rc == JDR_OK { BlocksTaken(stream, dct, act, c, b.p, dcv[cmps[0] := b.dcv], cmps[1..]); }
    }
  }

  lemma MarkerTaken(stream: seq<nat>, p: Pos, rstn: nat)
    requires p.next <= |stream| && ReadMarker(stream, p, rstn).v == JDR_OK
    ensures Past(stream, p, ReadMarker(stream, p, rstn).p)
  {
  }
}
