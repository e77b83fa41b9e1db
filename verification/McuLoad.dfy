/** Loading the blocks of an MCU: entropy decoding, dequantization and inverse DCT (mcu_load), and
    the reset at a restart marker (restart). */
module McuLoad {
  import opened Machine
  import opened Sequences
  import opened Huffman
  import opened HuffmanBuild
  import opened BitReader
  import opened Entropy
  import opened Idct

  /** The reads of the DC and AC tables by table number. */
  datatype Coder = Coder(dc: seq<Reads>, ac: seq<Reads>)

  function CoderOf(stream: seq<nat>, dct: seq<Table>, act: seq<Table>): Coder
    requires |dct| == |act| == 2
  {
    Coder([ReadsOf(stream, dct[0]), ReadsOf(stream, dct[1])], [ReadsOf(stream, act[0]), ReadsOf(stream, act[1])])
  }

  /** Component of a block of an MCU with `nby` Y blocks (0 is Y), and the table number of a component. */
  function Component(nby: nat, blk: nat): nat {
    if blk < nby then 0 else blk - nby + 1
  }

  function TableId(cmp: nat): nat {
    if cmp == 0 then 0 else 1
  }

  /** What loading an MCU yields: an error code or JDR_OK, the coefficients of its blocks, the DC
      values kept for the next MCU, and the place reached. */
  datatype Mcu = Mcu(rc: int, blocks: seq<seq<int>>, dcv: seq<int>, p: Pos)

  /** The components of the blocks of an MCU, in order: its Y blocks, one Cb block, one Cr block. */
  function McuComponents(nby: nat): (cmps: seq<nat>)
    ensures |cmps| == nby + 2 && cmps[nby] == 1 && cmps[nby + 1] == 2
    ensures forall blk :: 0 <= blk < nby ==> cmps[blk] == 0
  {
    seq(nby + 2, blk requires 0 <= blk < nby + 2 => Component(nby, blk))
  }

  /** Blocks of the given components, one after the other. */
  function DecodeBlocks(c: Coder, p: Pos, dcv: seq<int>, cmps: seq<nat>): Mcu
    requires |c.dc| == |c.ac| == 2 && |dcv| == 3
    decreases |cmps|
  {
    if cmps == [] then Mcu(JDR_OK, [], dcv, p)
    else if cmps[0] >= 3 then Mcu(JDR_FMT1, [], dcv, p)
    else
      var cmp := cmps[0];
      var b := DecodeBlock(c.dc[TableId(cmp)], c.ac[TableId(cmp)], p, dcv[cmp]);
      if b.rc != JDR_OK then Mcu(b.rc, [], dcv, b.p)
      else Prefixed([b.zz], DecodeBlocks(c, b.p, dcv[cmp := b.dcv], cmps[1..]))
  }

  /** The next block, of component `cmp`, is `b`. A proof that needs to know how asks for it. */
  ghost predicate BlockIs(c: Coder, cmp: nat, p: Pos, dcv: seq<int>, b: Block) {
    forall n: nat {:trigger Asked(n)} :: Asked(n) ==>
      |c.dc| == |c.ac| == 2 && |dcv| == 3 && cmp < 3 && b == DecodeBlock(c.dc[TableId(cmp)], c.ac[TableId(cmp)], p, dcv[cmp])
  }

  function Prefixed(blocks: seq<seq<int>>, m: Mcu): Mcu {
    m.(blocks := blocks + m.blocks)
  }

  /** The bytes stored for a block: its samples, or at scale 1/8 only a first byte made of the DC value. */
  function BlockBytes(zz: seq<int>, dqf: seq<int>, scale: nat, was: seq<byte>): seq<byte>
    requires |zz| == |dqf| == |was| == 64
  {
    if scale == 3 then was[0 := (CDiv(Raster(zz, dqf)[0], 256) + 128) % 256]
    else Samples(Raster(zz, dqf))
  }

  /** The first blocks of an MCU buffer are the given ones; the rest of it is as it was. */
  ghost predicate StoredIn(mcu: seq<byte>, was: seq<byte>, blocks: seq<seq<int>>, dqf: seq<seq<int>>, nby: nat, scale: nat)
    requires |dqf| == 3 && |blocks| <= nby + 2
  {
    && |was| == |mcu| == 64 * (nby + 2)
    && (forall b {:trigger blocks[b]} :: 0 <= b < |blocks| ==>
          && |blocks[b]| == |dqf[Component(nby, b)]| == 64
          && mcu[64 * b..64 * b + 64] == BlockBytes(blocks[b], dqf[Component(nby, b)], scale, was[64 * b..64 * b + 64]))
    && forall j :: 64 * |blocks| <= j < |mcu| ==> mcu[j] == was[j]
  }

  lemma AppendStored(before: seq<byte>, after: seq<byte>, was: seq<byte>, done: seq<seq<int>>, zz: seq<int>,
                     dqf: seq<seq<int>>, nby: nat, scale: nat)
    requires |dqf| == 3 && |done| < nby + 2 && StoredIn(before, was, done, dqf, nby, scale)
    requires |after| == |before| && |zz| == |dqf[Component(nby, |done|)]| == 64
    requires var at := 64 * |done|;
      && after[at..at + 64] == BlockBytes(zz, dqf[Component(nby, |done|)], scale, before[at..at + 64])
      && forall j :: 0 <= j < |after| && !(at <= j < at + 64) ==> after[j] == before[j]
    ensures StoredIn(after, was, done + [zz], dqf, nby, scale)
  {
    var at, blocks := 64 * |done|, done + [zz];
    assert before[at..at + 64] == was[at..at + 64];
    forall b {:trigger blocks[b]} | 0 <= b < |done|
      ensures blocks[b] == done[b] && after[64 * b..64 * b + 64] == before[64 * b..64 * b + 64]
    {
    }
  }

  class Jdec {
    const reader: Reader
    const dct: seq<Table>
    const act: seq<Table>
    const dqf: seq<seq<int>>
    const nby: nat
    var scale: nat
    var dcv: seq<int>
    const tmp: array<int>
    /** The memory that holds the MCU buffer, from place `base` on. */
    const mem: array<byte>
    const base: nat

    ghost predicate Valid()
      reads this, reader, reader.inbuf
    {
      && reader.Valid()
      && |dct| == |act| == 2 && Shaped(dct[0]) && Shaped(dct[1]) && Shaped(act[0]) && Shaped(act[1])
      && |dqf| == |dcv| == 3 && |dqf[0]| == |dqf[1]| == |dqf[2]| == 64
      && tmp.Length == 64 && base + 64 * (nby + 2) <= mem.Length
    }

    ghost function TheCoder(): Coder
      requires |dct| == |act| == 2
    {
      CoderOf(reader.stream, dct, act)
    }

    /** The MCU buffer: a block of 64 bytes after the other. */
    ghost function Mcubuf(): (s: seq<byte>)
      requires base + 64 * (nby + 2) <= mem.Length
      reads mem
      ensures |s| == 64 * (nby + 2)
    {
      mem[base..base + 64 * (nby + 2)]
    }

    constructor (reader: Reader, dct: seq<Table>, act: seq<Table>, dqf: seq<seq<int>>, nby: nat, scale: nat, mem: array<byte>, base: nat)
      requires reader.Valid() && base + 64 * (nby + 2) <= mem.Length
      requires |dct| == |act| == 2 && Shaped(dct[0]) && Shaped(dct[1]) && Shaped(act[0]) && Shaped(act[1])
      requires |dqf| == 3 && |dqf[0]| == |dqf[1]| == |dqf[2]| == 64
      ensures Valid() && fresh(tmp) && this.mem == mem && this.base == base
      ensures this.reader == reader && this.dct == dct && this.act == act && this.dqf == dqf
      ensures this.nby == nby && this.scale == scale && dcv == [0, 0, 0]
    {
      this.reader, this.dct, this.act, this.dqf, this.nby, this.scale := reader, dct, act, dqf, nby, scale;
      dcv := [0, 0, 0];
      tmp := new int[64];
      this.mem, this.base := mem, base;
    }

    /** A symbol, as the read of its table. */
    method NextSymbol(t: Table) returns (r: int)
      requires reader.Valid() && Shaped(t)
      modifies reader, reader.inbuf
      ensures r == ReadsOf(reader.stream, t).symbol(old(reader.Here())).v
      ensures r >= 0 ==> reader.Valid() && reader.Here() == ReadsOf(reader.stream, t).symbol(old(reader.Here())).p
    {
      r := reader.HuffExt(t);
    }

    /** A signed value of `b` bits: the bits, with the sign restored. */
    method NextSigned(ghost t: Table, b: nat) returns (rc: int, e: int)
      requires reader.Valid() && b > 0
      modifies reader, reader.inbuf
      ensures match ReadsOf(reader.stream, t).value(old(reader.Here()), b)
        case Failed(code) => rc == code < 0
        case Amount(v, p) => rc == 0 && e == v && reader.Valid() && reader.Here() == p
    {
      e := reader.BitExt(b);
      if e < 0 { return e, e; }
      rc := 0;
      var m := Pow2(b - 1);
      if And(e, m) == 0 { e := e - (2 * m - 1); }
    }

    /** Dequantizes one coefficient into its raster position. */
    method Store(ghost zz: seq<int>, q: seq<int>, i: nat, d: int)
      requires |zz| == |q| == tmp.Length == 64 && i < 64
      requires tmp[..] == Raster(zz, q)
      modifies tmp
      ensures tmp[..] == Raster(zz[i := d], q)
    {
      RasterUpdate(zz, q, i, d);
      var z := Zig(i);
      tmp[z] := Dequantize(d, q[z]);
    }

    /** Sets the DC coefficient and clears the rest. */
    method StoreDc(q: seq<int>, d: int)
      requires |q| == tmp.Length == 64
      modifies tmp
      ensures tmp[..] == Raster(DcOnly(d), q)
    {
      tmp[0] := Dequantize(d, q[0]);
      for i := 1 to 64
        invariant tmp[0] == Dequantize(d, q[0])
        invariant forall k :: 1 <= k < i ==> tmp[k] == 0
      {
        tmp[i] := 0;
      }
      ClearedRaster(d, q);
    }

    /** The reader is in order, and the buffer holds these coefficients. */
    ghost predicate Holding(zz: seq<int>, q: seq<int>)
      reads reader, reader.inbuf, tmp
    {
      reader.Valid() && |zz| == |q| == tmp.Length == 64 && tmp[..] == Raster(zz, q)
    }

    /** One round of the AC loop: a symbol and, unless it ends the block or only skips zeros, a value. */
    method NextAc(t: Table, i0: nat) returns (done: bool, rc: int, i: nat, b: nat, d: int)
      requires reader.Valid() && Shaped(t) && i0 < 64
      modifies reader, reader.inbuf
      ensures match ReadAc(ReadsOf(reader.stream, t), old(reader.Here()), i0)
        case EndOfBlock(p) => done && rc == JDR_OK && reader.Valid() && reader.Here() == p
        case Broken(code, p) => done && rc == code != JDR_OK
        case Skip(n, p) => !done && b == 0 && i + 1 == n && reader.Valid() && reader.Here() == p
        case Coefficient(j, v, p) => !done && b != 0 && i == j && d == v && reader.Valid() && reader.Here() == p
    {
      done, rc, i, b, d := true, JDR_OK, i0, 0, 0;
      var s := NextSymbol(t);
      if s == 0 { return; }
      if s < 0 { rc := -s; return; }
      i := i + s / 16;
      if i >= 64 { rc := JDR_FMT1; return; }
      b := s % 16;
      if b != 0 {
        var e;
        e, d := NextSigned(t, b);
        if e < 0 { rc := -e; return; }
      }
      done := false;
    }

    /** One round of the AC loop, with the coefficient stored. */
    method AcRound(t: Table, q: seq<int>, i0: nat, ghost zz0: seq<int>, ghost dcv0: int)
      returns (done: bool, rc: int, i: nat, ghost zz: seq<int>)
      requires Holding(zz0, q) && Shaped(t) && i0 < 64
      modifies reader, reader.inbuf, tmp
      ensures var blk := DecodeAc(ReadsOf(reader.stream, t), old(reader.Here()), i0, zz0, dcv0);
        && (!done ==> Holding(zz, q) && blk == DecodeAc(ReadsOf(reader.stream, t), reader.Here(), i, zz, dcv0) && i > i0)
        && (done ==> rc == blk.rc)
        && (done && rc == JDR_OK ==> Holding(zz, q) && blk == Block(JDR_OK, zz, dcv0, reader.Here()))
    {
      zz := zz0;
      var b, d;
      done, rc, i, b, d := NextAc(t, i0);
      if !done {
        if b != 0 {
          Store(zz, q, i, d);
          zz := zz[i := d];
        }
        i := i + 1;
      }
    }

    /** The AC coefficients of a block. */
    method LoadAc(t: Table, q: seq<int>, ghost zz0: seq<int>, ghost dcv0: int) returns (rc: int, ghost zz: seq<int>)
      requires Holding(zz0, q) && Shaped(t)
      modifies reader, reader.inbuf, tmp
      ensures var b := DecodeAc(ReadsOf(reader.stream, t), old(reader.Here()), FIRST, zz0, dcv0);
        && rc == b.rc
        && (rc == JDR_OK ==> Holding(zz, q) && b == Block(JDR_OK, zz, dcv0, reader.Here()))
    {
      ghost var goal := DecodeAc(ReadsOf(reader.stream, t), reader.Here(), FIRST, zz0, dcv0);
      zz := zz0;
      var i: nat := FIRST;
      while i < 64
        invariant Holding(zz, q)
        invariant goal == DecodeAc(ReadsOf(reader.stream, t), reader.Here(), i, zz, dcv0)
      {
        var done;
        done, rc, i, zz := AcRound(t, q, i, zz, dcv0);
        if done { return; }
      }
      rc := JDR_OK;
    }

    /** The DC coefficient of a block of component `cmp`; its low 16 bits are kept for the next one. */
    method LoadDc(t: Table, cmp: nat) returns (rc: int, d: int)
      requires reader.Valid() && Shaped(t) && cmp < |dcv|
      modifies reader, reader.inbuf, `dcv
      ensures match DecodeDc(ReadsOf(reader.stream, t), old(reader.Here()), old(dcv)[cmp])
        case DcFailed(code, q) => rc == code != JDR_OK
        case DcIs(v, k, q) => rc == JDR_OK && d == v && reader.Valid() && reader.Here() == q && dcv == old(dcv)[cmp := k]
    {
      ghost var rd, p, prev := ReadsOf(reader.stream, t), reader.Here(), dcv[cmp];
      rc, d := JDR_OK, dcv[cmp];
      var b := NextSymbol(t);
      if b < 0 { return -b, d; }
      if b > 0 {
        var e, v := NextSigned(t, b);
        if e < 0 { return -e, d; }
        d := d + v;
        dcv := dcv[cmp := I16(d)];
        assert DecodeDc(rd, p, prev) == DcIs(d, I16(d), reader.Here());
      } else {
        assert DecodeDc(rd, p, prev) == DcIs(prev, prev, reader.Here()) && dcv == dcv[cmp := prev];
      }
    }

    /** One block of component `cmp`: Y with the first table of each kind, Cb and Cr with the second. */
    method LoadBlock(cmp: nat) returns (rc: int, ghost zz: seq<int>)
      requires Valid() && cmp < 3
      modifies reader, reader.inbuf, tmp, `dcv
      ensures var b := DecodeBlock(ReadsOf(reader.stream, if cmp == 0 then dct[0] else dct[1]),
                                   ReadsOf(reader.stream, if cmp == 0 then act[0] else act[1]),
                                   old(reader.Here()), old(dcv)[cmp]);
        && rc == b.rc
        && (rc == JDR_OK ==>
             && Valid() && Holding(zz, dqf[cmp])
             && b == Block(JDR_OK, zz, dcv[cmp], reader.Here()) && dcv == old(dcv)[cmp := b.dcv])
    {
      zz := [];
      var d;
      rc, d := LoadDc(dct[TableId(cmp)], cmp);
      if rc != JDR_OK { return; }
      StoreDc(dqf[cmp], d);
      rc, zz := LoadAc(act[TableId(cmp)], dqf[cmp], DcOnly(d), dcv[cmp]);
    }

    /** Stores a decoded block: its samples, or only the DC value at scale 1/8. */
    method PutBlock(blk: nat, ghost zz: seq<int>, ghost q: seq<int>)
      requires tmp.Length == 64 && base + 64 * (nby + 2) <= mem.Length && blk < nby + 2
      requires |zz| == |q| == 64 && tmp[..] == Raster(zz, q)
      modifies tmp, mem
      ensures var at := base + 64 * blk;
        && mem[at..at + 64] == BlockBytes(zz, q, scale, old(mem[at..at + 64]))
        && forall j :: 0 <= j < mem.Length && !(at <= j < at + 64) ==> mem[j] == old(mem[j])
    {
      var bp := base + 64 * blk;
      if scale == 3 {
        mem[bp] := (CDiv(tmp[0], 256) + 128) % 256;
      } else {
        BlockIdct(tmp, mem, bp);
      }
    }

    ghost predicate Stored(blocks: seq<seq<int>>, was: seq<byte>)
      reads mem, `scale
    {
      && base + 64 * (nby + 2) <= mem.Length && |dqf| == 3 && |blocks| <= nby + 2
      && StoredIn(Mcubuf(), was, blocks, dqf, nby, scale)
    }

    /** Stores the next block after those in `done`. */
    method AppendBlock(blk: nat, ghost zz: seq<int>, ghost done: seq<seq<int>>, ghost was: seq<byte>)
      requires blk == |done| < nby + 2 && Stored(done, was)
      requires tmp.Length == |zz| == |dqf[Component(nby, blk)]| == 64 && tmp[..] == Raster(zz, dqf[Component(nby, blk)])
      modifies tmp, mem
      ensures Stored(done + [zz], was)
    {
      ghost var before, m := Mcubuf(), mem[..];
      PutBlock(blk, zz, dqf[Component(nby, blk)]);
      PartOfPart(m, base, 64 * (nby + 2), 64 * blk, 64);
      PartOfPart(mem[..], base, 64 * (nby + 2), 64 * blk, 64);
      AppendStored(before, Mcubuf(), was, done, zz, dqf, nby, scale);
    }

    /** One block of the MCU, as the coder reads it. */
    method CodedBlock(ghost c: Coder, cmp: nat, ghost p: Pos, ghost kept: seq<int>) returns (rc: int, ghost b: Block)
      requires Valid() && cmp < 3 && c == TheCoder() && p == reader.Here() && kept == dcv
      modifies reader, reader.inbuf, tmp, `dcv
      ensures BlockIs(c, cmp, p, kept, b) && rc == b.rc
      ensures rc == JDR_OK ==>
        && Valid() && |b.zz| == 64 && tmp[..] == Raster(b.zz, dqf[cmp])
        && reader.Here() == b.p && dcv == kept[cmp := b.dcv]
    {
      b := DecodeBlock(c.dc[TableId(cmp)], c.ac[TableId(cmp)], p, kept[cmp]);
      ghost var zz;
      rc, zz := LoadBlock(cmp);
    }

    /** One round of the loop: block `blk` decoded and stored. */
    method LoadOne(ghost c: Coder, blk: nat, ghost done: seq<seq<int>>, ghost was: seq<byte>, ghost p: Pos, ghost kept: seq<int>)
      returns (rc: int, ghost b: Block)
      requires Valid() && c == TheCoder() && blk == |done| < nby + 2 && Stored(done, was)
      requires p == reader.Here() && kept == dcv
      modifies reader, reader.inbuf, tmp, mem, `dcv
      ensures BlockIs(c, Component(nby, blk), p, kept, b) && rc == b.rc
      ensures rc == JDR_OK ==> Valid() && Stored(done + [b.zz], was) && reader.Here() == b.p && dcv == kept[Component(nby, blk) := b.dcv]
    {
      rc, b := CodedBlock(c, Component(nby, blk), p, kept);
      if rc == JDR_OK {
        AppendBlock(blk, b.zz, done, was);
      }
    }

    /** Loads all blocks of an MCU. */
    method LoadMcu(ghost c: Coder) returns (rc: int, ghost blocks: seq<seq<int>>)
      requires Valid() && c == TheCoder()
      modifies reader, reader.inbuf, tmp, mem, `dcv
      ensures var m := DecodeBlocks(c, old(reader.Here()), old(dcv), McuComponents(nby));
        && rc == m.rc
        && (rc == JDR_OK ==>
             && Valid() && m == Mcu(JDR_OK, blocks, dcv, reader.Here())
             && |blocks| == nby + 2 && Stored(blocks, old(Mcubuf())))
    {
      ghost var cmps := McuComponents(nby);
      ghost var goal := DecodeBlocks(c, reader.Here(), dcv, cmps);
      ghost var was := Mcubuf();
      blocks := [];
      var blk := 0;
      assert cmps[0..] == cmps;
      GoingStart(goal);
      while blk < nby + 2
        invariant Valid() && blk == |blocks| <= nby + 2
        invariant Stored(blocks, was)
        invariant Going(goal, c, blocks, reader.Here(), dcv, cmps[blk..])
      {
        ghost var b;
        ghost var p, kept := reader.Here(), dcv;
        assert cmps[blk..][1..] == cmps[blk + 1..] && cmps[blk..][0] == Component(nby, blk);
        rc, b := LoadOne(c, blk, blocks, was, p, kept);
        GoingNext(goal, c, blocks, p, kept, cmps[blk..], b);
        if rc != JDR_OK { return; }
        blocks := blocks + [b.zz];
        blk := blk + 1;
      }
      GoingEnd(goal, c, blocks, reader.Here(), dcv, cmps[blk..]);
      rc := JDR_OK;
    }

    /** Processes a restart interval: the expected marker, then the DC predictions start at zero. */
    method Restart(rstn: nat) returns (rc: int)
      requires Valid()
      modifies reader, reader.inbuf, `dcv
      ensures rc == ReadMarker(reader.stream, old(reader.Here()), rstn).v
      ensures rc == JDR_OK ==>
        Valid() && dcv == [0, 0, 0] && reader.Here() == ReadMarker(reader.stream, old(reader.Here()), rstn).p
    {
      rc := reader.TakeMarker(rstn);
      if rc == JDR_OK { dcv := [0, 0, 0]; }
    }
  }

  /** Loading blocks in two goes, the DC values and the place carried over, is loading them in one:
      a run of MCUs is one sequence of blocks. */
  lemma {:induction false} BlocksInParts(c: Coder, p: Pos, dcv: seq<int>, a: seq<nat>, b: seq<nat>)
    requires |c.dc| == |c.ac| == 2 && |dcv| == 3
    ensures var m := DecodeBlocks(c, p, dcv, a);
      && |m.dcv| == 3
      && DecodeBlocks(c, p, dcv, a + b) ==
           if m.rc != JDR_OK then m else Prefixed(m.blocks, DecodeBlocks(c, m.p, m.dcv, b))
    decreases |a|
  {
    if a == [] {
      assert a + b == b;
      assert Prefixed([], DecodeBlocks(c, p, dcv, b)) == DecodeBlocks(c, p, dcv, b);
    } else if a[0] < 3 {
      var blk := DecodeBlock(c.dc[TableId(a[0])], c.ac[TableId(a[0])], p, dcv[a[0]]);
      assert (a + b)[1..] == a[1..] + b;
      if blk.rc == JDR_OK {
        var dcv' := dcv[a[0] := blk.dcv];
        BlocksInParts(c, blk.p, dcv', a[1..], b);
        var m := DecodeBlocks(c, blk.p, dcv', a[1..]);
        if m.rc == JDR_OK {
          PrefixedAfter([blk.zz], m.blocks, DecodeBlocks(c, m.p, m.dcv, b));
        }
      }
    }
  }

  /** With these blocks read, the others lead to `goal`. */
  ghost predicate Going(goal: Mcu, c: Coder, blocks: seq<seq<int>>, p: Pos, dcv: seq<int>, cmps: seq<nat>) {
    forall n: nat {:trigger Asked(n)} :: Asked(n) ==>
      |c.dc| == |c.ac| == 2 && |dcv| == 3 && goal == Prefixed(blocks, DecodeBlocks(c, p, dcv, cmps))
  }

  lemma GoingStart(goal: Mcu)
    ensures Prefixed([], goal) == goal
  {
  }

  lemma GoingNext(goal: Mcu, c: Coder, blocks: seq<seq<int>>, p: Pos, dcv: seq<int>, cmps: seq<nat>, b: Block)
    requires Going(goal, c, blocks, p, dcv, cmps) && |c.dc| == |c.ac| == 2 && |dcv| == 3
    requires cmps != [] && cmps[0] < 3 && BlockIs(c, cmps[0], p, dcv, b)
    ensures if b.rc != JDR_OK then goal.rc == b.rc
      else Going(goal, c, blocks + [b.zz], b.p, dcv[cmps[0] := b.dcv], cmps[1..])
  {
    assert Asked(0);
    BlocksFirst(c, p, dcv, cmps, b);
    if b.rc == JDR_OK { PrefixedAfter(blocks, [b.zz], DecodeBlocks(c, b.p, dcv[cmps[0] := b.dcv], cmps[1..])); }
  }

  lemma GoingEnd(goal: Mcu, c: Coder, blocks: seq<seq<int>>, p: Pos, dcv: seq<int>, cmps: seq<nat>)
    requires Going(goal, c, blocks, p, dcv, cmps) && cmps == []
    ensures goal == Mcu(JDR_OK, blocks, dcv, p)
  {
    assert Asked(0) && blocks + [] == blocks;
  }

  /** The first block, then the others. */
  lemma BlocksFirst(c: Coder, p: Pos, dcv: seq<int>, cmps: seq<nat>, b: Block)
    requires |c.dc| == |c.ac| == 2 && |dcv| == 3 && cmps != [] && cmps[0] < 3
    requires b == DecodeBlock(c.dc[TableId(cmps[0])], c.ac[TableId(cmps[0])], p, dcv[cmps[0]])
    ensures DecodeBlocks(c, p, dcv, cmps) ==
      if b.rc != JDR_OK then Mcu(b.rc, [], dcv, b.p)
      else Prefixed([b.zz], DecodeBlocks(c, b.p, dcv[cmps[0] := b.dcv], cmps[1..]))
  {
  }

  lemma PrefixedAfter(a: seq<seq<int>>, b: seq<seq<int>>, m: Mcu)
    ensures Prefixed(a, Prefixed(b, m)) == Prefixed(a + b, m)
  {
    assert a + (b + m.blocks) == (a + b) + m.blocks;
  }

  lemma ClearedRaster(d: int, q: seq<int>)
    requires |q| == 64
    ensures Raster(DcOnly(d), q)[0] == Dequantize(d, q[0])
    ensures forall z :: 1 <= z < 64 ==> Raster(DcOnly(d), q)[z] == 0
  {
    forall z | 0 <= z < 64 ensures Raster(DcOnly(d), q)[z] == if z == 0 then Dequantize(d, q[0]) else 0 {
      ZagInverse(z);
    }
  }
}
