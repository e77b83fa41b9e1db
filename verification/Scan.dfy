/** Whole scans: an encoder that writes MCUs, pads and stuffs each restart interval and puts the
    restart markers between them, and the proof that decoding gives the MCUs back. */
module Scan {
  import opened Machine
  import opened BitStream
  import opened Chain
  import opened Huffman
  import opened HuffmanBuild
  import opened BitReader
  import opened BitMeaning
  import opened Entropy
  import opened McuLoad

  /** The tables of a scan, by table number. */
  datatype Tables2 = Tables2(dct: seq<Table>, act: seq<Table>)

  ghost predicate UsableTables(ts: Tables2) {
    && |ts.dct| == |ts.act| == 2
    && Usable(ts.dct[0]) && Usable(ts.dct[1]) && Usable(ts.act[0]) && Usable(ts.act[1])
  }

  // ----- sequences of blocks -----

  /** A block with its component and the DC value it is coded against. */
  datatype Item = Item(cmp: nat, zz: seq<int>, prev: int)

  /** The blocks `zzs` of components `cmps`, each DC coded against the previous one of its component. */
  function Items(cmps: seq<nat>, zzs: seq<seq<int>>, dcv: seq<int>): (items: seq<Item>)
    requires |cmps| == |zzs| && |dcv| == 3
    ensures |items| == |zzs|
    decreases |zzs|
  {
    if zzs == [] then []
    else if cmps[0] < 3 && zzs[0] != [] then
      [Item(cmps[0], zzs[0], dcv[cmps[0]])] + Items(cmps[1..], zzs[1..], dcv[cmps[0] := zzs[0][0]])
    else [Item(3, [], 0)] + Items(cmps[1..], zzs[1..], dcv)
  }

  ghost predicate CodableItem(ts: Tables2, it: Item)
    requires UsableTables(ts)
  {
    if it.cmp == 0 then Codable(ts.dct[0], ts.act[0], it.zz, it.prev)
    else (it.cmp == 1 || it.cmp == 2) && Codable(ts.dct[1], ts.act[1], it.zz, it.prev)
  }

  /** A block as the encoder writes it: Y (component 0) with the first table of each kind, Cb and Cr
      (components 1 and 2) with the second. */
  ghost function ItemBits(ts: Tables2, it: Item): seq<bool>
    requires UsableTables(ts)
  {
    if |it.zz| != 64 then []
    else if it.cmp == 0 then EncodeBlock(ts.dct[0], ts.act[0], it.zz, it.prev)
    else EncodeBlock(ts.dct[1], ts.act[1], it.zz, it.prev)
  }

  ghost function ItemCoder(ts: Tables2): Item -> seq<bool> {
    it => if UsableTables(ts) then ItemBits(ts, it) else []
  }

  ghost function EncodeItems(ts: Tables2, items: seq<Item>): seq<bool> {
    Concat(ItemCoder(ts), items)
  }

  /** Reading item `it` leads from `p` to `q`. */
  ghost predicate ItemAt(c: Coder, p: Pos, it: Item, q: Pos) {
    && |c.dc| == |c.ac| == 2 && it.cmp < 3 && |it.zz| == 64
    && DecodeBlock(c.dc[TableId(it.cmp)], c.ac[TableId(it.cmp)], p, it.prev) == Block(JDR_OK, it.zz, it.zz[0], q)
  }

  ghost predicate AllCodable(ts: Tables2, items: seq<Item>)
    requires UsableTables(ts)
  {
    forall k :: 0 <= k < |items| ==> CodableItem(ts, items[k])
  }

  ghost function ItemReader(c: Coder): (Pos, Item, Pos) -> bool {
    (p, it, q) => ItemAt(c, p, it, q)
  }

  /** Reading the items leads through the places `ps`. */
  ghost predicate ItemsAt(c: Coder, ps: seq<Pos>, items: seq<Item>) {
    Chained(ItemReader(c), items, ps)
  }

  /** Wherever the code of an item lies ahead, the item is read. */
  lemma ItemsReadable(stream: seq<nat>, ts: Tables2, items: seq<Item>, stop: Stop)
    requires UsableTables(ts) && AllCodable(ts, items)
    ensures Readable(ItemCoder(ts), ItemReader(CoderOf(stream, ts.dct, ts.act)), Before(stream, stop), items)
  {
    var code, reads1, ahead := ItemCoder(ts), ItemReader(CoderOf(stream, ts.dct, ts.act)), Before(stream, stop);
    forall p, k, tail | 0 <= k < |items| && ahead(p, code(items[k]) + tail)
      ensures exists q :: Reached(reads1, ahead, p, items[k], q, tail)
    {
      var it := items[k];
      assert CodableItem(ts, it);
      var id := TableId(it.cmp);
      var q := BlockRoundTrip(stream, p, ts.dct[id], ts.act[id], it.zz, it.prev, tail, stop);
      assert Reached(reads1, ahead, p, it, q, tail);
    }
  }

  /** Coded blocks are read back one after the other. */
  lemma ItemsRoundTrip(stream: seq<nat>, ts: Tables2, p: Pos, items: seq<Item>, rest: seq<bool>, stop: Stop)
    returns (ps: seq<Pos>)
    requires UsableTables(ts) && AllCodable(ts, items)
    requires Ahead(stream, p, EncodeItems(ts, items) + rest, stop)
    ensures ItemsAt(CoderOf(stream, ts.dct, ts.act), ps, items)
    ensures ps[0] == p && Ahead(stream, ps[|items|], rest, stop)
  {
    ItemsReadable(stream, ts, items, stop);
    ps := ChainRoundTrip(ItemCoder(ts), ItemReader(CoderOf(stream, ts.dct, ts.act)), Before(stream, stop), items, p, rest);
  }

  lemma ItemsTail(c: Coder, ps: seq<Pos>, items: seq<Item>)
    requires items != [] && ItemsAt(c, ps, items)
    ensures ItemsAt(c, ps[1..], items[1..])
  {
    forall k {:trigger items[1..][k]} | 0 <= k < |items| - 1 ensures ItemAt(c, ps[1..][k], items[1..][k], ps[1..][k + 1]) {
      assert items[1..][k] == items[k + 1];
    }
  }

  /** Blocks read back as items are what the block loop decodes. */
  lemma {:induction false} BlocksFromItems(c: Coder, ps: seq<Pos>, cmps: seq<nat>, zzs: seq<seq<int>>, dcv: seq<int>)
    requires |c.dc| == |c.ac| == 2 && |dcv| == 3
    requires |cmps| == |zzs| && ItemsAt(c, ps, Items(cmps, zzs, dcv))
    ensures var m := DecodeBlocks(c, ps[0], dcv, cmps);
      m.rc == JDR_OK && m.blocks == zzs && m.p == ps[|zzs|]
    decreases |zzs|
  {
    if zzs != [] {
      var items := Items(cmps, zzs, dcv);
      assert ItemAt(c, ps[0], items[0], ps[1]) && items[0].zz == zzs[0];
      var dcv' := dcv[cmps[0] := zzs[0][0]];
      assert Items(cmps[1..], zzs[1..], dcv') == items[1..];
      ItemsTail(c, ps, items);
      BlocksFromItems(c, ps[1..], cmps[1..], zzs[1..], dcv');
      assert [zzs[0]] + zzs[1..] == zzs;
    }
  }

  /** Decoding a coded sequence of blocks gives them back and leaves the reader at the next bit. */
  lemma BlocksRoundTrip(stream: seq<nat>, ts: Tables2, p: Pos, cmps: seq<nat>, zzs: seq<seq<int>>,
                        dcv: seq<int>, rest: seq<bool>, stop: Stop) returns (end: Pos)
    requires UsableTables(ts) && |dcv| == 3 && |cmps| == |zzs|
    requires AllCodable(ts, Items(cmps, zzs, dcv))
    requires Ahead(stream, p, EncodeItems(ts, Items(cmps, zzs, dcv)) + rest, stop)
    ensures var m := DecodeBlocks(CoderOf(stream, ts.dct, ts.act), p, dcv, cmps);
      m.rc == JDR_OK && m.blocks == zzs && m.p == end
    ensures Ahead(stream, end, rest, stop)
  {
    var ps := ItemsRoundTrip(stream, ts, p, Items(cmps, zzs, dcv), rest, stop);
    BlocksFromItems(CoderOf(stream, ts.dct, ts.act), ps, cmps, zzs, dcv);
    end := ps[|zzs|];
  }

  // ----- bytes -----

  /** Eight bits a byte, the last byte filled up with ones (section F.1.2.3 of ITU-T T.81). */
  function Pack(bits: seq<bool>): seq<nat>
    decreases |bits|
  {
    if bits == [] then []
    else if |bits| < 8 then [Value(Padded(bits))]
    else [Value(bits[..8])] + Pack(bits[8..])
  }

  function Padded(bits: seq<bool>): (r: seq<bool>)
    ensures bits <= r
    decreases 8 - |bits|
  {
    if |bits| < 8 then bits + seq(8 - |bits|, _ => true) else bits
  }

  /** A zero byte after every 0xFF. */
  function Stuff(bytes: seq<nat>): seq<nat> {
    if bytes == [] then []
    else (if bytes[0] == 0xFF then [0xFF, 0] else [bytes[0]]) + Stuff(bytes[1..])
  }

  /** All bits of the packed bytes. */
  function Filled(bits: seq<bool>): (r: seq<bool>)
    ensures bits <= r && |r| < |bits| + 8
    decreases |bits|
  {
    if bits == [] then []
    else if |bits| < 8 then Padded(bits)
    else
      assert bits == bits[..8] + bits[8..];
      bits[..8] + Filled(bits[8..])
  }

  /** Reading a byte by masks from the top gives its binary digits. */
  lemma {:induction false} BitsByMask(b: nat, n: nat)
    ensures BitsFrom(b, Pow2(n)) == BitsOf(b, n + 1)
    decreases n
  {
    if n == 0 {
      assert And(b, 1) == b % 2;
      assert BitsFrom(b, 1) == [And(b, 1) != 0] + BitsFrom(b, 0);
      assert BitsOf(b, 1) == BitsOf(b / 2, 0) + [b % 2 == 1];
    } else {
      BitsByMask(b, n - 1);
      BitsByMask(b / 2, n - 1);
      MaskHalves(b, n);
    }
  }

  /** One more mask: the digits of the half, then the last digit. */
  lemma {:induction false} MaskHalves(b: nat, n: nat)
    requires n > 0
    ensures BitsFrom(b, Pow2(n)) == BitsFrom(b / 2, Pow2(n - 1)) + [b % 2 == 1]
    decreases n
  {
    var m := Pow2(n - 1);
    assert Pow2(n) / 2 == m;
    assert BitsFrom(b, Pow2(n)) == [And(b, Pow2(n)) != 0] + BitsFrom(b, m);
    AndDoubleMask(b, m);
    if n == 1 {
      assert And(b, 1) == b % 2 && BitsFrom(b, 1) == [And(b, 1) != 0] + BitsFrom(b, 0);
      assert BitsFrom(b / 2, 1) == [And(b / 2, 1) != 0] + BitsFrom(b / 2, 0);
    } else {
      MaskHalves(b, n - 1);
      assert m / 2 == Pow2(n - 2);
      assert BitsFrom(b / 2, m) == [And(b / 2, m) != 0] + BitsFrom(b / 2, m / 2);
    }
  }

  lemma AndDoubleMask(b: nat, m: nat)
    requires m > 0
    ensures And(b, 2 * m) != 0 <==> And(b / 2, m) != 0
  {
  }

  lemma ByteBits(bits: seq<bool>)
    requires |bits| == 8
    ensures Value(bits) < 256 && BitsFrom(Value(bits), MSB) == bits
  {
    ValueBound(bits);
    assert Pow2(4) == 16 && Pow2(7) == 128 && Pow2(8) == 256;
    BitsByMask(Value(bits), 7);
    BitsOfValue(bits);
  }

  /** What follows a restart interval: a marker, or the end of the input. */
  predicate Ends(tail: seq<nat>) {
    tail == [] || (|tail| > 1 && tail[0] == 0xFF && tail[1] != 0)
  }

  function StopAt(tail: seq<nat>): Stop {
    if tail == [] then EndOfInput else Marker(tail)
  }

  lemma UnstuffTail(tail: seq<nat>)
    requires Ends(tail)
    ensures Unstuff(tail) == Source([], StopAt(tail))
  {
    if tail != [] { assert [0xFF] + tail[1..] == tail; }
  }

  lemma UnstuffByte(b: nat, rest: seq<nat>)
    ensures Unstuff((if b == 0xFF then [0xFF, 0] else [b]) + rest) == Prepend(BitsFrom(b, MSB), Unstuff(rest))
  {
    if b == 0xFF {
      var raw := [0xFF, 0] + rest;
      assert raw[1..] == [0] + rest && raw[1..][1..] == rest;
    } else {
      assert ([b] + rest)[1..] == rest;
    }
  }

  /** Packed and stuffed bits are read back, with the filling, up to the marker. */
  lemma {:induction false} UnstuffStuffed(bits: seq<bool>, tail: seq<nat>)
    requires Ends(tail)
    ensures Unstuff(Stuff(Pack(bits)) + tail) == Source(Filled(bits), StopAt(tail))
    decreases |bits|
  {
    if bits == [] {
      assert Stuff(Pack(bits)) + tail == tail;
      UnstuffTail(tail);
    } else {
      var first, rest := if |bits| < 8 then Padded(bits) else bits[..8], if |bits| < 8 then [] else bits[8..];
      UnstuffStuffed(rest, tail);
      ByteBits(first);
      PackStep(bits, first, rest);
      StuffStep(Value(first), Pack(rest), tail);
      UnstuffByte(Value(first), Stuff(Pack(rest)) + tail);
      assert Filled(bits) == first + Filled(rest);
    }
  }

  lemma PackStep(bits: seq<bool>, first: seq<bool>, rest: seq<bool>)
    requires bits != []
    requires first == if |bits| < 8 then Padded(bits) else bits[..8]
    requires rest == if |bits| < 8 then [] else bits[8..]
    ensures Pack(bits) == [Value(first)] + Pack(rest)
  {
  }

  lemma StuffStep(b: nat, bytes: seq<nat>, tail: seq<nat>)
    ensures Stuff([b] + bytes) + tail == (if b == 0xFF then [0xFF, 0] else [b]) + (Stuff(bytes) + tail)
  {
    assert ([b] + bytes)[1..] == bytes;
  }

  // ----- restart intervals -----

  /** The blocks of one restart interval; its DC predictions start at zero. */
  datatype Interval = Interval(cmps: seq<nat>, zzs: seq<seq<int>>)

  ghost predicate CodableInterval(ts: Tables2, iv: Interval)
    requires UsableTables(ts)
  {
    |iv.cmps| == |iv.zzs| && AllCodable(ts, Items(iv.cmps, iv.zzs, [0, 0, 0]))
  }

  ghost function IntervalBits(ts: Tables2, iv: Interval): seq<bool> {
    if |iv.cmps| == |iv.zzs| then EncodeItems(ts, Items(iv.cmps, iv.zzs, [0, 0, 0])) else []
  }

  /** What follows interval `k` of a scan: the next restart marker and the rest, or the end of image. */
  ghost function ScanTail(ts: Tables2, ivs: seq<Interval>, k: nat): seq<nat>
    requires k < |ivs|
    decreases |ivs| - k, 0
  {
    if k + 1 == |ivs| then [0xFF, 0xD9] else [0xFF, 0xD0 + k % 8] + ScanFrom(ts, ivs, k + 1)
  }

  /** The bytes of a scan from interval `k` on (section B.2.4.4 of ITU-T T.81 for the markers). */
  ghost function ScanFrom(ts: Tables2, ivs: seq<Interval>, k: nat): seq<nat>
    requires k < |ivs|
    decreases |ivs| - k, 1
  {
    Stuff(Pack(IntervalBits(ts, ivs[k]))) + ScanTail(ts, ivs, k)
  }

  /** The result of decoding a scan: an error code or JDR_OK, and the blocks of every interval. */
  datatype Decoded = Decoded(rc: int, blocks: seq<seq<seq<int>>>)

  /** Decoding intervals of the given components, from number `k` on, with a restart between them. */
  function DecodeScan(stream: seq<nat>, c: Coder, p: Pos, cmpss: seq<seq<nat>>, k: nat): Decoded
    requires |c.dc| == |c.ac| == 2 && k < |cmpss|
    decreases |cmpss| - k
  {
    var m := DecodeBlocks(c, p, [0, 0, 0], cmpss[k]);
    if m.rc != JDR_OK then Decoded(m.rc, [])
    else if k + 1 == |cmpss| then Decoded(JDR_OK, [m.blocks])
    else
      var g := ReadMarker(stream, m.p, k);
      if g.v != JDR_OK then Decoded(g.v, [])
      else
        var rest := DecodeScan(stream, c, g.p, cmpss, k + 1);
        Decoded(rest.rc, [m.blocks] + rest.blocks)
  }

  /** A reader on a byte boundary has the unstuffed rest of its input before it. */
  lemma AtBoundary(stream: seq<nat>, p: Pos)
    requires p.msk == 0 && p.next <= |stream|
    ensures View(stream, p) == Unstuff(stream[p.next..])
  {
    UnstuffFromIndex(stream, p.next);
    assert View(stream, p).bits == UnstuffAt(stream, p.next).bits;
  }

  /** With only filling bits left, the marker is the next thing in the input. */
  lemma AtMarker(stream: seq<nat>, p: Pos, pad: seq<bool>, tail: seq<nat>)
    requires |pad| < 8 && Ahead(stream, p, pad, Marker(tail))
    ensures stream[p.next..] == tail
  {
    UnstuffFromIndex(stream, p.next);
    var raw := stream[p.next..];
    assert View(stream, p).bits == BitsFrom(p.cur, p.msk) + Unstuff(raw).bits;
    NearMarker(raw);
  }

  /** One interval is read back, up to its filling bits; the marker after it comes next. */
  lemma IntervalRoundTrip(stream: seq<nat>, ts: Tables2, p: Pos, iv: Interval, tail: seq<nat>) returns (end: Pos)
    requires UsableTables(ts) && CodableInterval(ts, iv) && Ends(tail) && tail != []
    requires p.msk == 0 && p.next <= |stream|
    requires stream[p.next..] == Stuff(Pack(IntervalBits(ts, iv))) + tail
    ensures var m := DecodeBlocks(CoderOf(stream, ts.dct, ts.act), p, [0, 0, 0], iv.cmps);
      m.rc == JDR_OK && m.blocks == iv.zzs && m.p == end
    ensures end.next <= |stream| && stream[end.next..] == tail
  {
    var bits := IntervalBits(ts, iv);
    var pad := Filled(bits)[|bits|..];
    AtBoundary(stream, p);
    UnstuffStuffed(bits, tail);
    assert Filled(bits) == bits + pad;
    end := BlocksRoundTrip(stream, ts, p, iv.cmps, iv.zzs, [0, 0, 0], pad, Marker(tail));
    AtMarker(stream, end, pad, tail);
  }

  /** A restart marker of the right number is taken, and the next interval begins after it. */
  lemma MarkerRoundTrip(stream: seq<nat>, end: Pos, k: nat, next: seq<nat>)
    requires end.next <= |stream| && stream[end.next..] == [0xFF, 0xD0 + k % 8] + next
    ensures var g := ReadMarker(stream, end, k);
      g.v == JDR_OK && g.p.msk == 0 && g.p.next <= |stream| && stream[g.p.next..] == next
  {
    var tail := [0xFF, 0xD0 + k % 8] + next;
    assert stream[end.next] == tail[0] && stream[end.next + 1] == tail[1];
    assert stream[end.next + 2..] == stream[end.next..][2..] == tail[2..];
  }

  function Components(ivs: seq<Interval>): (cs: seq<seq<nat>>)
    ensures |cs| == |ivs|
  {
    seq(|ivs|, k requires 0 <= k < |ivs| => ivs[k].cmps)
  }

  /** The blocks of the intervals from number `k` on. */
  function BlocksFrom(ivs: seq<Interval>, k: nat): seq<seq<seq<int>>>
    requires k <= |ivs|
    decreases |ivs| - k
  {
    if k == |ivs| then [] else [ivs[k].zzs] + BlocksFrom(ivs, k + 1)
  }

  /** Interval `k` is decoded from `p`, and what follows it leads to `q`. */
  ghost predicate IntervalAt(stream: seq<nat>, c: Coder, p: Pos, ivs: seq<Interval>, k: nat, q: Pos)
    requires k < |ivs|
  {
    && |c.dc| == |c.ac| == 2
    && var m := DecodeBlocks(c, p, [0, 0, 0], ivs[k].cmps);
      && m.rc == JDR_OK && m.blocks == ivs[k].zzs
      && (k + 1 < |ivs| ==> ReadMarker(stream, m.p, k) == Got(JDR_OK, q))
  }

  lemma ScanStep(stream: seq<nat>, c: Coder, p: Pos, ivs: seq<Interval>, k: nat, q: Pos)
    requires k < |ivs| && IntervalAt(stream, c, p, ivs, k, q)
    ensures DecodeScan(stream, c, p, Components(ivs), k) ==
      if k + 1 == |ivs| then Decoded(JDR_OK, [ivs[k].zzs])
      else
        var rest := DecodeScan(stream, c, q, Components(ivs), k + 1);
        Decoded(rest.rc, [ivs[k].zzs] + rest.blocks)
  {
  }

  /** Every interval is decoded wherever it begins, and leads to where the next one begins. */
  ghost predicate Leads(stream: seq<nat>, c: Coder, ivs: seq<Interval>, begins: (nat, Pos) -> bool) {
    forall k: nat, p | k < |ivs| && begins(k, p) :: exists q :: LeadsTo(stream, c, p, ivs, k, q, begins)
  }

  ghost predicate LeadsTo(stream: seq<nat>, c: Coder, p: Pos, ivs: seq<Interval>, k: nat, q: Pos, begins: (nat, Pos) -> bool) {
    k < |ivs| && IntervalAt(stream, c, p, ivs, k, q) && (k + 1 < |ivs| ==> begins(k + 1, q))
  }

  lemma {:induction false} ScanChain(stream: seq<nat>, c: Coder, p: Pos, ivs: seq<Interval>, k: nat, begins: (nat, Pos) -> bool)
    requires |c.dc| == |c.ac| == 2 && k < |ivs| && Leads(stream, c, ivs, begins) && begins(k, p)
    ensures DecodeScan(stream, c, p, Components(ivs), k) == Decoded(JDR_OK, BlocksFrom(ivs, k))
    decreases |ivs| - k
  {
    var q :| LeadsTo(stream, c, p, ivs, k, q, begins);
    ScanStep(stream, c, p, ivs, k, q);
    if k + 1 < |ivs| { ScanChain(stream, c, q, ivs, k + 1, begins); }
  }

  /** Interval `k` of a scan is read back, and the marker after it leads to the next one. */
  lemma IntervalOfScan(stream: seq<nat>, ts: Tables2, p: Pos, ivs: seq<Interval>, k: nat) returns (q: Pos)
    requires UsableTables(ts) && k < |ivs| && CodableInterval(ts, ivs[k])
    requires Begins(stream, ts, ivs, k, p)
    ensures IntervalAt(stream, CoderOf(stream, ts.dct, ts.act), p, ivs, k, q)
    ensures k + 1 < |ivs| ==> Begins(stream, ts, ivs, k + 1, q)
  {
    var end := IntervalRoundTrip(stream, ts, p, ivs[k], ScanTail(ts, ivs, k));
    q := ReadMarker(stream, end, k).p;
    if k + 1 < |ivs| { MarkerRoundTrip(stream, end, k, ScanFrom(ts, ivs, k + 1)); }
  }

  /** Interval `k` of the scan begins at `p`. */
  ghost predicate Begins(stream: seq<nat>, ts: Tables2, ivs: seq<Interval>, k: nat, p: Pos)
    requires UsableTables(ts)
  {
    k < |ivs| && p.msk == 0 && p.next <= |stream| && stream[p.next..] == ScanFrom(ts, ivs, k)
  }

  ghost function Beginning(stream: seq<nat>, ts: Tables2, ivs: seq<Interval>): (nat, Pos) -> bool {
    (k: nat, p: Pos) => UsableTables(ts) && Begins(stream, ts, ivs, k, p)
  }

  lemma ScanLeads(stream: seq<nat>, ts: Tables2, ivs: seq<Interval>)
    requires UsableTables(ts) && forall i :: 0 <= i < |ivs| ==> CodableInterval(ts, ivs[i])
    ensures Leads(stream, CoderOf(stream, ts.dct, ts.act), ivs, Beginning(stream, ts, ivs))
  {
    var c, begins := CoderOf(stream, ts.dct, ts.act), Beginning(stream, ts, ivs);
    forall k: nat, p | k < |ivs| && begins(k, p) ensures exists q :: LeadsTo(stream, c, p, ivs, k, q, begins) {
      var q := IntervalOfScan(stream, ts, p, ivs, k);
      assert LeadsTo(stream, c, p, ivs, k, q, begins);
    }
  }

  /** Decoding a whole scan, through its stuffing, filling and restart markers, gives back the blocks
      of every interval. */
  lemma ScanRoundTrip(stream: seq<nat>, ts: Tables2, p: Pos, ivs: seq<Interval>)
    requires UsableTables(ts) && ivs != []
    requires forall i :: 0 <= i < |ivs| ==> CodableInterval(ts, ivs[i])
    requires Begins(stream, ts, ivs, NONE, p)
    ensures DecodeScan(stream, CoderOf(stream, ts.dct, ts.act), p, Components(ivs), NONE) ==
      Decoded(JDR_OK, BlocksFrom(ivs, NONE))
  {
    ScanLeads(stream, ts, ivs);
    ScanChain(stream, CoderOf(stream, ts.dct, ts.act), p, ivs, NONE, Beginning(stream, ts, ivs));
  }
}
