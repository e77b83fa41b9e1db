/** The bit reader of the decoder: bits taken from a refillable input buffer, with the stuffed
    zero bytes dropped on the way (bitext, huffext and the marker test of restart).
    The functions say what each operation does to a position in the input; the class below
    performs them with the buffer; the lemmas tie the positions to the unstuffed bit string. */
module BitReader {
  import opened BitStream
  import opened Machine
  import opened Huffman
  import opened HuffmanBuild

  /** Size of the stream input buffer (rtconfig.h). */
  const JD_SZBUF: nat := 512

  const JDR_INP: int := 2

  /** No bit read, no length searched. */
  const NONE: nat := 0

  /** A place in the input: the current byte, the mask of its next bit, and the number of bytes read. */
  datatype Pos = Pos(cur: nat, msk: nat, next: nat)

  /** The result of an operation: its value, or a negative error code. */
  datatype Got = Got(v: int, p: Pos)

  /** The next data byte from index `i` on, with the index after it. */
  datatype Fetch = Byte(b: nat, next: nat) | Ended(rc: int)

  function FetchAt(stream: seq<nat>, i: nat): Fetch {
    if i >= |stream| then Ended(-JDR_INP)
    else if stream[i] != 0xFF then Byte(stream[i], i + 1)
    else if i + 1 == |stream| then Ended(-JDR_INP)
    else if stream[i + 1] != 0 then Ended(-JDR_FMT1)
    else Byte(0xFF, i + 2)
  }

  /** The current bit of `p`, as the reader tests it. */
  function BitAt(cur: nat, msk: nat): nat {
    if And(cur, msk) != 0 then 1 else 0
  }

  function ReadBit(stream: seq<nat>, p: Pos): Got {
    if p.msk != 0 then Got(BitAt(p.cur, p.msk), p.(msk := p.msk / 2))
    else match FetchAt(stream, p.next)
      case Byte(b, next) => Got(BitAt(b, MSB), Pos(b, MSB / 2, next))
      case Ended(rc) => Got(rc, p)
  }

  /** `n` more bits appended to the 16-bit value `v`. */
  function ReadBits(stream: seq<nat>, p: Pos, n: nat, v: nat): Got
    decreases n
  {
    if n == 0 then Got(v, p)
    else
      var g := ReadBit(stream, p);
      if g.v < 0 then g else ReadBits(stream, g.p, n - 1, U16(2 * v) + g.v)
  }

  /** The first code from `k` on, of the `n` codes of the current length, that equals `v`; or `k + n`. */
  function FindCode(t: Table, k: nat, n: nat, v: nat): (r: nat)
    requires k + n <= |t.code|
    ensures k <= r <= k + n
    decreases n
  {
    if n == 0 || t.code[k] == v then k else FindCode(t, k + 1, n - 1, v)
  }

  /** The number of codes of length up to `len`. */
  function Offset(bits: seq<nat>, len: nat): nat
    requires len <= |bits|
  {
    if len == 0 then 0 else Offset(bits, len - 1) + bits[len - 1]
  }

  /** The three parts of the table fit together. */
  predicate Shaped(t: Table) {
    |t.bits| == MAX_LEN && Offset(t.bits, |t.bits|) == |t.code| == |t.data|
  }

  lemma {:induction false} OffsetIsSize(bits: seq<nat>, len: nat)
    requires len <= |bits|
    ensures Offset(bits, len) == |Sizes(bits[..len])|
  {
    if len == 0 {
      assert bits[..0] == [];
    } else {
      OffsetIsSize(bits, len - 1);
      SizesGroup(bits, len - 1);
    }
  }

  lemma ShapedIsWellFormed(t: Table)
    ensures Shaped(t) <==> WellFormed(t)
  {
    if |t.bits| == MAX_LEN {
      OffsetIsSize(t.bits, |t.bits|);
      assert t.bits[..|t.bits|] == t.bits;
    }
  }

  lemma {:induction false} OffsetOrder(bits: seq<nat>, m: nat, n: nat)
    requires m <= n <= |bits|
    ensures Offset(bits, m) <= Offset(bits, n)
  {
    if m < n { OffsetOrder(bits, m, n - 1); }
  }

  /** The search by length, with codes up to length `len` done: `k` is the index of the next code. */
  function ReadSymbol(stream: seq<nat>, p: Pos, t: Table, len: nat, k: nat, v: nat): Got
    requires Shaped(t) && len <= MAX_LEN && k == Offset(t.bits, len)
    decreases MAX_LEN - len
  {
    if len == MAX_LEN then Got(-JDR_FMT1, p)
    else
      var g := ReadBit(stream, p);
      if g.v < 0 then g
      else
        var (v', n) := (U16(2 * v) + g.v, t.bits[len]);
        OffsetOrder(t.bits, len + 1, |t.bits|);
        var r := FindCode(t, k, n, v');
        if r < k + n then Got(t.data[r], g.p)
        else ReadSymbol(stream, g.p, t, len + 1, k + n, v')
  }

  /** One round of the search: it fails, it hits a code, or it goes on with the next length. */
  datatype Round = NoBit(rc: int) | Hit(sym: int, p: Pos) | Longer(k: nat, v: nat, p: Pos)

  /** A bit, then the codes of that length, which begin at `k`. */
  function SearchStep(stream: seq<nat>, p: Pos, t: Table, len: nat, k: nat, v: nat): Round
    requires Shaped(t) && len < MAX_LEN && k == Offset(t.bits, len)
  {
    var g := ReadBit(stream, p);
    if g.v < 0 then NoBit(g.v)
    else
      var (v', n) := (U16(2 * v) + g.v, t.bits[len]);
      OffsetOrder(t.bits, len + 1, |t.bits|);
      var r := FindCode(t, k, n, v');
      if r < k + n then Hit(t.data[r], g.p) else Longer(r, v', g.p)
  }

  /** The search is at length `len`, with `k` codes and the bits `v` behind it, and will come to `goal`. */
  predicate Searching(goal: Got, stream: seq<nat>, p: Pos, t: Table, len: nat, k: nat, v: nat) {
    Shaped(t) && len <= MAX_LEN && k == Offset(t.bits, len) && goal == ReadSymbol(stream, p, t, len, k, v)
  }

  lemma SymbolRound(goal: Got, stream: seq<nat>, p: Pos, t: Table, len: nat, k: nat, v: nat)
    requires Searching(goal, stream, p, t, len, k, v)
    ensures len == MAX_LEN ==> goal.v == -JDR_FMT1
    ensures len < MAX_LEN ==>
      match SearchStep(stream, p, t, len, k, v)
      case NoBit(rc) => goal.v == rc
      case Hit(sym, q) => goal == Got(sym, q)
      case Longer(k', v', q) => Searching(goal, stream, q, t, len + 1, k', v')
  {
    if len == MAX_LEN { return; }
    OffsetOrder(t.bits, len + 1, |t.bits|);
  }

  function Symbol(stream: seq<nat>, p: Pos, t: Table): Got
    requires Shaped(t)
  {
    ReadSymbol(stream, p, t, NONE, NONE, NONE)
  }

  /** The two bytes that restart accepts as the marker number `rstn`. Its mask ignores bit 5 of
      the second byte, so 0xF0 + n passes as well as RSTn itself. */
  predicate IsRestart(hi: nat, lo: nat, rstn: nat) {
    hi == 0xFF && (lo == 0xD0 + rstn % 8 || lo == 0xF0 + rstn % 8)
  }

  /** A restart marker: the padding bits of the current byte are dropped and two bytes are taken. */
  function ReadMarker(stream: seq<nat>, p: Pos, rstn: nat): Got {
    var i := p.next;
    if |stream| < i + 2 then Got(JDR_INP, p)
    else Got(if IsRestart(stream[i], stream[i + 1], rstn) then JDR_OK else JDR_FMT1, Pos(stream[i + 1], 0, i + 2))
  }

  /** The two masked comparisons of restart. */
  predicate Passes(d: nat, rstn: nat) {
    And(d, 0xFFD8) == 0xFFD0 && And(d, 7) == And(rstn, 7)
  }

  /** These are the bytes that pass them. */
  lemma RestartMasks(hi: byte, lo: byte, rstn: nat)
    ensures IsRestart(hi, lo, rstn) <==> Passes(256 * hi + lo, rstn)
  {
    var v: nat := 32 * hi + lo / 8;
    assert 256 * hi + lo == 8 * v + lo % 8;
    PassesIff(v, lo % 8, rstn);
    RestartBytes(hi, lo, rstn);
  }

  lemma PassesIff(v: nat, f: nat, rstn: nat)
    requires v < 8192 && f < 8
    ensures Passes(8 * v + f, rstn) <==> (v == 32 * 255 + 26 || v == 32 * 255 + 30) && f == rstn % 8
  {
    LowThree(8 * v + f);
    LowThree(rstn);
    LowStep(v, f, 0xFFD8);
    HighMask(v);
    HighBits(v);
  }

  lemma LowThree(x: nat)
    ensures And(x, 7) == x % 8
  {
    AndMask(x, 3);
    assert Pow2(3) == 8;
  }

  lemma RestartBytes(hi: byte, lo: byte, rstn: nat)
    ensures var v := 32 * hi + lo / 8;
      IsRestart(hi, lo, rstn) <==> (v == 32 * 255 + 26 || v == 32 * 255 + 30) && lo % 8 == rstn % 8
  {
  }

  /** Three masked bits. */
  lemma LowStep(v: nat, f: nat, y: nat)
    requires f < 8 && y % 8 == 0
    ensures And(8 * v + f, y) == 8 * And(v, y / 8) && (8 * v + f) % 8 == f
  {
    var d := 8 * v + f;
    AndStep(d, y);
    AndStep(d / 2, y / 2);
    AndStep(d / 2 / 2, y / 2 / 2);
    assert d / 2 / 2 / 2 == v && y / 2 / 2 / 2 == y / 8;
  }

  lemma TwoToTen()
    ensures Pow2(10) == 1024
  {
    assert Pow2(5) == 32;
  }

  /** The mask keeps the upper ten bits and the lowest two. */
  lemma HighMask(v: nat)
    requires v < 8192
    ensures And(v, 0x1FFB) == 8 * (v / 8) + 2 * (v / 2 % 2) + v % 2
  {
    var w := v / 8;
    var y: nat := 0x3FF;
    TwoToTen();
    AndOnes(w, 10, y);
    MaskParts(v, v / 2, v / 4, w, 0x1FFB, 0xFFD, 0x7FE, y);
  }

  lemma MaskParts(x0: nat, x1: nat, x2: nat, x3: nat, y0: nat, y1: nat, y2: nat, y3: nat)
    requires x1 == x0 / 2 && x2 == x1 / 2 && x3 == x2 / 2 && y1 == y0 / 2 && y2 == y1 / 2 && y3 == y2 / 2
    requires y0 % 2 == 1 && y1 % 2 == 1 && y2 % 2 == 0
    ensures And(x0, y0) == 8 * And(x3, y3) + 2 * (x1 % 2) + x0 % 2
  {
    AndStep(x0, y0);
    AndStep(x1, y1);
    AndStep(x2, y2);
  }

  lemma HighBits(v: nat)
    requires v < 8192
    ensures 8 * (8 * (v / 8) + 2 * (v / 2 % 2) + v % 2) == 0xFFD0 <==> v == 32 * 255 + 26 || v == 32 * 255 + 30
  {
  }

  /** The mask of the check leaves out a bit: bytes that are no restart marker pass for one. */
  lemma NotOnlyMarkers(rstn: nat)
    ensures ReadMarker([0xFF, 0xF0 + rstn % 8], Pos(NONE, NONE, NONE), rstn).v == JDR_OK
  {
  }

  class Reader {
    const inbuf: array<nat>
    var dptr: nat
    var dctr: nat
    var dmsk: nat
    /** The input device: its bytes, and how many have been delivered. */
    const stream: seq<nat>
    var pos: nat

    /** The `dc` bytes after position `dp` of the buffer are the last ones delivered. */
    ghost predicate Window(dp: nat, dc: nat)
      reads `pos, inbuf
    {
      && inbuf.Length == JD_SZBUF && dp + dc < JD_SZBUF
      && dc <= pos <= |stream|
      && forall j :: dp < j <= dp + dc ==> inbuf[j] == stream[pos - dc + (j - dp - 1)]
    }

    ghost predicate Valid()
      reads this, inbuf
    {
      Window(dptr, dctr) && Bytes(stream)
    }

    /** The place of the reader in its input. */
    ghost function Here(): Pos
      requires Valid()
      reads this, inbuf
    {
      Pos(inbuf[dptr], dmsk, pos - dctr)
    }

    /** Byte `s` at `dp`, mask `msk` and `dc` buffered bytes put the reader at `p`. */
    ghost predicate At(p: Pos, s: nat, msk: nat, dp: nat, dc: nat)
      reads `pos, inbuf
    {
      Window(dp, dc) && s == inbuf[dp] && p == Pos(s, msk, pos - dc)
    }

    constructor (bytes: seq<nat>)
      requires Bytes(bytes)
      ensures Valid() && fresh(inbuf)
      ensures stream == bytes && Here().msk == 0 && Here().next == 0
    {
      inbuf := new nat[JD_SZBUF];
      dptr, dctr, dmsk, stream, pos := 0, 0, 0, bytes, 0;
    }

    /** The input function: stores some of the bytes still to come at the top of the buffer, as
        many as it likes but at least one, and returns their number; none at the end of the input. */
    method InFunc() returns (dc: nat)
      requires inbuf.Length == JD_SZBUF && pos <= |stream|
      modifies inbuf, `pos
      ensures dc == 0 <==> old(pos) == |stream|
      ensures dc <= JD_SZBUF && pos == old(pos) + dc <= |stream|
      ensures forall i :: 0 <= i < dc ==> inbuf[i] == stream[old(pos) + i]
    {
      if pos == |stream| { return 0; }
      dc :| 1 <= dc <= JD_SZBUF && pos + dc <= |stream|;
      forall i | 0 <= i < dc { inbuf[i] := stream[pos + i]; }
      pos := pos + dc;
    }

    /** The next raw byte: refill when the buffer is exhausted, else advance. */
    method NextByte(dp0: nat, dc0: nat) returns (ok: bool, dp: nat, dc: nat)
      requires Window(dp0, dc0)
      modifies inbuf, `pos
      ensures ok <==> old(pos) - dc0 < |stream|
      ensures ok ==> Window(dp, dc) && pos - dc == old(pos) - dc0 + 1
      ensures ok ==> inbuf[dp] == stream[old(pos) - dc0]
    {
      dp, dc := dp0, dc0;
      if dc == 0 {
        dp := 0;
        dc := InFunc();
        if dc == 0 { return false, dp, dc; }
      } else {
        dp := dp + 1;
      }
      dc := dc - 1;
      ok := true;
    }

    /** The next data byte. A 0xFF must be followed by a zero byte, which is replaced in the buffer
        by the 0xFF it stands for. */
    method NextData(dp0: nat, dc0: nat) returns (rc: int, s: nat, dp: nat, dc: nat)
      requires Window(dp0, dc0)
      modifies inbuf, `pos
      ensures match FetchAt(stream, old(pos) - dc0)
        case Byte(b, next) => rc == 0 && At(Pos(b, MSB, next), s, MSB, dp, dc)
        case Ended(e) => rc == e
    {
      rc, s := 0, 0;
      var ok;
      ok, dp, dc := NextByte(dp0, dc0);
      if !ok { return -JDR_INP, s, dp, dc; }
      s := inbuf[dp];
      if s == 0xFF {
        ok, dp, dc := NextByte(dp, dc);
        if !ok { return -JDR_INP, s, dp, dc; }
        if inbuf[dp] != 0 { return -JDR_FMT1, s, dp, dc; }
        inbuf[dp] := s;
      }
    }

    /** One bit: what each round of both bit loops does with the local copies of the reader. */
    method NextBit(ghost p: Pos, s0: nat, msk0: nat, dp0: nat, dc0: nat)
      returns (r: int, s: nat, msk: nat, dp: nat, dc: nat)
      requires At(p, s0, msk0, dp0, dc0)
      modifies inbuf, `pos
      ensures r == ReadBit(stream, p).v
      ensures r >= 0 ==> At(ReadBit(stream, p).p, s, msk, dp, dc)
    {
      s, msk, dp, dc := s0, msk0, dp0, dc0;
      if msk == 0 {
        r, s, dp, dc := NextData(dp, dc);
        if r != 0 { return; }
        msk := MSB;
      }
      r := if And(s, msk) != 0 then 1 else 0;
      msk := msk / 2;
    }

    /** The end of a read: the local copies go back into the reader. */
    method Commit(ghost p: Pos, ghost s: nat, msk: nat, dp: nat, dc: nat)
      requires At(p, s, msk, dp, dc) && Bytes(stream)
      modifies `dmsk, `dptr, `dctr
      ensures Valid() && Here() == p
    {
      dmsk, dctr, dptr := msk, dc, dp;
    }

    /** Extracts `nbit` bits. */
    method BitExt(nbit: nat) returns (r: int)
      requires Valid() && nbit >= 1
      modifies this, inbuf
      ensures r == ReadBits(stream, old(Here()), nbit, 0).v
      ensures r >= 0 ==> Valid() && Here() == ReadBits(stream, old(Here()), nbit, 0).p
      ensures r < 0 ==> dmsk == old(dmsk) && dctr == old(dctr) && dptr == old(dptr)
    {
      ghost var p := Here();
      ghost var goal := ReadBits(stream, p, nbit, 0);
      var msk: nat, dc: nat, dp: nat := dmsk, dctr, dptr;
      var s, v: nat, n := inbuf[dp], 0, nbit;
      while n > 0
        invariant 0 <= n <= nbit
        invariant At(p, s, msk, dp, dc)
        invariant goal == ReadBits(stream, p, n, v)
        modifies inbuf, `pos
      {
        var bit;
        bit, s, msk, dp, dc := NextBit(p, s, msk, dp, dc);
        if bit < 0 { return bit; }
        p := ReadBit(stream, p).p;
        v := U16(2 * v) + bit;
        n := n - 1;
      }
      Commit(p, s, msk, dp, dc);
      return v;
    }

    /** Decodes one symbol: after each bit, the codes of that length are searched in order. */
    method HuffExt(t: Table) returns (r: int)
      requires Valid() && Shaped(t)
      modifies this, inbuf
      ensures r == Symbol(stream, old(Here()), t).v
      ensures r >= 0 ==> Valid() && Here() == Symbol(stream, old(Here()), t).p
      ensures r < 0 ==> dmsk == old(dmsk) && dctr == old(dctr) && dptr == old(dptr)
    {
      var s, msk, dc, dp;
      r, s, msk, dc, dp := SearchSymbol(t);
      if r >= 0 { Commit(Symbol(stream, old(Here()), t).p, s, msk, dp, dc); }
    }

    /** The search of huffext on local copies of the reader: bit by bit, through the codes of each length. */
    method SearchSymbol(t: Table) returns (r: int, s: nat, msk: nat, dc: nat, dp: nat)
      requires Valid() && Shaped(t)
      modifies inbuf, `pos
      ensures r == Symbol(stream, old(Here()), t).v
      ensures r >= 0 ==> At(Symbol(stream, old(Here()), t).p, s, msk, dp, dc)
    {
      ghost var p := Here();
      ghost var goal := Symbol(stream, p, t);
      s, msk, dc, dp := inbuf[dptr], dmsk, dctr, dptr;
      var bl, k, v: nat := 16, 0, 0;
      ghost var len := 0;
      while bl > 0
        invariant 0 <= bl <= 16 && len == 16 - bl
        invariant At(p, s, msk, dp, dc) && Searching(goal, stream, p, t, len, k, v)
      {
        SymbolRound(goal, stream, p, t, len, k, v);
        ghost var step := SearchStep(stream, p, t, len, k, v);
        var found;
        r, found, k, v, s, msk, dp, dc := SearchLonger(t, p, 16 - bl, k, v, s, msk, dp, dc);
        if r < 0 || found { return; }
        bl, len, p := bl - 1, len + 1, step.p;
      }
      SymbolRound(goal, stream, p, t, len, k, v);
      r := -JDR_FMT1;
    }

    /** One round: one more bit, and the codes that long. */
    method SearchLonger(t: Table, ghost p: Pos, len: nat, k0: nat, v0: nat, s0: nat, msk0: nat, dp0: nat, dc0: nat)
      returns (r: int, found: bool, k: nat, v: nat, s: nat, msk: nat, dp: nat, dc: nat)
      requires Shaped(t) && len < MAX_LEN && k0 == Offset(t.bits, len) && At(p, s0, msk0, dp0, dc0)
      modifies inbuf, `pos
      ensures match SearchStep(stream, p, t, len, k0, v0)
        case NoBit(rc) => r == rc < 0
        case Hit(sym, q) => r == sym >= 0 && found && At(q, s, msk, dp, dc)
        case Longer(k', v', q) =>
          r >= 0 && !found && k == k' == Offset(t.bits, len + 1) && v == v' && At(q, s, msk, dp, dc)
    {
      k, v, found := k0, v0, false;
      r, s, msk, dp, dc := NextBit(p, s0, msk0, dp0, dc0);
      if r < 0 { return; }
      v := U16(2 * v) + r;
      OffsetOrder(t.bits, len + 1, |t.bits|);
      k, found := SearchLength(t, k, t.bits[len], v);
      if found { r := t.data[k]; }
    }

    /** The inner loop of the search: the `n` codes of one length. */
    static method SearchLength(t: Table, start: nat, n: nat, v: nat) returns (k: nat, found: bool)
      requires start + n <= |t.code|
      ensures k == FindCode(t, start, n, v) && found == (k < start + n)
    {
      k := start;
      var nd := n;
      while nd > 0
        invariant 0 <= nd <= n && k == start + (n - nd)
        invariant FindCode(t, start, n, v) == FindCode(t, k, nd, v)
      {
        if v == t.code[k] { return k, true; }
        k, nd := k + 1, nd - 1;
      }
      found := false;
    }

    /** Discards the padding bits and takes the two bytes of a restart marker. */
    method TakeMarker(rstn: nat) returns (rc: int)
      requires Valid()
      modifies this, inbuf
      ensures rc == ReadMarker(stream, old(Here()), rstn).v
      ensures rc != JDR_INP ==> Valid() && Here() == ReadMarker(stream, old(Here()), rstn).p
    {
      var dc, dp := dctr, dptr;
      var ok;
      ok, dp, dc := NextByte(dp, dc);
      if !ok { return JDR_INP; }
      var d := inbuf[dp];
      ok, dp, dc := NextByte(dp, dc);
      if !ok { return JDR_INP; }
      d := U16(256 * d) + inbuf[dp];
      dptr, dctr, dmsk := dp, dc, 0;
      // d & 0xFFD8 keeps the bits from 6 on and the bits 3 and 4; d & 7 keeps the low three.
      if d / 64 != 0xFFD0 / 64 || d / 8 % 4 != 0xD0 / 8 % 4 || d % 8 != rstn % 8 { return JDR_FMT1; }
      return JDR_OK;
    }
  }
}
