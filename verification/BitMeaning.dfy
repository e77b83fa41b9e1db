/** What the reader's operations mean on the unstuffed bit string of the input, and the
    packing and stuffing by which an encoder produces such an input. */
module BitMeaning {
  import opened Machine
  import opened BitStream
  import opened Huffman
  import opened HuffmanBuild
  import opened BitReader

  /** The bits ahead of a position, and how they end. */
  function View(stream: seq<nat>, p: Pos): Source
    requires p.next <= |stream|
  {
    Prepend(BitsFrom(p.cur, p.msk), UnstuffAt(stream, p.next))
  }

  function StopCode(s: Stop): int {
    if s == EndOfInput then JDR_INP else JDR_FMT1
  }

  lemma FetchMeans(stream: seq<nat>, p: Pos)
    requires p.next <= |stream| && p.msk == 0
    ensures match FetchAt(stream, p.next)
      case Byte(b, next) => next <= |stream| && View(stream, Pos(b, MSB, next)) == View(stream, p)
      case Ended(rc) => View(stream, p).bits == [] && rc == -StopCode(View(stream, p).stop)
  {
    BetweenBytes(stream, p);
    FetchAhead(stream, p.next);
    match FetchAt(stream, p.next)
    case Byte(b, next) => assert View(stream, Pos(b, MSB, next)) == Prepend(BitsFrom(b, MSB), UnstuffAt(stream, next));
    case Ended(rc) =>
  }

  /** Between bytes, only whole bytes are ahead. */
  lemma BetweenBytes(stream: seq<nat>, p: Pos)
    requires p.next <= |stream| && p.msk == 0
    ensures View(stream, p) == UnstuffAt(stream, p.next)
  {
    assert [] + UnstuffAt(stream, p.next).bits == UnstuffAt(stream, p.next).bits;
  }

  /** The byte fetched gives the next bits of the unstuffed string. */
  lemma FetchAhead(stream: seq<nat>, i: nat)
    requires i <= |stream|
    ensures match FetchAt(stream, i)
      case Byte(b, next) => next <= |stream| && UnstuffAt(stream, i) == Prepend(BitsFrom(b, MSB), UnstuffAt(stream, next))
      case Ended(rc) => UnstuffAt(stream, i).bits == [] && rc == -StopCode(UnstuffAt(stream, i).stop)
  {
  }

  lemma TakeMeans(stream: seq<nat>, p: Pos)
    requires p.next <= |stream| && p.msk != 0
    ensures var (all, rest) := (View(stream, p), View(stream, p.(msk := p.msk / 2)));
      && all.bits != [] && (all.bits[0] <==> BitAt(p.cur, p.msk) == 1)
      && rest == Drop(all, 1)
  {
    TakeFirst(BitsFrom(p.cur, p.msk), BitsFrom(p.cur, p.msk / 2), UnstuffAt(stream, p.next), BitAt(p.cur, p.msk) == 1);
  }

  lemma TakeFirst(bits: seq<bool>, rest: seq<bool>, s: Source, first: bool)
    requires bits == [first] + rest
    ensures var all := Prepend(bits, s);
      all.bits != [] && all.bits[0] == first && Prepend(rest, s) == Drop(all, 1)
  {
    assert ([first] + rest + s.bits)[1..] == rest + s.bits;
  }

  /** A bit read is the first bit ahead. */
  lemma ReadBitMeans(stream: seq<nat>, p: Pos)
    requires p.next <= |stream|
    ensures var (all, g) := (View(stream, p), ReadBit(stream, p));
      if all.bits == [] then g.v == -StopCode(all.stop)
      else g.v == (if all.bits[0] then 1 else 0) && g.p.next <= |stream| && View(stream, g.p) == Drop(all, 1)
  {
    if p.msk != 0 {
      TakeMeans(stream, p);
    } else {
      FetchMeans(stream, p);
      match FetchAt(stream, p.next) {
        case Byte(b, next) => TakeMeans(stream, Pos(b, MSB, next));
        case Ended(rc) =>
      }
    }
  }

  lemma AppendBit(pre: seq<bool>, b: bool)
    requires |pre| < 16
    ensures Value(pre + [b]) == U16(2 * Value(pre)) + (if b then 1 else 0)
  {
    assert (pre + [b])[..|pre|] == pre;
    ValueBound(pre);
    assert Pow2(3) == 8 && Pow2(7) == 128 && Pow2(11) == 2048 && Pow2(15) == 0x8000;
    if |pre| < 15 { Pow2Less(|pre|, 15); }
  }

  lemma DropDrop(s: Source, n: nat, pre: seq<bool>)
    requires 1 <= n <= |s.bits|
    ensures Drop(Drop(s, 1), n - 1) == Drop(s, n)
    ensures pre + [s.bits[0]] + Drop(s, 1).bits[..n - 1] == pre + s.bits[..n]
  {
  }

  /** With `pre` read before, reading `n` bits ahead gives `g`: the value of all of them and the rest of
      the bits, or the code of what ends the bits. */
  ghost predicate BitsRead(stream: seq<nat>, all: Source, n: nat, pre: seq<bool>, g: Got) {
    if n <= |all.bits| then g.v == Value(pre + all.bits[..n]) && g.p.next <= |stream| && View(stream, g.p) == Drop(all, n)
    else g.v == -StopCode(all.stop)
  }

  lemma BitsReadMore(stream: seq<nat>, all: Source, n: nat, pre: seq<bool>, g: Got)
    requires n > 0 && all.bits != [] && BitsRead(stream, Drop(all, 1), n - 1, pre + [all.bits[0]], g)
    ensures BitsRead(stream, all, n, pre, g)
  {
    if n <= |all.bits| { DropDrop(all, n, pre); }
  }

  /** Reading `n` bits yields the value of the next `n` bits and moves past them, or the reason they are missing. */
  lemma {:induction false} ReadBitsMeans(stream: seq<nat>, p: Pos, n: nat, pre: seq<bool>)
    requires p.next <= |stream| && |pre| + n <= 16
    ensures BitsRead(stream, View(stream, p), n, pre, ReadBits(stream, p, n, Value(pre)))
    decreases n
  {
    var all := View(stream, p);
    if n == 0 {
      assert pre + all.bits[..0] == pre && Drop(all, 0) == all;
    } else {
      ReadBitMeans(stream, p);
      if all.bits != [] {
        AppendBit(pre, all.bits[0]);
        ReadBitsMeans(stream, ReadBit(stream, p).p, n - 1, pre + [all.bits[0]]);
        BitsReadMore(stream, all, n, pre, ReadBits(stream, p, n, Value(pre)));
      }
    }
  }

  // ----- the search by length -----

  /** No code of length up to `len` begins the bits. */
  ghost predicate Searched(t: Table, bits: seq<bool>, len: nat)
    requires WellFormed(t) && len <= MAX_LEN
  {
    forall k :: 0 <= k < |t.code| && Sizes(t.bits)[k] <= len ==> !Matches(t, k, bits)
  }

  /** The codes of length `len + 1` are those from Offset(len) to Offset(len + 1). */
  lemma GroupIs(t: Table, len: nat)
    requires WellFormed(t) && len < MAX_LEN
    ensures Offset(t.bits, len) + t.bits[len] <= |t.code|
    ensures forall k :: 0 <= k < |t.code| ==>
      (Sizes(t.bits)[k] == len + 1 <==> Offset(t.bits, len) <= k < Offset(t.bits, len) + t.bits[len])
  {
    var (lo, hi) := (Offset(t.bits, len), Offset(t.bits, len + 1));
    OffsetIsSize(t.bits, len);
    OffsetIsSize(t.bits, len + 1);
    GroupBounds(t.bits, len);
    forall k | 0 <= k < |t.code| && !(lo <= k < hi) ensures Sizes(t.bits)[k] != len + 1 {
      if k < lo {
        SizesPrefix(t.bits, len);
        assert Sizes(t.bits[..len])[k] <= len;
      } else {
        LongerAfter(t.bits, len + 1, k);
      }
    }
  }

  /** The codes past the groups up to `len` are longer than `len`. */
  lemma {:induction false} LongerAfter(counts: seq<nat>, len: nat, k: nat)
    requires len <= |counts|
    requires |Sizes(counts[..len])| <= k < |Sizes(counts)|
    ensures Sizes(counts)[k] > len
  {
    assert counts[..|counts|] == counts;
    if len < |counts| {
      var front := counts[..|counts| - 1];
      assert front[..len] == counts[..len];
      if k < |Sizes(front)| {
        LongerAfter(front, len, k);
      }
    }
  }

  lemma {:induction false} FindCodeMeans(t: Table, k: nat, n: nat, v: nat)
    requires k + n <= |t.code|
    ensures var r := FindCode(t, k, n, v);
      (forall i :: k <= i < r ==> t.code[i] != v) && (r < k + n ==> t.code[r] == v)
    decreases n
  {
    if n > 0 && t.code[k] != v { FindCodeMeans(t, k + 1, n - 1, v); }
  }


  /** `g` is the first matching code of the table for `bits`, and the place after it. */
  ghost predicate Decoded(stream: seq<nat>, t: Table, bits: seq<bool>, stop: Stop, g: Got)
    requires WellFormed(t)
  {
    var k := FirstMatch(t, 0, bits);
    if k < |t.code| then
      && Sizes(t.bits)[k] <= |bits|
      && g.v == t.data[k] && g.p.next <= |stream|
      && View(stream, g.p) == Source(bits[Sizes(t.bits)[k]..], stop)
    else g.v == if |bits| < MAX_LEN then -StopCode(stop) else -JDR_FMT1
  }

  lemma NextValue(bits: seq<bool>, len: nat)
    requires len < |bits| && len < 16
    ensures Value(bits[..len + 1]) == U16(2 * Value(bits[..len])) + (if bits[len] then 1 else 0)
  {
    assert bits[..len] + [bits[len]] == bits[..len + 1];
    AppendBit(bits[..len], bits[len]);
  }

  /** When every length has been searched, or no bit is left, there is no match at all. */
  lemma SearchOver(stream: seq<nat>, t: Table, bits: seq<bool>, len: nat, stop: Stop, g: Got)
    requires WellFormed(t) && len <= MAX_LEN && Searched(t, bits, len)
    requires if len == MAX_LEN then |bits| >= MAX_LEN && g.v == -JDR_FMT1 else |bits| == len && g.v == -StopCode(stop)
    ensures Decoded(stream, t, bits, stop, g)
  {
  }

  lemma FoundMeans(stream: seq<nat>, p: Pos, t: Table, bits: seq<bool>, len: nat, stop: Stop)
    requires WellFormed(t) && p.next <= |stream| && len <= |bits|
    requires View(stream, p) == Source(bits[len..], stop)
    requires FirstMatch(t, 0, bits) < |t.code| && Sizes(t.bits)[FirstMatch(t, 0, bits)] == len
    ensures Decoded(stream, t, bits, stop, Got(t.data[FirstMatch(t, 0, bits)], p))
  {
  }

  lemma OneBit(stream: seq<nat>, p: Pos, bits: seq<bool>, len: nat, stop: Stop)
    requires p.next <= |stream| && len < |bits| && len < 16
    requires View(stream, p) == Source(bits[len..], stop)
    ensures var g := ReadBit(stream, p);
      && g.v >= 0 && g.p.next <= |stream| && View(stream, g.p) == Source(bits[len + 1..], stop)
      && U16(2 * Value(bits[..len])) + g.v == Value(bits[..len + 1])
  {
    ReadBitMeans(stream, p);
    NextValue(bits, len);
    assert bits[len..][1..] == bits[len + 1..];
  }

  /** Decoding a symbol finds the first code word, in the order of the table, that begins the
      bits ahead, and moves past it. */
  lemma {:induction false} ReadSymbolMeans(stream: seq<nat>, p: Pos, t: Table, len: nat, bits: seq<bool>, stop: Stop)
    returns (res: Got)
    requires WellFormed(t) && Shaped(t) && len <= MAX_LEN
    requires p.next <= |stream| && len <= |bits|
    requires View(stream, p) == Source(bits[len..], stop)
    requires Searched(t, bits, len)
    ensures res == ReadSymbol(stream, p, t, len, Offset(t.bits, len), Value(bits[..len]))
    ensures Decoded(stream, t, bits, stop, res)
    decreases MAX_LEN - len
  {
    if len == MAX_LEN {
      res := Got(-JDR_FMT1, p);
      SearchOver(stream, t, bits, len, stop, res);
    } else if len == |bits| {
      res := ReadBit(stream, p);
      ReadBitMeans(stream, p);
      SearchOver(stream, t, bits, len, stop, res);
    } else {
      res := ReadLength(stream, p, t, len, bits, stop);
    }
  }

  /** One round of the search, unfolded. */
  lemma Unfold(stream: seq<nat>, p: Pos, t: Table, len: nat, v: nat, v': nat, r: nat)
    requires Shaped(t) && len < MAX_LEN
    requires ReadBit(stream, p).v >= 0
    requires v' == U16(2 * v) + ReadBit(stream, p).v
    requires Offset(t.bits, len) + t.bits[len] <= |t.code|
    requires r == FindCode(t, Offset(t.bits, len), t.bits[len], v')
    ensures ReadSymbol(stream, p, t, len, Offset(t.bits, len), v) ==
      if r < Offset(t.bits, len) + t.bits[len] then Got(t.data[r], ReadBit(stream, p).p)
      else ReadSymbol(stream, ReadBit(stream, p).p, t, len + 1, Offset(t.bits, len + 1), v')
  {
  }

  lemma ReadLength(stream: seq<nat>, p: Pos, t: Table, len: nat, bits: seq<bool>, stop: Stop)
    returns (res: Got)
    requires WellFormed(t) && Shaped(t) && len < MAX_LEN
    requires p.next <= |stream| && len < |bits|
    requires View(stream, p) == Source(bits[len..], stop)
    requires Searched(t, bits, len)
    ensures res == ReadSymbol(stream, p, t, len, Offset(t.bits, len), Value(bits[..len]))
    ensures Decoded(stream, t, bits, stop, res)
    decreases MAX_LEN - len, 0
  {
    var g := ReadBit(stream, p);
    OneBit(stream, p, bits, len, stop);
    OffsetOrder(t.bits, len + 1, |t.bits|);
    var r := StepSearch(t, bits, len);
    Unfold(stream, p, t, len, Value(bits[..len]), Value(bits[..len + 1]), r);
    if r < Offset(t.bits, len) + t.bits[len] {
      res := Got(t.data[r], g.p);
      FoundMeans(stream, g.p, t, bits, len + 1, stop);
    } else {
      res := ReadSymbolMeans(stream, g.p, t, len + 1, bits, stop);
    }
  }

  /** One length of the search: either it contains the first match, or it holds no match. */
  lemma StepSearch(t: Table, bits: seq<bool>, len: nat) returns (r: nat)
    requires WellFormed(t) && len < MAX_LEN && len < |bits|
    requires Searched(t, bits, len)
    requires Offset(t.bits, len) + t.bits[len] <= |t.code|
    ensures r == FindCode(t, Offset(t.bits, len), t.bits[len], Value(bits[..len + 1]))
    ensures if r < Offset(t.bits, len) + t.bits[len]
      then r == FirstMatch(t, 0, bits) && Sizes(t.bits)[r] == len + 1
      else Searched(t, bits, len + 1)
  {
    var lo, n, v := Offset(t.bits, len), t.bits[len], Value(bits[..len + 1]);
    GroupIs(t, len);
    FindCodeMeans(t, lo, n, v);
    r := FindCode(t, lo, n, v);
    if r < lo + n {
      assert Matches(t, r, bits);
      forall i | 0 <= i < r ensures !Matches(t, i, bits) {
        assert Sizes(t.bits)[i] <= len + 1;
      }
    }
  }

  /** The meaning of one decoded symbol. */
  lemma SymbolMeans(stream: seq<nat>, p: Pos, t: Table)
    requires Shaped(t) && p.next <= |stream|
    ensures WellFormed(t)
    ensures Decoded(stream, t, View(stream, p).bits, View(stream, p).stop, Symbol(stream, p, t))
  {
    ShapedIsWellFormed(t);
    var all := View(stream, p);
    assert all.bits[0..] == all.bits;
    var res := ReadSymbolMeans(stream, p, t, 0, all.bits, all.stop);
  }
}
