/** The entropy-coded segment of a JPEG file as a bit string: byte unstuffing,
    the value of a bit field, and the packing an encoder performs. */
module BitStream {
  import opened Machine

  /** The mask of the first bit of a byte. */
  const MSB: nat := 0x80

  /** Why the bit string of a segment ends: no more input, or 0xFF followed by a non-zero byte,
      with the bytes from that 0xFF on. */
  datatype Stop = EndOfInput | Marker(tail: seq<nat>)

  /** A finite bit string together with what a reader meets after its last bit. */
  datatype Source = Source(bits: seq<bool>, stop: Stop)

  /** The bits of byte `s` from mask `msk` downwards. */
  function BitsFrom(s: nat, msk: nat): seq<bool>
    decreases msk
  {
    if msk == 0 then [] else [And(s, msk) != 0] + BitsFrom(s, msk / 2)
  }

  /** Section F.1.2.3 of ITU-T T.81 read backwards: a zero byte after 0xFF is dropped. */
  function Unstuff(raw: seq<nat>): Source
    decreases |raw|
  {
    if raw == [] then Source([], EndOfInput)
    else if raw[0] == 0xFF then UnstuffFlag(raw[1..])
    else Prepend(BitsFrom(raw[0], MSB), Unstuff(raw[1..]))
  }

  /** The rest of the segment when its 0xFF has just been read. */
  function UnstuffFlag(raw: seq<nat>): Source
    decreases |raw|
  {
    if raw == [] then Source([], EndOfInput)
    else if raw[0] != 0 then Source([], Marker([0xFF] + raw))
    else Prepend(BitsFrom(0xFF, MSB), Unstuff(raw[1..]))
  }

  /** `Unstuff` of the bytes from index `i` on, following the index. */
  function UnstuffAt(stream: seq<nat>, i: nat): Source
    requires i <= |stream|
    decreases |stream| - i
  {
    if i == |stream| then Source([], EndOfInput)
    else if stream[i] != 0xFF then Prepend(BitsFrom(stream[i], MSB), UnstuffAt(stream, i + 1))
    else if i + 1 == |stream| then Source([], EndOfInput)
    else if stream[i + 1] != 0 then Source([], Marker(stream[i..]))
    else Prepend(BitsFrom(0xFF, MSB), UnstuffAt(stream, i + 2))
  }

  lemma {:induction false} UnstuffFromIndex(stream: seq<nat>, i: nat)
    requires i <= |stream|
    ensures UnstuffAt(stream, i) == Unstuff(stream[i..])
    decreases |stream| - i
  {
    if i < |stream| {
      var raw := stream[i..];
      assert raw[1..] == stream[i + 1..];
      if stream[i] != 0xFF {
        UnstuffFromIndex(stream, i + 1);
      } else if i + 1 < |stream| {
        assert raw[1..][1..] == stream[i + 2..];
        assert raw == [0xFF] + raw[1..];
        if stream[i + 1] == 0 { UnstuffFromIndex(stream, i + 2); }
      }
    }
  }

  /** Fewer than eight bits ahead of a marker: the marker is the next thing in the input. */
  lemma NearMarker(raw: seq<nat>)
    requires |Unstuff(raw).bits| < 8 && Unstuff(raw).stop.Marker?
    ensures Unstuff(raw).bits == []
    ensures raw == Unstuff(raw).stop.tail
  {
    if raw[0] == 0xFF {
      assert |raw| > 1;
      if raw[1] == 0 { EightBits(0xFF); } else { assert raw == [0xFF] + raw[1..]; }
    } else {
      EightBits(raw[0]);
    }
  }

  lemma EightBits(b: nat)
    ensures |BitsFrom(b, MSB)| == 8
  {
    assert |BitsFrom(b, 2)| == 2;
    assert |BitsFrom(b, 0x10)| == 5 by { assert |BitsFrom(b, 8)| == 4; }
  }

  function Prepend(bits: seq<bool>, s: Source): Source {
    Source(bits + s.bits, s.stop)
  }

  function Drop(s: Source, n: nat): Source
    requires n <= |s.bits|
  {
    Source(s.bits[n..], s.stop)
  }

  /** The unsigned value of a bit field, most significant bit first. */
  function Value(bits: seq<bool>): nat {
    if bits == [] then 0
    else 2 * Value(bits[..|bits| - 1]) + (if bits[|bits| - 1] then 1 else 0)
  }

  /** The `n` low bits of `v`, most significant bit first. */
  function BitsOf(v: nat, n: nat): (bits: seq<bool>)
    ensures |bits| == n
  {
    if n == 0 then [] else BitsOf(v / 2, n - 1) + [v % 2 == 1]
  }

  lemma {:induction false} ValueOfBits(v: nat, n: nat)
    requires v < Pow2(n)
    ensures Value(BitsOf(v, n)) == v
  {
    if n > 0 {
      ValueOfBits(v / 2, n - 1);
      var bits := BitsOf(v, n);
      assert bits[..n - 1] == BitsOf(v / 2, n - 1);
    }
  }

  lemma {:induction false} ValueBound(bits: seq<bool>)
    ensures Value(bits) < Pow2(|bits|)
  {
    if bits != [] {
      ValueBound(bits[..|bits| - 1]);
    }
  }

  lemma {:induction false} BitsOfValue(bits: seq<bool>)
    ensures BitsOf(Value(bits), |bits|) == bits
  {
    if bits != [] {
      BitsOfValue(bits[..|bits| - 1]);
    }
  }

  lemma {:induction false} ValueConcat(a: seq<bool>, b: seq<bool>)
    ensures Value(a + b) == Shl(Value(a), |b|) + Value(b)
  {
    if b == [] {
      assert a + b == a;
    } else {
      var b' := b[..|b| - 1];
      ValueConcat(a, b');
      assert (a + b)[..|a + b| - 1] == a + b';
    }
  }

  /** `c << n` on unbounded integers. */
  function Shl(c: nat, n: nat): nat {
    if n == 0 then c else 2 * Shl(c, n - 1)
  }

  lemma {:induction false} ShlOne(n: nat)
    ensures Shl(1, n) == Pow2(n)
  {
    if n > 0 { ShlOne(n - 1); }
  }

  lemma {:induction false} ShlAdd(a: nat, b: nat, n: nat)
    ensures Shl(a + b, n) == Shl(a, n) + Shl(b, n)
  {
    if n > 0 { ShlAdd(a, b, n - 1); }
  }

  lemma {:induction false} ShlShl(c: nat, m: nat, n: nat)
    ensures Shl(Shl(c, m), n) == Shl(c, m + n)
  {
    if n > 0 { ShlShl(c, m, n - 1); }
  }

  /** Shifting keeps the order, and keeps distinct numbers at least 2^n apart. */
  lemma {:induction false} ShlOrder(a: nat, b: nat, n: nat)
    ensures a <= b ==> Shl(a, n) <= Shl(b, n)
    ensures a < b ==> Shl(a, n) + Pow2(n) <= Shl(b, n)
  {
    if n > 0 { ShlOrder(a, b, n - 1); }
  }
}
