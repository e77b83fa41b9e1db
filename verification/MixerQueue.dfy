/** The queue of music buffers of the mixer, and the mixing step that reads from it
    (mixer_music_src_in, _out, _flush, _get_data, _get_data_len, the doubling of the microphone
    channel, mixer_mux_acoustics). */
module MixerQueue {
  import opened Machine
  import opened Sequences

  /** A queued buffer: its address, its bytes, and how many of them have been used. */
  datatype Source = Source(ptr: nat, data: seq<byte>, pos: nat)

  /** Queued buffers are never used up. */
  predicate Unused(ss: seq<Source>) {
    forall i :: 0 <= i < |ss| ==> ss[i].pos < |ss[i].data|
  }

  /** The bytes still to be taken. */
  function Pending(ss: seq<Source>): seq<byte>
    requires Unused(ss)
    decreases |ss|
  {
    if ss == [] then [] else ss[0].data[ss[0].pos..] + Pending(ss[1..])
  }

  function Ptrs(ss: seq<Source>): (ps: seq<nat>)
    ensures |ps| == |ss|
  {
    seq(|ss|, i requires 0 <= i < |ss| => ss[i].ptr)
  }

  /** What taking bytes does: the bytes, the buffers that remain, and those that are freed. */
  datatype Taken = Taken(bytes: seq<byte>, rest: seq<Source>, freed: seq<nat>)

  function Take(ss: seq<Source>, n: nat): (t: Taken)
    requires Unused(ss)
    ensures Unused(t.rest)
    decreases |ss|
  {
    if ss == [] || n == 0 then Taken([], ss, [])
    else
      var s := ss[0];
      var count := |s.data| - s.pos;
      if count > n then Taken(s.data[s.pos..s.pos + n], [s.(pos := s.pos + n)] + ss[1..], [])
      else
        var t := Take(ss[1..], n - count);
        Taken(s.data[s.pos..] + t.bytes, t.rest, [s.ptr] + t.freed)
  }

  /** One round of it: bytes of the first buffer, which is freed when it is used up. */
  function TakeOnce(ss: seq<Source>, n: nat): (t: Taken)
    requires Unused(ss) && ss != [] && n > 0
    ensures Unused(t.rest) && 0 < |t.bytes| <= n
  {
    var s := ss[0];
    var count := Min(n, |s.data| - s.pos);
    var piece := s.data[s.pos..s.pos + count];
    if s.pos + count == |s.data| then Taken(piece, ss[1..], [s.ptr]) else Taken(piece, [s.(pos := s.pos + count)] + ss[1..], [])
  }

  /** Bytes are taken in the order of arrival, as many as there are; a buffer is freed exactly when
      its last byte is taken. */
  lemma {:induction false} TakeTakesPrefix(ss: seq<Source>, n: nat)
    requires Unused(ss)
    ensures var t := Take(ss, n);
      && |t.bytes| == Min(n, |Pending(ss)|)
      && t.bytes + Pending(t.rest) == Pending(ss)
      && t.freed + Ptrs(t.rest) == Ptrs(ss)
    decreases |ss|
  {
    if ss != [] && n > 0 {
      var s := ss[0];
      var count := |s.data| - s.pos;
      if count > n {
        TakePart(s, ss[1..], n);
        PartPtrs(ss, s.(pos := s.pos + n));
      } else {
        TakeTakesPrefix(ss[1..], n - count);
        var t := Take(ss[1..], n - count);
        Assoc(s.data[s.pos..], t.bytes, Pending(t.rest));
        Assoc([s.ptr], t.freed, Ptrs(t.rest));
        assert Ptrs(ss) == [s.ptr] + Ptrs(ss[1..]);
      }
    }
  }

  lemma TakePart(s: Source, more: seq<Source>, n: nat)
    requires Unused(more) && n < |s.data| - s.pos
    ensures var u := s.(pos := s.pos + n);
      Unused([u] + more) && s.data[s.pos..s.pos + n] + Pending([u] + more) == s.data[s.pos..] + Pending(more)
  {
    var u := s.(pos := s.pos + n);
    HeadPending(u, more);
    SliceSplit(s.data, s.pos, n, Pending(more));
  }

  lemma SliceSplit(data: seq<byte>, pos: nat, n: nat, more: seq<byte>)
    requires pos + n <= |data|
    ensures data[pos..pos + n] + (data[pos + n..] + more) == data[pos..] + more
  {
  }

  lemma PartPtrs(ss: seq<Source>, u: Source)
    requires ss != [] && u.ptr == ss[0].ptr
    ensures Ptrs([u] + ss[1..]) == Ptrs(ss)
  {
  }

  lemma HeadPending(s: Source, rest: seq<Source>)
    requires Unused(rest) && s.pos < |s.data|
    ensures Unused([s] + rest) && Pending([s] + rest) == s.data[s.pos..] + Pending(rest)
  {
    assert ([s] + rest)[1..] == rest;
  }

  lemma {:induction false} PendingAppend(ss: seq<Source>, s: Source)
    requires Unused(ss) && s.pos < |s.data|
    ensures Unused(ss + [s]) && Pending(ss + [s]) == Pending(ss) + s.data[s.pos..]
    decreases |ss|
  {
    if ss == [] {
      HeadPending(s, []);
      assert [s] + [] == ss + [s] && s.data[s.pos..] + [] == s.data[s.pos..];
    } else {
      PendingAppend(ss[1..], s);
      HeadPending(ss[0], ss[1..]);
      HeadPending(ss[0], ss[1..] + [s]);
      Assoc(ss[0].data[ss[0].pos..], Pending(ss[1..]), s.data[s.pos..]);
      assert [ss[0]] + ss[1..] == ss && [ss[0]] + (ss[1..] + [s]) == ss + [s];
    }
  }

  // ----- runs -----

  /** What can happen to the queue: a buffer comes in (`mux`: music is being mixed, `room`: there is
      memory for its node), bytes are taken, everything is dropped. */
  datatype Op = In(ptr: nat, data: seq<byte>, mux: bool, room: bool) | Get(n: nat) | Drop

  /** The queue, the buffers handed in and given back since the start, and the bytes queued and taken
      since the last drop. */
  datatype Run = Run(ss: seq<Source>, given: seq<nat>, freed: seq<nat>, queued: seq<byte>, taken: seq<byte>)

  function Do(r: Run, op: Op): Run
    requires Unused(r.ss)
  {
    match op
    case In(ptr, data, mux, room) =>
      if data != [] && mux && room
      then r.(ss := r.ss + [Source(ptr, data, 0)], given := r.given + [ptr], queued := r.queued + data)
      else r.(given := r.given + [ptr], freed := r.freed + [ptr])
    case Get(n) =>
      var t := Take(r.ss, n);
      r.(ss := t.rest, freed := r.freed + t.freed, taken := r.taken + t.bytes)
    case Drop => r.(ss := [], freed := r.freed + Ptrs(r.ss), queued := [], taken := [])
  }

  /** Every buffer handed in is either queued or has been freed, once; the bytes taken, then those
      still queued, are the bytes that were queued, in order. */
  ghost predicate Good(r: Run) {
    && Unused(r.ss)
    && multiset(r.freed) + multiset(Ptrs(r.ss)) == multiset(r.given)
    && r.taken + Pending(r.ss) == r.queued
  }

  lemma InGood(r: Run, s: Source)
    requires Good(r) && s.data != [] && s.pos == 0
    ensures Good(r.(ss := r.ss + [s], given := r.given + [s.ptr], queued := r.queued + s.data))
  {
    PendingAppend(r.ss, s);
    assert s.data[0..] == s.data;
    Assoc(r.taken, Pending(r.ss), s.data);
    assert Ptrs(r.ss + [s]) == Ptrs(r.ss) + [s.ptr];
  }

  lemma GetGood(r: Run, t: Taken)
    requires Good(r) && Unused(t.rest)
    requires t.bytes + Pending(t.rest) == Pending(r.ss) && t.freed + Ptrs(t.rest) == Ptrs(r.ss)
    ensures Good(r.(ss := t.rest, freed := r.freed + t.freed, taken := r.taken + t.bytes))
  {
    Assoc(r.taken, t.bytes, Pending(t.rest));
    assert multiset(t.freed + Ptrs(t.rest)) == multiset(t.freed) + multiset(Ptrs(t.rest));
  }

  /** Every step keeps this, so every run from the empty queue does. */
  lemma DoGood(r: Run, op: Op)
    requires Good(r)
    ensures Good(Do(r, op))
  {
    match op
    case In(ptr, data, mux, room) =>
      if data != [] && mux && room { InGood(r, Source(ptr, data, 0)); }
    case Get(n) =>
      TakeTakesPrefix(r.ss, n);
      GetGood(r, Take(r.ss, n));
    case Drop =>
  }

  ghost function After(ops: seq<Op>): (r: Run)
    ensures Good(r)
    decreases |ops|
  {
    if ops == [] then Run([], [], [], [], [])
    else
      var r := After(ops[..|ops| - 1]);
      DoGood(r, ops[|ops| - 1]);
      Do(r, ops[|ops| - 1])
  }

  predicate Even(op: Op) {
    match op case In(_, data, _, _) => |data| % 2 == 0 case Get(n) => n % 2 == 0 case Drop => true
  }

  /** With buffers of even length, read in even pieces, an even number of bytes is always queued: the
      assertion in mixer_mux_acoustics that the expected length is even holds over every run. */
  lemma {:induction false} EvenStays(ops: seq<Op>)
    requires forall i :: 0 <= i < |ops| ==> Even(ops[i])
    ensures |Pending(After(ops).ss)| % 2 == 0
    decreases |ops|
  {
    if ops != [] {
      EvenStays(ops[..|ops| - 1]);
      EvenStep(After(ops[..|ops| - 1]), ops[|ops| - 1]);
    }
  }

  lemma EvenStep(r: Run, op: Op)
    requires Unused(r.ss) && |Pending(r.ss)| % 2 == 0 && Even(op)
    ensures Unused(Do(r, op).ss) && |Pending(Do(r, op).ss)| % 2 == 0
  {
    match op
    case In(ptr, data, mux, room) => if data != [] { PendingAppend(r.ss, Source(ptr, data, 0)); }
    case Get(n) => EvenTake(r.ss, n);
    case Drop =>
  }

  lemma EvenTake(ss: seq<Source>, n: nat)
    requires Unused(ss) && |Pending(ss)| % 2 == 0 && n % 2 == 0
    ensures |Pending(Take(ss, n).rest)| % 2 == 0
  {
    TakeTakesPrefix(ss, n);
    var t := Take(ss, n);
    assert |t.bytes| + |Pending(t.rest)| == |Pending(ss)|;
  }

  // ----- the doubling of the microphone channel -----

  /** The loop after `n` rounds: sample `i` of the source, which starts at place `src` of the same
      memory, goes to the places 2i and 2i + 1. */
  function Doubled(s: seq<int>, src: nat, n: nat): (t: seq<int>)
    requires 2 * n <= |s| && src + n <= |s|
    ensures |t| == |s|
    decreases n
  {
    if n == 0 then s
    else
      var t := Doubled(s, src, n - 1);
      t[2 * (n - 1) := t[src + n - 1]][2 * (n - 1) + 1 := t[src + n - 1]]
  }

  /** Every sample of the source, as it was, twice. */
  predicate IsDoubled(s: seq<int>, src: nat, n: nat, t: seq<int>)
    requires 2 * n <= |s| && src + n <= |s|
  {
    |t| == |s| && forall i :: 0 <= i < n ==> t[2 * i] == t[2 * i + 1] == s[src + i]
  }

  lemma {:induction false} DoubledInPlace(s: seq<int>, src: nat, n: nat)
    requires 2 * n <= |s| && src + n <= |s| && n <= src + 1
    ensures IsDoubled(s, src, n, Doubled(s, src, n))
    ensures forall k :: 2 * n <= k < |s| ==> Doubled(s, src, n)[k] == s[k]
    decreases n
  {
    if n > 0 { DoubledInPlace(s, src, n - 1); }
  }

  function Ramp(size: nat): (s: seq<int>)
    ensures |s| == size && forall i :: 0 <= i < size ==> s[i] == i
  {
    seq(size, i => i)
  }

  /** In place, the doubling is right for all contents exactly up to one sample more than the source
      is ahead. */
  lemma DoublingLimit(src: nat, n: nat, size: nat)
    requires 2 * n <= size && src + n <= size
    ensures (forall s: seq<int> :: |s| == size ==> IsDoubled(s, src, n, Doubled(s, src, n))) <==> n <= src + 1
  {
    if n <= src + 1 {
      forall s: seq<int> | |s| == size ensures IsDoubled(s, src, n, Doubled(s, src, n)) {
        DoubledInPlace(s, src, n);
      }
    } else {
      var s := Ramp(size);
      TooFar(s, src, n);
      assert |s| == size && !IsDoubled(s, src, n, Doubled(s, src, n));
    }
  }

  /** The round after the limit reads a sample that has been overwritten. */
  lemma TooFar(s: seq<int>, src: nat, n: nat)
    requires 2 * n <= |s| && src + n <= |s| && n > src + 1
    requires s[2 * src] != s[2 * src + 1]
    ensures !IsDoubled(s, src, n, Doubled(s, src, n))
  {
    var k := 2 * (src + 1);
    var before := Doubled(s, src, src + 1);
    DoubledInPlace(s, src, src + 1);
    assert before[2 * src] == before[2 * src + 1] == s[src + src];
    assert Doubled(s, src, src + 2)[k] == before[src + (src + 1)];
    LaterRoundsKeep(s, src, src + 2, n);
    assert Doubled(s, src, n)[k] == s[2 * src];
    assert src + 1 < n && Doubled(s, src, n)[2 * (src + 1)] != s[src + (src + 1)];
  }

  /** A round does not change the places of earlier ones. */
  lemma {:induction false} LaterRoundsKeep(s: seq<int>, src: nat, m: nat, n: nat)
    requires m <= n && 2 * n <= |s| && src + n <= |s|
    ensures forall k :: 0 <= k < 2 * m ==> Doubled(s, src, n)[k] == Doubled(s, src, m)[k]
    decreases n
  {
    if m < n { LaterRoundsKeep(s, src, m, n - 1); }
  }

  /** All of the `len` samples that the doubling is said to deliver are there: sample `i` is source
      sample `i / 2`. */
  predicate AllDoubled(s: seq<int>, src: nat, len: nat, t: seq<int>)
    requires src + (len + 1) / 2 <= |s|
  {
    |t| == |s| && len <= |t| && forall i :: 0 <= i < len ==> t[i] == s[src + i / 2]
  }

  /** The source of `len` bytes has `len / 2` samples: with an odd length, the last sample delivered is
      whatever was there before. */
  lemma StaleSample(s: seq<int>, src: nat, len: nat)
    requires len <= 2 * src && len <= |s| && src + (len + 1) / 2 <= |s|
    ensures len % 2 == 0 ==> AllDoubled(s, src, len, Doubled(s, src, len / 2))
    ensures len % 2 == 1 ==> Doubled(s, src, len / 2)[len - 1] == s[len - 1]
  {
    DoubledInPlace(s, src, len / 2);
    if len % 2 == 0 {
      var t := Doubled(s, src, len / 2);
      forall i | 0 <= i < len ensures t[i] == s[src + i / 2] {
        assert t[2 * (i / 2)] == t[2 * (i / 2) + 1] == s[src + i / 2];
      }
    }
  }

  /** What the doubling of `len` bytes does: every whole sample twice, and one stale sample if the length is odd. */
  predicate Padded(s: seq<int>, src: nat, len: nat, t: seq<int>) {
    && len <= 2 * src && len <= |s| && src + (len + 1) / 2 <= |s|
    && IsDoubled(s, src, len / 2, t)
    && (if len % 2 == 0 then AllDoubled(s, src, len, t) else t[len - 1] == s[len - 1])
  }

  lemma DoublingPads(s: seq<int>, src: nat, len: nat)
    requires len <= 2 * src && len <= |s| && src + (len + 1) / 2 <= |s|
    ensures Padded(s, src, len, Doubled(s, src, len / 2))
  {
    DoubledInPlace(s, src, len / 2);
    StaleSample(s, src, len);
  }

  lemma AllDoubledIffEven(src: nat, len: nat, size: nat)
    requires len <= 2 * src && len <= size && src + (len + 1) / 2 <= size
    ensures (forall s: seq<int> :: |s| == size ==> AllDoubled(s, src, len, Doubled(s, src, len / 2))) <==> len % 2 == 0
  {
    forall s: seq<int> | |s| == size && len % 2 == 0 ensures AllDoubled(s, src, len, Doubled(s, src, len / 2)) {
      StaleSample(s, src, len);
    }
    if len % 2 == 1 {
      var s := Ramp(size);
      StaleSample(s, src, len);
      assert Doubled(s, src, len / 2)[len - 1] != s[src + (len - 1) / 2];
    }
  }

  /** _mixer_single_channel_data_double_padding, on a buffer of 16-bit samples. */
  method DoublePadding(buf: array<int>, src: nat, len: nat) returns (r: nat)
    requires len / 2 * 2 <= buf.Length && src + len / 2 <= buf.Length
    modifies buf
    ensures r == len * 2 && buf[..] == Doubled(old(buf[..]), src, len / 2)
  {
    ghost var was := buf[..];
    for i := 0 to len / 2
      invariant buf[..] == Doubled(was, src, i)
    {
      ghost var t := buf[..];
      buf[2 * i] := buf[src + i];
      buf[2 * i + 1] := buf[src + i];
      assert buf[..] == t[2 * i := t[src + i]][2 * i + 1 := t[src + i]];
    }
    r := len * 2;
  }

  // ----- the queue -----

  class MusicNode {
    const buf: nat
    const data: seq<byte>
    var usePos: nat

    constructor (buf: nat, data: seq<byte>)
      ensures this.buf == buf && this.data == data && usePos == 0
    {
      this.buf, this.data, usePos := buf, data, 0;
    }

    ghost function Abs(): Source
      reads this
    {
      Source(buf, data, usePos)
    }
  }

  class Mixer {
    var list: seq<MusicNode>
    var isMuxSrc: bool
    /** The addresses given back to the memory pool. */
    var freed: seq<nat>

    constructor (isMuxSrc: bool)
      ensures Valid() && Abs() == [] && freed == []
    {
      list, freed, this.isMuxSrc := [], [], isMuxSrc;
    }

    ghost function Abs(): (ss: seq<Source>)
      reads this, list
      ensures |ss| == |list|
    {
      AbsOf(list)
    }

    ghost predicate Valid()
      reads this, list
    {
      Unused(Abs()) && forall i, j :: 0 <= i < j < |list| ==> list[i] != list[j]
    }

    /** mixer_music_src_in: a buffer that cannot be queued is freed at once. `got` says whether there
        was memory for a node. */
    method SrcIn(buf: nat, data: seq<byte>, got: bool) returns (ok: bool)
      requires Valid()
      modifies this`list, this`freed
      ensures Valid()
      ensures var queued := data != [] && isMuxSrc && got;
        && ok == (data == [] || !isMuxSrc || got)
        && (if queued then Abs() == old(Abs()) + [Source(buf, data, 0)] && freed == old(freed)
            else Abs() == old(Abs()) && freed == old(freed) + [buf])
    {
      if data == [] || !isMuxSrc {
        freed := freed + [buf];
        return true;
      }
      if !got {
        freed := freed + [buf];
        return false;
      }
      var node := new MusicNode(buf, data);
      list := list + [node];
      assert AbsOf(list) == old(Abs()) + [Source(buf, data, 0)];
      ok := true;
    }

    /** mixer_music_src_out, for the first node. */
    method SrcOut(node: MusicNode, i: nat)
      requires Valid() && i < |list| && node == list[i]
      modifies this`list, this`freed
      ensures Valid() && list == old(list)[..i] + old(list)[i + 1..] && Abs() == old(Abs())[..i] + old(Abs())[i + 1..]
      ensures freed == old(freed) + [node.buf]
    {
      list := list[..i] + list[i + 1..];
      freed := freed + [node.buf];
      assert AbsOf(list) == old(Abs())[..i] + old(Abs())[i + 1..];
    }

    /** mixer_music_src_flush: every buffer is freed, once, in order. */
    method Flush()
      requires Valid()
      modifies this`list, this`freed
      ensures Valid() && Abs() == [] && freed == old(freed) + Ptrs(old(Abs()))
    {
      ghost var all, before := Abs(), freed;
      var todo := list;
      for i := 0 to |todo|
        invariant Valid() && list == todo[i..] && Abs() == all[i..]
        invariant freed == before + Ptrs(all)[..i]
      {
        SrcOut(todo[i], 0);
        assert todo[i..][..0] + todo[i..][1..] == todo[i + 1..] && all[i..][..0] + all[i..][1..] == all[i + 1..];
      }
      assert Ptrs(all)[..|all|] == Ptrs(all);
    }

    /** mixer_music_src_get_data_len */
    method GetDataLen() returns (length: nat)
      requires Valid()
      ensures length == |Pending(Abs())|
    {
      length := 0;
      ghost var all := Abs();
      assert all[0..] == all;
      for i := 0 to |list|
        invariant all == Abs() && length + |Pending(all[i..])| == |Pending(all)|
      {
        assert all[i..][0] == all[i] && all[i..][1..] == all[i + 1..];
        length := length + (|list[i].data| - list[i].usePos);
      }
      assert all[|list|..] == [];
    }

    /** memcpy to the buffer. */
    method Copy(buf: array<byte>, at: nat, src: seq<byte>)
      requires at + |src| <= buf.Length
      modifies buf
      ensures buf[..] == Patched(old(buf[..]), at, src)
    {
      forall i | 0 <= i < |src| { buf[at + i] := src[i]; }
      assert buf[..] == Patched(old(buf[..]), at, src);
    }

    /** One round of mixer_music_src_get_data: bytes of the first node, which goes when it is used up. */
    method TakeRound(buf: array<byte>, at: nat, want: nat) returns (count: nat)
      requires Valid() && list != [] && want > 0 && at + want <= buf.Length
      modifies this`list, this`freed, list[0], buf
      ensures Valid()
      ensures var o := TakeOnce(old(Abs()), want);
        && count == |o.bytes| && buf[..] == Patched(old(buf[..]), at, o.bytes)
        && Abs() == o.rest && freed == old(freed) + o.freed
      ensures list == old(list)[1..] || (list == old(list) && count == want)
    {
      var node := list[0];
      assert Abs()[0] == node.Abs();
      var left := |node.data| - node.usePos;
      count := if left >= want then want else left;
      Copy(buf, at, node.data[node.usePos..node.usePos + count]);
      PassBy(node, count, want);
    }

    /** The position moves past what has been copied; a buffer that is used up goes. */
    method PassBy(node: MusicNode, count: nat, ghost want: nat)
      requires Valid() && list != [] && node == list[0] && want > 0 && count == Min(want, |node.data| - node.usePos)
      modifies this`list, this`freed, node
      ensures Valid()
      ensures var o := TakeOnce(old(Abs()), want);
        Abs() == o.rest && freed == old(freed) + o.freed
      ensures list == old(list)[1..] || (list == old(list) && count == want)
    {
      ghost var s, ss := Abs()[0], Abs();
      assert s == node.Abs() && freed + [] == freed;
      node.usePos := node.usePos + count;
      assert AbsOf(list)[1..] == ss[1..];
      if |node.data| == node.usePos {
        list := list[1..];
        freed := freed + [node.buf];
        assert AbsOf(list) == ss[1..];
      } else {
        assert AbsOf(list) == [s.(pos := s.pos + count)] + ss[1..];
      }
    }

    method GetRound(buf: array<byte>, at: nat, expected: nat, ghost was: seq<byte>, ghost bytes0: seq<byte>,
                    ghost gone0: seq<nat>, ghost before: seq<nat>)
      returns (length: nat, ghost bytes: seq<byte>, ghost gone: seq<nat>)
      requires Valid() && list != [] && |bytes0| == at < expected <= buf.Length == |was|
      requires freed == before + gone0 && buf[..] == Patched(was, 0, bytes0)
      modifies this`list, this`freed, list[0], buf
      ensures Valid() && |bytes| == length <= expected && freed == before + gone && buf[..] == Patched(was, 0, bytes)
      ensures list == old(list) || list == old(list)[1..]
      ensures list == old(list) ==> length > at
      ensures Then(bytes0, gone0, Take(old(Abs()), expected - at)) == Then(bytes, gone, Take(Abs(), expected - length))
    {
      ghost var ss := Abs();
      ghost var o := TakeOnce(ss, expected - at);
      var count := TakeRound(buf, at, expected - at);
      length, bytes, gone := at + count, bytes0 + o.bytes, gone0 + o.freed;
      PatchedTwice(was, 0, bytes0, o.bytes);
      Assoc(before, gone0, o.freed);
      TakeStep(ss, expected - at, bytes0, gone0);
    }

    /** mixer_music_src_get_data: bytes in the order of arrival; what is used up is freed. */
    method GetData(buf: array<byte>, expected: nat) returns (length: nat)
      requires Valid() && expected <= buf.Length
      modifies this`list, this`freed, list, buf
      ensures Valid()
      ensures var t := Take(old(Abs()), expected);
        && length == |t.bytes| && Abs() == t.rest && freed == old(freed) + t.freed
        && length <= buf.Length && buf[..] == Patched(old(buf[..]), 0, t.bytes)
    {
      ghost var was, goal, before := buf[..], Take(Abs(), expected), freed;
      ghost var bytes: seq<byte>, gone: seq<nat> := [], [];
      length := 0;
      Nothing(was, before, goal);
      while list != [] && length < expected
        invariant Valid() && |bytes| == length <= expected && (forall n :: n in list ==> n in old(list))
        invariant freed == before + gone && buf[..] == Patched(was, 0, bytes)
        invariant goal == Then(bytes, gone, Take(Abs(), expected - length))
        decreases |list|, expected - length
      {
        assert list[0] in list;
        length, bytes, gone := GetRound(buf, length, expected, was, bytes, gone, before);
      }
      assert Then(bytes, gone, Take(Abs(), expected - length)) == Taken(bytes, Abs(), gone);
    }
  }

  /** How a mixing step ends: without memory, with nothing to play, at the assertion that rejects an odd
      length, or with that many bytes to play. */
  datatype Mixing = NoMemory | Idle | OddLength | Play(bytes: nat)

  /** mixer_mux_acoustics, up to the mixing itself (`got`: there are two free blocks): microphone samples
      are read to the middle of a block and doubled, and as many bytes of music are taken. */
  method MuxAcoustics(m: Mixer, blkSize: nat, got: bool, adc: nat -> nat, outside: array<int>, inside: array<byte>)
    returns (r: Mixing)
    requires m.Valid() && blkSize % 4 == 0 && 2 * outside.Length == blkSize == inside.Length
    requires forall n :: adc(n) <= n
    modifies m`list, m`freed, m.list, outside, inside
    ensures m.Valid()
    ensures var expected := Min(|Pending(old(m.Abs()))|, blkSize);
      && (r.NoMemory? <==> !got)
      && (r.Idle? <==> got && expected == 0)
      && (r.OddLength? <==> got && expected % 2 == 1)
      && (r.Play? ==>
            && r.bytes == 2 * adc(expected / 2) <= inside.Length && r.bytes <= |Pending(old(m.Abs()))|
            && inside[..r.bytes] == Pending(old(m.Abs()))[..r.bytes]
            && Padded(old(outside[..]), blkSize / 4, adc(expected / 2), outside[..]))
    ensures var t := Take(old(m.Abs()), if r.Play? then r.bytes else 0);
      m.Abs() == t.rest && m.freed == old(m.freed) + t.freed
    ensures !r.Play? ==> outside[..] == old(outside[..])
  {
    if !got { return NoMemory; }
    var length := m.GetDataLen();
    var expected := Min(length, blkSize);
    if expected == 0 { return Idle; }
    if expected % 2 == 1 { return OddLength; }
    var readBytes: nat := adc(expected / 2);
    DoublingPads(outside[..], blkSize / 4, readBytes);
    readBytes := DoublePadding(outside, blkSize / 4, readBytes);
    ghost var ss := m.Abs();
    TakeTakesPrefix(ss, readBytes);
    var insideLen := m.GetData(inside, readBytes);
    assert insideLen == readBytes;
    assert inside[..readBytes] == Take(ss, readBytes).bytes;
    r := Play(insideLen);
  }

  function Then(bytes: seq<byte>, gone: seq<nat>, t: Taken): Taken {
    Taken(bytes + t.bytes, t.rest, gone + t.freed)
  }

  lemma Nothing(was: seq<byte>, before: seq<nat>, t: Taken)
    ensures Patched(was, 0, []) == was && before + [] == before && Then([], [], t) == t
  {
  }

  lemma TakeStep(ss: seq<Source>, n: nat, bytes: seq<byte>, gone: seq<nat>)
    requires Unused(ss) && ss != [] && n > 0
    ensures var o := TakeOnce(ss, n);
      Then(bytes, gone, Take(ss, n)) == Then(bytes + o.bytes, gone + o.freed, Take(o.rest, n - |o.bytes|))
  {
    var o := TakeOnce(ss, n);
    var t := Take(o.rest, n - |o.bytes|);
    Assoc(bytes, o.bytes, t.bytes);
    Assoc(gone, o.freed, t.freed);
    assert o.bytes + [] == o.bytes && o.freed + [] == o.freed;
  }

  ghost function AbsOf(ns: seq<MusicNode>): (ss: seq<Source>)
    reads ns
    ensures |ss| == |ns|
  {
    seq(|ns|, i requires 0 <= i < |ns| reads ns => ns[i].Abs())
  }
}
