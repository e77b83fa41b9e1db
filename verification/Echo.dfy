/** The echo of the sound mixer: a circular buffer of samples, walked downwards, that realises a delay
    line with feedback (sdly_config, sdly_start_play, sdly_mixer_single_playing, _multi_playing). */
module Echo {
  import opened Machine

  /** Size of the buffer, and what is used of it at 8 kHz. */
  const MAX_FIFO: nat := 8641
  const MAX_FIFO_8K: nat := 1441
  const ONE_S: nat := 1000

  /** sdly_low_pass_filter: saturation to 16 bits. */
  function Clip(x: int): int {
    if x > 32767 then 32767 else if x < -32768 then -32768 else x
  }

  predicate Sample(x: int) {
    -32768 <= x <= 32767
  }

  /** A sample of the left and of the right channel. */
  datatype Frame = Frame(left: int, right: int)

  // ----- the recurrence -----

  /** What is fed into the line at time `n`: half of what comes out of it, plus the right channel. */
  function Fed(right: seq<int>, delay: nat, n: nat): int
    requires n < |right| && delay > 0
    decreases n
  {
    Clip((if n >= delay then Fed(right, delay, n - delay) else 0) / 2 + right[n])
  }

  /** What comes out of the line at time `n`. */
  function Tap(right: seq<int>, delay: nat, n: nat): int
    requires n <= |right| && delay > 0
  {
    if n >= delay then Fed(right, delay, n - delay) else 0
  }

  /** The microphone with its echo, at the given volume (in sixteenths). */
  function Loud(tap: int, left: int, vol: nat): int {
    Clip((tap + left) * vol / 16)
  }

  /** What the driver makes of them: the product has 32 bits. */
  function Heard(tap: int, left: int, vol: nat): int {
    Clip(I32((tap + left) * vol) / 16)
  }

  function Rights(fs: seq<Frame>): (r: seq<int>)
    ensures |r| == |fs|
  {
    seq(|fs|, i requires 0 <= i < |fs| => fs[i].right)
  }

  // ----- the circular buffer -----

  /** The buffer, the place of the next sample, the highest place in use, and the microphone volume. */
  datatype Line = Line(fifo: seq<int>, op: nat, len: nat, vol: nat, playing: bool)

  predicate Valid(s: Line) {
    |s.fifo| == MAX_FIFO && s.op <= s.len < MAX_FIFO
  }

  datatype Step = Step(s: Line, out: int)

  function Play(s: Line, f: Frame): (r: Step)
    requires Valid(s)
    ensures Valid(r.s) && r.s.len == s.len && r.s.vol == s.vol && r.s.playing == s.playing
  {
    var tap := s.fifo[s.op];
    var mix := Clip((if s.playing then tap / 2 else 0) + f.right);
    var out := Heard(tap, f.left, s.vol);
    if s.playing
    then Step(s.(fifo := s.fifo[s.op := mix], op := if s.op == 0 then s.len else s.op - 1), out)
    else Step(s, out)
  }

  datatype Played = Played(s: Line, outs: seq<int>)

  function PlayAll(s: Line, fs: seq<Frame>): (r: Played)
    requires Valid(s)
    ensures Valid(r.s) && |r.outs| == |fs| && r.s.len == s.len && r.s.vol == s.vol && r.s.playing == s.playing
    decreases |fs|
  {
    if fs == [] then Played(s, [])
    else
      var p := PlayAll(s, fs[..|fs| - 1]);
      var t := Play(p.s, fs[|fs| - 1]);
      Played(t.s, p.outs + [t.out])
  }

  /** A stream can be processed in any parts. */
  lemma {:induction false} PlayInParts(s: Line, a: seq<Frame>, b: seq<Frame>)
    requires Valid(s)
    ensures var (p, q) := (PlayAll(s, a), PlayAll(PlayAll(s, a).s, b));
      PlayAll(s, a + b) == Played(q.s, p.outs + q.outs)
    decreases |b|
  {
    if b == [] {
      assert a + b == a;
      assert PlayAll(s, a).outs + [] == PlayAll(s, a).outs;
    } else {
      var c := b[..|b| - 1];
      assert (a + b)[..|a + b| - 1] == a + c && (a + b)[|a + b| - 1] == b[|b| - 1];
      PlayInParts(s, a, c);
      var q := PlayAll(PlayAll(s, a).s, c);
      var t := Play(q.s, b[|b| - 1]);
      assert PlayAll(s, a).outs + q.outs + [t.out] == PlayAll(s, a).outs + (q.outs + [t.out]);
    }
  }

  /** The place that is reached `j` samples from now. */
  function Slot(s: Line, j: nat): int {
    if j <= s.op then s.op - j else s.op - j + s.len + 1
  }

  /** After `n` samples, the buffer holds the last samples fed in, the oldest at the current place. */
  ghost predicate Holds(s: Line, right: seq<int>, n: nat)
    requires Valid(s) && n <= |right|
  {
    forall j: nat {:trigger Slot(s, j)} :: j <= s.len ==> s.fifo[Slot(s, j)] == Past(right, s.len + 1, n, j)
  }

  /** The sample fed in `delay - j` samples before time `n`; silence before the start. */
  function Past(right: seq<int>, delay: nat, n: nat, j: nat): int
    requires n <= |right| && j < delay
  {
    if n + j >= delay then Fed(right, delay, n + j - delay) else 0
  }

  lemma PlayHolds(s: Line, right: seq<int>, n: nat, f: Frame)
    requires Valid(s) && s.playing && n < |right| && right[n] == f.right && Holds(s, right, n)
    ensures Holds(Play(s, f).s, right, n + 1)
    ensures s.fifo[s.op] == Tap(right, s.len + 1, n)
  {
    var t := Play(s, f).s;
    assert Slot(s, 0) == s.op && s.fifo[s.op] == Past(right, s.len + 1, n, 0);
    forall j: nat {:trigger Slot(t, j)} | j <= t.len ensures t.fifo[Slot(t, j)] == Past(right, t.len + 1, n + 1, j) {
      if j < s.len {
        assert Slot(t, j) == Slot(s, j + 1);
        assert s.fifo[Slot(s, j + 1)] == Past(right, s.len + 1, n, j + 1);
      } else {
        assert Slot(t, j) == s.op;
      }
    }
  }

  /** The line as sdly_start_play leaves it. */
  predicate Silent(s: Line) {
    Valid(s) && s.playing && forall i :: 0 <= i <= s.len ==> s.fifo[i] == 0
  }

  /** The volumes for which the product always fits 32 bits. */
  lemma ProductFits(vol: nat)
    ensures (forall tap, left :: Sample(tap) && Sample(left) ==> I32((tap + left) * vol) == (tap + left) * vol) <==> vol <= 32768
  {
    if vol <= 32768 {
      forall tap, left | Sample(tap) && Sample(left) ensures I32((tap + left) * vol) == (tap + left) * vol {
        ProductRange(tap + left, vol);
      }
    } else {
      assert Sample(-32768) && (-32768 + -32768) * vol < -0x8000_0000;
    }
  }

  lemma ProductRange(x: int, vol: nat)
    requires -65536 <= x <= 65534 && vol <= 32768
    ensures -0x8000_0000 <= x * vol < 0x8000_0000
  {
    if x >= 0 {
      MulMono(x, 32768, vol);
    } else {
      MulMono(-x, 32768, vol);
    }
  }

  lemma FedIsSample(right: seq<int>, delay: nat, n: nat)
    requires n < |right| && delay > 0
    ensures Sample(Fed(right, delay, n))
  {
  }

  predicate Samples(fs: seq<Frame>) {
    forall i :: 0 <= i < |fs| ==> Sample(fs[i].left) && Sample(fs[i].right)
  }

  lemma PlayAllNext(s: Line, fs: seq<Frame>, n: nat)
    requires Valid(s) && n < |fs|
    ensures var (p, q) := (PlayAll(s, fs[..n]), PlayAll(s, fs[..n + 1]));
      q == Played(Play(p.s, fs[n]).s, p.outs + [Play(p.s, fs[n]).out])
  {
    assert fs[..n + 1][..n] == fs[..n];
  }

  /** After `n` frames, the line holds the samples of the recurrence and the outputs are made from it. */
  ghost predicate SoFar(s: Line, fs: seq<Frame>, n: nat, p: Played) {
    && n <= |fs| && Valid(p.s) && p.s.len == s.len && p.s.vol == s.vol && p.s.playing
    && Holds(p.s, Rights(fs), n)
    && |p.outs| == n && forall i :: 0 <= i < n ==> p.outs[i] == Heard(Tap(Rights(fs), s.len + 1, i), fs[i].left, s.vol)
  }

  lemma SoFarNext(s: Line, fs: seq<Frame>, n: nat, p: Played)
    requires SoFar(s, fs, n, p) && n < |fs|
    ensures SoFar(s, fs, n + 1, Played(Play(p.s, fs[n]).s, p.outs + [Play(p.s, fs[n]).out]))
  {
    PlayHolds(p.s, Rights(fs), n, fs[n]);
  }

  /** From the start of playing, every output is made from the recurrence with a delay of `len + 1`, for
      any volume. */
  lemma {:induction false} EchoLaw(s: Line, fs: seq<Frame>, n: nat)
    requires Silent(s) && n <= |fs|
    ensures SoFar(s, fs, n, PlayAll(s, fs[..n]))
    decreases n
  {
    if n > 0 {
      EchoLaw(s, fs, n - 1);
      PlayAllNext(s, fs, n - 1);
      SoFarNext(s, fs, n - 1, PlayAll(s, fs[..n - 1]));
    }
  }

  /** These outputs are made from the recurrence: by the driver, or as they should be. */
  ghost predicate Sounds(outs: seq<int>, fs: seq<Frame>, delay: nat, vol: nat)
    requires delay > 0
  {
    |outs| == |fs| && forall i :: 0 <= i < |fs| ==> outs[i] == Heard(Tap(Rights(fs), delay, i), fs[i].left, vol)
  }

  ghost predicate Echoes(outs: seq<int>, fs: seq<Frame>, delay: nat, vol: nat)
    requires delay > 0
  {
    |outs| == |fs| && forall i :: 0 <= i < |fs| ==> outs[i] == Loud(Tap(Rights(fs), delay, i), fs[i].left, vol)
  }

  /** However a stream is cut into two buffers, its outputs are made from the recurrence. */
  lemma EchoInParts(s: Line, a: seq<Frame>, b: seq<Frame>)
    requires Silent(s)
    ensures Sounds(PlayAll(s, a).outs + PlayAll(PlayAll(s, a).s, b).outs, a + b, s.len + 1, s.vol)
  {
    EchoLaw(s, a + b, |a + b|);
    assert (a + b)[..|a + b|] == a + b;
    PlayInParts(s, a, b);
  }

  lemma QuietEchoes(s: Line, fs: seq<Frame>)
    requires Silent(s) && s.vol <= 32768 && Samples(fs)
    ensures Echoes(PlayAll(s, fs).outs, fs, s.len + 1, s.vol)
  {
    EchoLaw(s, fs, |fs|);
    assert fs[..|fs|] == fs;
    forall i | 0 <= i < |fs|
      ensures Heard(Tap(Rights(fs), s.len + 1, i), fs[i].left, s.vol) == Loud(Tap(Rights(fs), s.len + 1, i), fs[i].left, s.vol)
    {
      if i >= s.len + 1 { FedIsSample(Rights(fs), s.len + 1, i - (s.len + 1)); }
      ProductRange(Tap(Rights(fs), s.len + 1, i) + fs[i].left, s.vol);
    }
  }

  /** The outputs are those of the recurrence for every stream exactly for volumes up to 32768. */
  lemma EchoesUpTo(s: Line)
    requires Silent(s) && s.vol < TWO16
    ensures (forall fs: seq<Frame> :: Samples(fs) ==> Echoes(PlayAll(s, fs).outs, fs, s.len + 1, s.vol)) <==> s.vol <= 32768
  {
    if s.vol <= 32768 {
      forall fs: seq<Frame> | Samples(fs) ensures Echoes(PlayAll(s, fs).outs, fs, s.len + 1, s.vol) {
        QuietEchoes(s, fs);
      }
    } else {
      TooLoud(s);
      assert !Echoes(PlayAll(s, Lowest(s.len + 2)).outs, Lowest(s.len + 2), s.len + 1, s.vol);
    }
  }

  /** The lowest sample on both channels. */
  function Lowest(n: nat): (fs: seq<Frame>)
    ensures |fs| == n && Samples(fs) && forall i :: 0 <= i < n ==> fs[i] == Frame(-32768, -32768)
  {
    seq(n, _ => Frame(-32768, -32768))
  }

  /** When the lowest sample comes back with the lowest microphone sample, the product wraps. */
  lemma TooLoud(s: Line)
    requires Silent(s) && 32768 < s.vol < TWO16
    ensures var (fs, n) := (Lowest(s.len + 2), s.len + 1);
      PlayAll(s, fs).outs[n] >= 0 > Loud(Tap(Rights(fs), s.len + 1, n), fs[n].left, s.vol)
  {
    var fs, n := Lowest(s.len + 2), s.len + 1;
    EchoLaw(s, fs, |fs|);
    assert fs[..|fs|] == fs;
    assert Tap(Rights(fs), n, n) == Fed(Rights(fs), n, 0) == -32768;
    WrapsUp(s.vol);
  }

  lemma WrapsUp(vol: nat)
    requires 32768 < vol < TWO16
    ensures Heard(-32768, -32768, vol) >= 0 > Loud(-32768, -32768, vol)
  {
  }

  // ----- the two-channel mix -----

  /** The echo mixed into a frame of music. */
  function Mixed(music: Frame, echo: int, pcm: nat): Frame {
    Frame(Clip(I32(music.left * pcm) / 16 + echo), Clip(I32(music.right * pcm) / 16 + echo))
  }

  /** The product of a sample and a 16-bit volume always fits. */
  lemma MusicFits(x: int, pcm: nat)
    requires Sample(x) && pcm < TWO16
    ensures I32(x * pcm) == x * pcm
  {
    if x >= 0 {
      MulMono(x, 65535, pcm);
    } else {
      MulMono(-x, 65535, pcm);
    }
  }

  /** A music sample has a sixteenth of its product with the volume, rounded down, and the echo added to
      it, saturated; on either channel. */
  lemma MixedIs(music: Frame, echo: int, pcm: nat) returns (l: int, r: int)
    requires Sample(music.left) && Sample(music.right) && pcm < TWO16
    ensures 16 * l <= music.left * pcm < 16 * l + 16 && 16 * r <= music.right * pcm < 16 * r + 16
    ensures Mixed(music, echo, pcm) == Frame(Clip(l + echo), Clip(r + echo))
  {
    MusicFits(music.left, pcm);
    MusicFits(music.right, pcm);
    l, r := music.left * pcm / 16, music.right * pcm / 16;
  }

  /** The recurrence: half of what was fed in one delay before, rounded down, and the right channel. */
  lemma FedIs(right: seq<int>, delay: nat, n: nat) returns (h: int)
    requires n < |right| && delay > 0
    ensures Fed(right, delay, n) == Clip(h + right[n])
    ensures if n < delay then h == 0 else 2 * h <= Fed(right, delay, n - delay) < 2 * h + 2
  {
    h := if n < delay then 0 else Fed(right, delay, n - delay) / 2;
  }

  /** The microphone with its echo, a sixteenth of the product rounded down, saturated. */
  lemma LoudIs(tap: int, left: int, vol: nat) returns (v: int)
    ensures 16 * v <= (tap + left) * vol < 16 * v + 16 && Loud(tap, left, vol) == Clip(v)
  {
    v := (tap + left) * vol / 16;
  }

  // ----- the loop counter -----

  /** A 16-bit counter after `n` steps of two. */
  function Counter(n: nat): int {
    if n == 0 then 0 else I16(Counter(n - 1) + 2)
  }

  lemma {:induction false} CounterEven(n: nat)
    ensures Counter(n) % 2 == 0 && -32768 <= Counter(n) <= 32766
  {
    if n > 0 { CounterEven(n - 1); }
  }

  lemma {:induction false} CounterExact(n: nat)
    requires 2 * n <= 32766
    ensures Counter(n) == 2 * n
  {
    if n > 0 { CounterExact(n - 1); }
  }

  /** The sample loop ends for every length but 32767 (65534 or 65535 bytes). */
  lemma LoopEnds(len: nat)
    requires len <= 32767
    ensures (exists n: nat :: Counter(n) >= len) <==> len <= 32766
  {
    if len <= 32766 {
      CounterExact((len + 1) / 2);
      assert Counter((len + 1) / 2) >= len;
    } else {
      forall n: nat ensures Counter(n) < len { CounterEven(n); }
    }
  }

  // ----- the driver -----

  /** The frames of an interleaved buffer; a last half frame takes one sample after the given length. */
  function FramesOf(s: seq<int>, n: nat): (fs: seq<Frame>)
    requires 2 * n <= |s|
    ensures |fs| == n
  {
    seq(n, i requires 0 <= i < n => Frame(s[2 * i], s[2 * i + 1]))
  }

  /** The samples `now` begin with the frames `fs`; the others are as they were. */
  predicate Begun(was: seq<int>, now: seq<int>, fs: seq<Frame>) {
    && |now| == |was| && 2 * |fs| <= |now|
    && FramesOf(now, |fs|) == fs && now[2 * |fs|..] == was[2 * |fs|..]
  }

  lemma BegunMore(was: seq<int>, now: seq<int>, fs: seq<Frame>, f: Frame)
    requires Begun(was, now, fs) && 2 * |fs| + 2 <= |now|
    ensures Begun(was, now[2 * |fs| := f.left][2 * |fs| + 1 := f.right], fs + [f])
  {
    var next := now[2 * |fs| := f.left][2 * |fs| + 1 := f.right];
    assert forall k :: 0 <= k < |fs| ==> FramesOf(now, |fs|)[k] == Frame(now[2 * k], now[2 * k + 1]) == fs[k];
    assert next[2 * |fs| + 2..] == now[2 * |fs|..][2..];
  }

  /** The same output on both channels. */
  function Both(outs: seq<int>): (fs: seq<Frame>)
    ensures |fs| == |outs| && forall k :: 0 <= k < |fs| ==> fs[k] == Frame(outs[k], outs[k])
  {
    seq(|outs|, k requires 0 <= k < |outs| => Frame(outs[k], outs[k]))
  }

  /** The outputs mixed into the music. */
  function MixedAll(music: seq<Frame>, outs: seq<int>, pcm: nat): (fs: seq<Frame>)
    requires |outs| <= |music|
    ensures |fs| == |outs| && forall k :: 0 <= k < |fs| ==> fs[k] == Mixed(music[k], outs[k], pcm)
  {
    seq(|outs|, k requires 0 <= k < |outs| => Mixed(music[k], outs[k], pcm))
  }

  lemma MixedMore(music: seq<Frame>, outs: seq<int>, echo: int, pcm: nat)
    requires |outs| < |music|
    ensures MixedAll(music, outs + [echo], pcm) == MixedAll(music, outs, pcm) + [Mixed(music[|outs|], echo, pcm)]
  {
  }

  class SoundDelay {
    const fifo: array<int>
    var op: nat
    var sampleLen: nat
    var started: bool
    var micphoneVol: nat
    var pcmVol: nat

    constructor ()
      ensures Invariant() && fresh(fifo)
    {
      fifo := new int[MAX_FIFO](_ => 0);
      op, sampleLen, started, micphoneVol, pcmVol := 0, 0, false, 50, 30;
    }

    ghost predicate Invariant()
      reads this, fifo
    {
      Valid(Abs())
    }

    ghost function Abs(): Line
      reads this, fifo
    {
      Line(fifo[..], op, sampleLen, micphoneVol, started)
    }

    /** sdly_config: 180 ms at 8 kHz or at 44.1 kHz. */
    method Config(freq: nat)
      requires Invariant()
      modifies this, fifo
      ensures Invariant() && op == sampleLen && !started
      ensures sampleLen == if freq == 8000 then 1440 else 7938
      ensures forall i :: 0 <= i <= sampleLen ==> fifo[i] == 0
      ensures micphoneVol == old(micphoneVol) && pcmVol == old(pcmVol)
    {
      if freq == 8000 {
        forall i | 0 <= i < MAX_FIFO_8K { fifo[i] := 0; }
        var sampleTime := (MAX_FIFO_8K - 1) * ONE_S / 8000;
        sampleLen := 8000 * sampleTime / ONE_S;
      } else {
        forall i | 0 <= i < MAX_FIFO { fifo[i] := 0; }
        var sampleTime := (MAX_FIFO - 1) * ONE_S / 48000;
        sampleLen := 44100 * sampleTime / ONE_S;
      }
      op, started := sampleLen, false;
    }

    /** sdly_start_play */
    method StartPlay()
      requires Invariant()
      modifies this, fifo
      ensures Silent(Abs()) && op == sampleLen == old(sampleLen)
      ensures micphoneVol == old(micphoneVol) && pcmVol == old(pcmVol)
    {
      forall i | 0 <= i < sampleLen + 1 { fifo[i] := 0; }
      op, started := sampleLen, true;
    }

    /** One frame of either loop: the echo, and the feedback when playing. */
    method OneFrame(left: int, right: int) returns (temp: int)
      requires Invariant()
      modifies this, fifo
      ensures Invariant() && Abs() == Play(old(Abs()), Frame(left, right)).s && pcmVol == old(pcmVol)
      ensures temp == Play(old(Abs()), Frame(left, right)).out
    {
      var mix := 0;
      if started { mix := fifo[op] / 2; }
      mix := Clip(mix + right);
      temp := Clip(I32((fifo[op] + left) * micphoneVol) / 16);
      if started {
        fifo[op] := mix;
        op := if op == 0 then sampleLen else op - 1;
      }
    }

    /** A frame is stored in place. */
    method PutFrame(a: array<int>, i: nat, f: Frame, ghost was: seq<int>, ghost done: seq<Frame>)
      requires i == 2 * |done| && i + 2 <= a.Length && Begun(was, a[..], done)
      modifies a
      ensures Begun(was, a[..], done + [f])
    {
      BegunMore(was, a[..], done, f);
      a[i], a[i + 1] := f.left, f.right;
    }

    /** One round: a frame of the buffer becomes its output on both channels. */
    method SingleRound(sample: array<int>, i: nat, ghost s: Line, ghost fs: seq<Frame>, ghost was: seq<int>, ghost n: nat)
      returns (ghost p': Played)
      requires sample != fifo && i == 2 * n && n < |fs| && i + 2 <= sample.Length && |was| == sample.Length
      requires fs[n] == Frame(was[i], was[i + 1])
      requires Valid(s) && Invariant() && Abs() == PlayAll(s, fs[..n]).s
      requires Begun(was, sample[..], Both(PlayAll(s, fs[..n]).outs))
      modifies this, fifo, sample
      ensures p' == PlayAll(s, fs[..n + 1]) && Invariant() && Abs() == p'.s && pcmVol == old(pcmVol)
      ensures Begun(was, sample[..], Both(p'.outs))
    {
      ghost var p := PlayAll(s, fs[..n]);
      PlayAllNext(s, fs, n);
      assert was[i..][0] == sample[i..][0] && was[i..][1] == sample[i..][1];
      var temp := OneFrame(sample[i], sample[i + 1]);
      PutFrame(sample, i, Frame(temp, temp), was, Both(p.outs));
      assert Both(p.outs + [temp]) == Both(p.outs) + [Frame(temp, temp)];
      p' := Played(Abs(), p.outs + [temp]);
    }

    /** Every frame of the buffer becomes the echo on both channels. With an odd number of samples the
        last frame reaches one sample past the given length. */
    method MixerSinglePlaying(sample: array<int>, lenByte: nat)
      requires Invariant() && sample != fifo
      requires lenByte < TWO16 && lenByte / 2 <= 32766 && 2 * ((lenByte / 2 + 1) / 2) <= sample.Length
      modifies this, fifo, sample
      ensures var p := PlayAll(old(Abs()), FramesOf(old(sample[..]), (lenByte / 2 + 1) / 2));
        Invariant() && Abs() == p.s && pcmVol == old(pcmVol) && Begun(old(sample[..]), sample[..], Both(p.outs))
    {
      var lenHword := I16(lenByte / 2);
      ghost var was, s := sample[..], Abs();
      ghost var fs := FramesOf(was, (lenByte / 2 + 1) / 2);
      var i := 0;
      ghost var n, p := 0, Played(s, []);
      assert fs[..0] == [];
      while i < lenHword
        invariant i == 2 * n && n <= |fs| && p == PlayAll(s, fs[..n])
        invariant Invariant() && Abs() == p.s && pcmVol == old(pcmVol)
        invariant Begun(was, sample[..], Both(p.outs))
      {
        p := SingleRound(sample, i, s, fs, was, n);
        i, n := I16(i + 2), n + 1;
      }
      assert fs[..n] == fs;
    }

    /** A music sample with the echo mixed in. */
    method MixedSample(sample: int, echo: int) returns (mixed: int)
      ensures mixed == Mixed(Frame(sample, sample), echo, pcmVol).left
    {
      mixed := Clip(I32(sample * pcmVol) / 16 + echo);
    }

    /** A music frame with the echo mixed in is stored in place of it. */
    method MixFrame(audio: array<int>, i: nat, echo: int, ghost was: seq<int>, ghost done: seq<Frame>)
      requires i == 2 * |done| && i + 2 <= audio.Length && Begun(was, audio[..], done)
      modifies audio
      ensures Begun(was, audio[..], done + [Mixed(Frame(was[i], was[i + 1]), echo, pcmVol)])
    {
      assert was[i..][0] == audio[i..][0] && was[i..][1] == audio[i..][1];
      var left := MixedSample(audio[i], echo);
      var right := MixedSample(audio[i + 1], echo);
      PutFrame(audio, i, Frame(left, right), was, done);
    }

    /** One round: the next output, and the music frame with it. */
    method MultiRound(mic: array<int>, audio: array<int>, i: nat, ghost s: Line, ghost fs: seq<Frame>, ghost music: seq<Frame>,
                      ghost was: seq<int>, ghost n: nat) returns (ghost p': Played)
      requires audio != fifo && audio != mic && mic != fifo
      requires i == 2 * n && n < |fs| == |music| && i + 2 <= mic.Length && i + 2 <= audio.Length && |was| == audio.Length
      requires fs[n] == Frame(mic[i], mic[i + 1]) && music[n] == Frame(was[i], was[i + 1])
      requires Valid(s) && Invariant() && Abs() == PlayAll(s, fs[..n]).s
      requires Begun(was, audio[..], MixedAll(music, PlayAll(s, fs[..n]).outs, pcmVol))
      modifies this, fifo, audio
      ensures p' == PlayAll(s, fs[..n + 1]) && Invariant() && Abs() == p'.s && pcmVol == old(pcmVol)
      ensures Begun(was, audio[..], MixedAll(music, p'.outs, pcmVol))
    {
      ghost var p := PlayAll(s, fs[..n]);
      PlayAllNext(s, fs, n);
      var temp := OneFrame(mic[i], mic[i + 1]);
      MixFrame(audio, i, temp, was, MixedAll(music, p.outs, pcmVol));
      MixedMore(music, p.outs, temp, pcmVol);
      p' := Played(Abs(), p.outs + [temp]);
    }

    /** The echo of the microphone buffer is mixed into the music buffer. */
    method MixerMultiPlaying(mic: array<int>, audio: array<int>, lenByte: nat)
      requires Invariant() && audio != fifo && audio != mic && mic != fifo
      requires lenByte < TWO16 && lenByte / 2 <= 32766
      requires 2 * ((lenByte / 2 + 1) / 2) <= mic.Length && 2 * ((lenByte / 2 + 1) / 2) <= audio.Length
      modifies this, fifo, audio
      ensures var n := (lenByte / 2 + 1) / 2;
        var (p, music) := (PlayAll(old(Abs()), FramesOf(old(mic[..]), n)), FramesOf(old(audio[..]), n));
        && Invariant() && Abs() == p.s && pcmVol == old(pcmVol)
        && Begun(old(audio[..]), audio[..], MixedAll(music, p.outs, pcmVol))
    {
      var lenHword := I16(lenByte / 2);
      ghost var was, s := audio[..], Abs();
      ghost var fs, music := FramesOf(mic[..], (lenByte / 2 + 1) / 2), FramesOf(was, (lenByte / 2 + 1) / 2);
      var i := 0;
      ghost var n, p := 0, Played(s, []);
      assert fs[..0] == [];
      while i < lenHword
        invariant i == 2 * n && n <= |fs| && p == PlayAll(s, fs[..n])
        invariant Invariant() && Abs() == p.s && pcmVol == old(pcmVol)
        invariant Begun(was, audio[..], MixedAll(music, p.outs, pcmVol))
      {
        assert fs[n] == Frame(mic[i], mic[i + 1]) && music[n] == Frame(was[i], was[i + 1]);
        p := MultiRound(mic, audio, i, s, fs, music, was, n);
        i, n := I16(i + 2), n + 1;
      }
      assert fs[..n] == fs;
    }
  }
}
