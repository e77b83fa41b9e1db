/** What a button says to whole sequences of presses, from its initialisation on and by its readings alone:
    single and double clicks, longer bursts, and presses that are held. */
module ButtonBurst {
  import opened Machine
  import opened Sequences
  import opened Button

  /** `n` readings of the same level. */
  function Reads(v: nat, n: nat): (pins: seq<nat>)
    ensures |pins| == n
  {
    if n == 0 then [] else Reads(v, n - 1) + [v]
  }

  lemma {:induction false} ReadsMore(v: nat, n: nat, m: nat)
    ensures Reads(v, n + m) == Reads(v, n) + Reads(v, m)
  {
    if m == 0 { assert Reads(v, n) + [] == Reads(v, n); } else { ReadsMore(v, n, m - 1); }
  }

  lemma RunMore(s: State, pins: seq<nat>, v: nat)
    ensures var (p, q) := (Run(s, pins), Run(s, pins + [v]));
      q.s == Handle(p.s, v).s && q.events == p.events + Handle(p.s, v).events
  {
    assert (pins + [v])[..|pins|] == pins;
  }

  /** A run can be taken in parts. */
  lemma {:induction false} RunInParts(s: State, a: seq<nat>, b: seq<nat>)
    ensures InParts(s, a, b)
    decreases |b|
  {
    if b == [] {
      assert a + b == a && Run(s, a).events + [] == Run(s, a).events;
    } else {
      RunInParts(s, a, b[..|b| - 1]);
      OneMorePart(s, a, b[..|b| - 1], b[|b| - 1]);
      assert b == b[..|b| - 1] + [b[|b| - 1]];
    }
  }

  predicate InParts(s: State, a: seq<nat>, b: seq<nat>) {
    var (p, q) := (Run(s, a), Run(Run(s, a).s, b));
    Run(s, a + b) == Tick(q.s, p.events + q.events)
  }

  lemma OneMorePart(s: State, a: seq<nat>, c: seq<nat>, v: nat)
    requires InParts(s, a, c)
    ensures InParts(s, a, c + [v])
  {
    RunMore(s, a + c, v);
    RunMore(Run(s, a).s, c, v);
    Assoc(a, c, [v]);
    Assoc(Run(s, a).events, Run(Run(s, a).s, c).events, Handle(Run(Run(s, a).s, c).s, v).events);
  }

  /** These readings lead from `s` to `t` with these events. A proof that looks into the run asks for it. */
  ghost predicate Leads(s: State, pins: seq<nat>, t: State, events: seq<Event>) {
    forall n: nat {:trigger Asked(n)} :: Asked(n) ==> Run(s, pins) == Tick(t, events)
  }

  lemma LeadsOn(s: State, a: seq<nat>, t: State, es: seq<Event>, b: seq<nat>, u: State, fs: seq<Event>)
    requires Leads(s, a, t, es) && Leads(t, b, u, fs)
    ensures Leads(s, a + b, u, es + fs)
  {
    assert Asked(0);
    RunInParts(s, a, b);
  }

  // ----- three readings change the level -----

  /** In this state, after so many ticks, with the level and no reading that differs from it. */
  predicate In(s: State, state: nat, ticks: nat, repeat: nat, a: nat, down: bool) {
    && s.state == state && s.ticks == ticks && s.repeat == repeat && s.debounce == 0
    && a < 2 && s.active == a && s.level == if down then a else 1 - a
  }

  /** Three readings, of which only the third one says something. */
  lemma ThirdSays(s: State, v: nat, u: State, w: State, t: State, es: seq<Event>)
    requires Handle(s, v) == Tick(u, []) && Handle(u, v) == Tick(w, []) && Handle(w, v) == Tick(t, es)
    ensures Leads(s, Reads(v, 3), t, es)
  {
    RunMore(s, [], v);
    RunMore(s, [v], v);
    RunMore(s, [v, v], v);
    assert Reads(v, 1) == [] + [v] == [v] && Reads(v, 2) == [v] + [v] == [v, v] && Reads(v, 3) == [v, v] + [v];
    assert [] + es == es;
  }

  /** A first press. */
  lemma FirstDown(s: State, repeat: nat, a: nat) returns (t: State)
    requires In(s, 0, 0, repeat, a, false)
    ensures In(t, 1, 0, 1, a, true) && Leads(s, Reads(a, 3), t, [PressDown])
  {
    var u, w := s.(debounce := 1, event := NONE_PRESS), s.(debounce := 2, event := NONE_PRESS);
    t := Handle(w, a).s;
    ThirdSays(s, a, u, w, t, [PressDown]);
  }

  /** Another press of a burst, in time. */
  lemma NextDown(s: State, ticks: nat, repeat: nat, a: nat) returns (t: State)
    requires In(s, 2, ticks, repeat, a, false) && ticks <= 58
    ensures In(t, 3, 0, (repeat + 1) % 16, a, true) && Leads(s, Reads(a, 3), t, [PressDown, PressRepeat])
  {
    var u, w := s.(debounce := 1, ticks := ticks + 1), s.(debounce := 2, ticks := ticks + 2);
    t := Handle(w, a).s;
    ThirdSays(s, a, u, w, t, [PressDown, PressRepeat]);
  }

  /** The release of a first press that is not too long. */
  lemma FirstUp(s: State, ticks: nat, a: nat) returns (t: State)
    requires In(s, 1, ticks, 1, a, true) && ticks <= 198
    ensures In(t, 2, 0, 1, a, false) && Leads(s, Reads(1 - a, 3), t, [PressUp])
  {
    var u, w := s.(debounce := 1, ticks := ticks + 1), s.(debounce := 2, ticks := ticks + 2);
    t := Handle(w, 1 - a).s;
    ThirdSays(s, 1 - a, u, w, t, [PressUp]);
  }

  /** After a later press of `down` readings: in the middle of a burst, or at rest. */
  predicate Released(t: State, down: nat, repeat: nat, a: nat) {
    if down % 65536 < 60 then In(t, 2, 0, repeat, a, false) else In(t, 0, t.ticks, repeat, a, false)
  }

  /** The release of another press: the burst goes on if the press was short. */
  lemma NextUp(s: State, ticks: nat, repeat: nat, a: nat) returns (t: State)
    requires In(s, 3, ticks, repeat, a, true) && ticks < TWO16
    ensures Leads(s, Reads(1 - a, 3), t, [PressUp])
    ensures Released(t, ticks + 3, repeat, a)
  {
    t := LaterUp(s, repeat, a);
    ThreeOn(t, ticks, repeat, a);
  }

  lemma LaterUp(s: State, repeat: nat, a: nat) returns (t: State)
    requires a < 2 && s.state == 3 && s.debounce == 0 && s.active == s.level == a && s.repeat == repeat && s.ticks < TWO16
    ensures Leads(s, Reads(1 - a, 3), t, [PressUp])
    ensures Released(t, ((s.ticks + 1) % 65536 + 1) % 65536 + 1, repeat, a)
  {
    var u := Unsettled(s, 1 - a);
    var w := Unsettled(u, 1 - a);
    t := Settled(w, repeat, a);
    ThirdSays(s, 1 - a, u, w, t, [PressUp]);
  }

  /** A reading that is not yet the third leaves a later press as it is. */
  lemma Unsettled(s: State, v: nat) returns (t: State)
    requires s.state == 3 && s.debounce < 2 && v != s.level == s.active && s.ticks < TWO16
    ensures t == s.(ticks := (s.ticks + 1) % 65536, debounce := s.debounce + 1) && Handle(s, v) == Tick(t, [])
  {
    t := Handle(s, v).s;
  }

  lemma ThreeOn(t: State, n: nat, repeat: nat, a: nat)
    ensures Released(t, ((n + 1) % 65536 + 1) % 65536 + 1, repeat, a) == Released(t, n + 3, repeat, a)
  {
  }

  lemma Settled(s: State, repeat: nat, a: nat) returns (t: State)
    requires a < 2 && s.state == 3 && s.debounce == 2 && s.active == s.level == a && s.repeat == repeat && s.ticks < TWO16
    ensures Handle(s, 1 - a) == Tick(t, [PressUp])
    ensures Released(t, s.ticks + 1, repeat, a)
  {
    t := Handle(s, 1 - a).s;
  }

  // ----- readings of a steady level -----

  lemma LeadsMore(s: State, pins: seq<nat>, t: State, es: seq<Event>, v: nat)
    requires Leads(s, pins, t, es)
    ensures Leads(s, pins + [v], Handle(t, v).s, es + Handle(t, v).events)
  {
    assert Asked(0);
    RunMore(s, pins, v);
  }

  /** The state after `k` readings is this, and one more reading says nothing. */
  predicate Stays(inv: (nat, State) -> bool, k: nat, t: State, v: nat) {
    inv(k + 1, Handle(t, v).s) && Handle(t, v).events == []
  }

  lemma {:induction false} Steadily(s: State, v: nat, n: nat, inv: (nat, State) -> bool) returns (t: State)
    requires inv(0, s) && forall k: nat, t | k < n && inv(k, t) :: Stays(inv, k, t, v)
    ensures inv(n, t) && Leads(s, Reads(v, n), t, [])
  {
    if n == 0 {
      t := s;
    } else {
      var u := Steadily(s, v, n - 1, inv);
      LeadsMore(s, Reads(v, n - 1), u, [], v);
      assert Stays(inv, n - 1, u, v);
      t := Handle(u, v).s;
    }
  }

  /** A first press that is held, but not too long. */
  lemma FirstHeld(s: State, a: nat, n: nat) returns (t: State)
    requires In(s, 1, 0, 1, a, true) && n <= 200
    ensures In(t, 1, n, 1, a, true) && Leads(s, Reads(a, n), t, [])
  {
    t := Steadily(s, a, n, (k: nat, u: State) => In(u, 1, k, 1, a, true));
  }

  /** A later press that is held, for any time. */
  lemma NextHeld(s: State, repeat: nat, a: nat, n: nat) returns (t: State)
    requires In(s, 3, 0, repeat, a, true)
    ensures In(t, 3, n % 65536, repeat, a, true) && Leads(s, Reads(a, n), t, [])
  {
    t := Steadily(s, a, n, (k: nat, u: State) => In(u, 3, k % 65536, repeat, a, true));
  }

  /** A button that is released, but not too long. */
  lemma Waits(s: State, repeat: nat, a: nat, n: nat) returns (t: State)
    requires In(s, 2, 0, repeat, a, false) && n <= 60
    ensures In(t, 2, n, repeat, a, false) && Leads(s, Reads(1 - a, n), t, [])
  {
    t := Steadily(s, 1 - a, n, (k: nat, u: State) => In(u, 2, k, repeat, a, false));
  }

  /** A button at rest. */
  lemma Rests(s: State, ticks: nat, repeat: nat, a: nat, n: nat) returns (t: State)
    requires In(s, 0, ticks, repeat, a, false)
    ensures In(t, 0, ticks, repeat, a, false) && Leads(s, Reads(1 - a, n), t, [])
  {
    t := Steadily(s, 1 - a, n, (k: nat, u: State) => In(u, 0, ticks, repeat, a, false));
  }

  /** What a burst of so many presses, modulo 16, ends with. */
  function Ending(repeat: nat): seq<Event> {
    if repeat == 1 then [SingleClick] else if repeat == 2 then [DoubleClick] else []
  }

  lemma EndsNow(s: State, repeat: nat, a: nat) returns (t: State)
    requires In(s, 2, 60, repeat, a, false)
    ensures In(t, 0, t.ticks, repeat, a, false) && Handle(s, 1 - a) == Tick(t, Ending(repeat))
  {
    t := Handle(s, 1 - a).s;
  }

  /** A button that stays released ends its burst at the 61st tick. */
  lemma Ends(s: State, repeat: nat, a: nat, n: nat) returns (t: State)
    requires In(s, 2, 0, repeat, a, false) && n >= 61
    ensures In(t, 0, t.ticks, repeat, a, false) && Leads(s, Reads(1 - a, n), t, Ending(repeat))
  {
    t := EndsAfter(s, repeat, a, 60, n - 61);
  }

  lemma EndsAfter(s: State, repeat: nat, a: nat, k: nat, m: nat) returns (t: State)
    requires In(s, 2, 0, repeat, a, false) && k == 60
    ensures In(t, 0, t.ticks, repeat, a, false) && Leads(s, Reads(1 - a, k + 1 + m), t, Ending(repeat))
  {
    var u := Waits(s, repeat, a, k);
    var w := EndsNow(u, repeat, a);
    SaysThen(s, 1 - a, k, u, w, Ending(repeat));
    t := Rests(w, w.ticks, repeat, a, m);
    SaysNoMore(s, 1 - a, k + 1, w, Ending(repeat), m, t);
  }

  /** Silence, and then something is said. */
  lemma SaysThen(s: State, v: nat, n: nat, t: State, u: State, es: seq<Event>)
    requires Leads(s, Reads(v, n), t, []) && Handle(t, v) == Tick(u, es)
    ensures Leads(s, Reads(v, n + 1), u, es)
  {
    LeadsMore(s, Reads(v, n), t, [], v);
    assert [] + es == es;
  }

  /** Something is said, and then silence. */
  lemma SaysNoMore(s: State, v: nat, n: nat, t: State, es: seq<Event>, m: nat, u: State)
    requires Leads(s, Reads(v, n), t, es) && Leads(t, Reads(v, m), u, [])
    ensures Leads(s, Reads(v, n + m), u, es)
  {
    LeadsOn(s, Reads(v, n), t, es, Reads(v, m), u, []);
    ReadsMore(v, n, m);
    assert es + [] == es;
  }

  // ----- bursts of presses -----

  /** A press: so many readings with the button down, then so many with the button up. */
  datatype Press = Press(down: nat, up: nat)

  function Readings(a: nat, ps: seq<Press>): seq<nat>
    requires a < 2
    decreases |ps|
  {
    if ps == [] then [] else Readings(a, ps[..|ps| - 1]) + Pressed(a, ps[|ps| - 1].down, ps[|ps| - 1].up)
  }

  function Pressed(a: nat, down: nat, up: nat): seq<nat>
    requires a < 2
  {
    Reads(a, down) + Reads(1 - a, up)
  }

  /** Presses of which the first is no long press, the others are short, and each comes in time. */
  predicate Burst(ps: seq<Press>) {
    && ps != [] && ps[0].down <= 201
    && (forall i :: 0 <= i < |ps| ==> 3 <= ps[i].down && 3 <= ps[i].up)
    && (forall i :: 0 < i < |ps| ==> ps[i].down < 60)
    && (forall i :: 0 <= i < |ps| - 1 ==> ps[i].up <= 61)
  }

  /** What is said to `n` presses. */
  function Said(n: nat): seq<Event>
    requires n > 0
  {
    if n == 1 then [PressDown, PressUp] else Said(n - 1) + [PressDown, PressRepeat, PressUp]
  }

  /** The readings up to the third one after the last release. */
  function UpTo(a: nat, ps: seq<Press>): seq<nat>
    requires a < 2 && ps != []
  {
    Readings(a, ps[..|ps| - 1]) + Pressed(a, ps[|ps| - 1].down, 3)
  }

  lemma ReadingsSplit(a: nat, ps: seq<Press>)
    requires a < 2 && ps != [] && ps[|ps| - 1].up >= 3
    ensures Readings(a, ps) == UpTo(a, ps) + Reads(1 - a, ps[|ps| - 1].up - 3)
  {
    var p, before := ps[|ps| - 1], Readings(a, ps[..|ps| - 1]);
    PressedSplit(a, p.down, p.up);
    Assoc(before, Pressed(a, p.down, 3), Reads(1 - a, p.up - 3));
  }

  lemma PressedSplit(a: nat, down: nat, up: nat)
    requires a < 2 && up >= 3
    ensures Pressed(a, down, up) == Pressed(a, down, 3) + Reads(1 - a, up - 3)
  {
    ReadsMore(1 - a, 3, up - 3);
    Assoc(Reads(a, down), Reads(1 - a, 3), Reads(1 - a, up - 3));
  }

  /** The third reading down, those after it, and the third one up. */
  lemma WholePress(s: State, a: nat, d: nat, u: State, w: State, t: State, es: seq<Event>)
    requires a < 2 && d >= 3 && Leads(s, Reads(a, 3), u, es) && Leads(u, Reads(a, d - 3), w, []) && Leads(w, Reads(1 - a, 3), t, [PressUp])
    ensures Leads(s, Pressed(a, d, 3), t, es + [PressUp])
  {
    SaysNoMore(s, a, 3, u, es, d - 3, w);
    LeadsOn(s, Reads(a, d), w, es, Reads(1 - a, 3), t, [PressUp]);
  }

  lemma FirstPress(s: State, repeat: nat, a: nat, d: nat) returns (t: State)
    requires In(s, 0, 0, repeat, a, false) && 3 <= d <= 201
    ensures In(t, 2, 0, 1, a, false) && Leads(s, Pressed(a, d, 3), t, [PressDown, PressUp])
  {
    var u := FirstDown(s, repeat, a);
    var w := FirstHeld(u, a, d - 3);
    t := FirstUp(w, d - 3, a);
    WholePress(s, a, d, u, w, t, [PressDown]);
    assert [PressDown] + [PressUp] == [PressDown, PressUp];
  }

  lemma NextPress(s: State, ticks: nat, repeat: nat, a: nat, d: nat) returns (t: State)
    requires In(s, 2, ticks, repeat, a, false) && ticks <= 58 && 3 <= d
    ensures Released(t, d, (repeat + 1) % 16, a) && Leads(s, Pressed(a, d, 3), t, [PressDown, PressRepeat, PressUp])
  {
    var u := NextDown(s, ticks, repeat, a);
    var w := NextHeld(u, (repeat + 1) % 16, a, d - 3);
    t := NextUp(w, (d - 3) % 65536, (repeat + 1) % 16, a);
    SameRelease(t, d, (repeat + 1) % 16, a);
    WholePress(s, a, d, u, w, t, [PressDown, PressRepeat]);
    assert [PressDown, PressRepeat] + [PressUp] == [PressDown, PressRepeat, PressUp];
  }

  lemma SameRelease(t: State, d: nat, repeat: nat, a: nat)
    requires d >= 3
    ensures Released(t, (d - 3) % 65536 + 3, repeat, a) == Released(t, d, repeat, a)
  {
  }

  /** The end of a burst that is not yet over. */
  lemma StillBurst(a: nat, ps: seq<Press>, s: State) returns (t: State)
    requires a < 2 && ps != [] && 3 <= ps[|ps| - 1].up <= 63
    requires In(s, 2, 0, |ps| % 16, a, false) && Leads(Init(1 - a, a), UpTo(a, ps), s, Said(|ps|))
    ensures In(t, 2, ps[|ps| - 1].up - 3, |ps| % 16, a, false) && Leads(Init(1 - a, a), Readings(a, ps), t, Said(|ps|))
  {
    var up := ps[|ps| - 1].up - 3;
    t := Waits(s, |ps| % 16, a, up);
    LeadsOn(Init(1 - a, a), UpTo(a, ps), s, Said(|ps|), Reads(1 - a, up), t, []);
    ReadingsSplit(a, ps);
    assert Said(|ps|) + [] == Said(|ps|);
  }

  /** A press after a burst. */
  lemma AfterBurst(a: nat, ps: seq<Press>, d: nat, s: State) returns (t: State)
    requires a < 2 && ps != [] && 3 <= ps[|ps| - 1].up <= 61 && d >= 3
    requires In(s, 2, 0, |ps| % 16, a, false) && Leads(Init(1 - a, a), UpTo(a, ps), s, Said(|ps|))
    ensures Released(t, d, (|ps| + 1) % 16, a) && Leads(Init(1 - a, a), Readings(a, ps) + Pressed(a, d, 3), t, Said(|ps| + 1))
  {
    var u := StillBurst(a, ps, s);
    t := AndPress(Init(1 - a, a), Readings(a, ps), u, ps[|ps| - 1].up - 3, |ps|, a, d);
  }

  lemma AndPress(start: State, pins: seq<nat>, s: State, ticks: nat, n: nat, a: nat, d: nat) returns (t: State)
    requires n > 0 && d >= 3 && In(s, 2, ticks, n % 16, a, false) && ticks <= 58 && Leads(start, pins, s, Said(n))
    ensures Released(t, d, (n + 1) % 16, a) && Leads(start, pins + Pressed(a, d, 3), t, Said(n + 1))
  {
    t := NextPress(s, ticks, n % 16, a, d);
    LeadsOn(start, pins, s, Said(n), Pressed(a, d, 3), t, [PressDown, PressRepeat, PressUp]);
  }

  /** After its last release, a burst waits for another press. */
  lemma {:induction false} InBurst(a: nat, ps: seq<Press>) returns (t: State)
    requires a < 2 && Burst(ps)
    ensures In(t, 2, 0, |ps| % 16, a, false) && Leads(Init(1 - a, a), UpTo(a, ps), t, Said(|ps|))
    decreases |ps|
  {
    var qs := ps[..|ps| - 1];
    if qs == [] {
      t := FirstOfBurst(a, ps);
    } else {
      BurstBefore(ps);
      var s := InBurst(a, qs);
      t := AfterBurst(a, qs, ps[|ps| - 1].down, s);
    }
  }

  lemma BurstBefore(ps: seq<Press>)
    requires Burst(ps) && |ps| > 1
    ensures var qs := ps[..|ps| - 1];
      Burst(qs) && 3 <= qs[|qs| - 1].up <= 61
  {
  }

  lemma FirstOfBurst(a: nat, ps: seq<Press>) returns (t: State)
    requires a < 2 && |ps| == 1 && 3 <= ps[0].down <= 201
    ensures In(t, 2, 0, 1, a, false) && Leads(Init(1 - a, a), UpTo(a, ps), t, Said(1))
  {
    t := FirstPress(Init(1 - a, a), 0, a, ps[0].down);
    assert ps[..0] == [] && [] + Pressed(a, ps[0].down, 3) == Pressed(a, ps[0].down, 3);
  }

  /** A burst of `n` presses, each in time, and then a rest: PressDown and PressUp for the first one,
      PressDown, PressRepeat and PressUp for each further one; then nothing for 63 readings of the rest, and
      after the 64th a single click exactly if n is 1, a double click exactly if n is 2, modulo 16. */
  lemma BurstClicks(a: nat, ps: seq<Press>)
    requires a < 2 && Burst(ps)
    ensures var (t, n, rest) := (Run(Init(1 - a, a), Readings(a, ps)), |ps|, ps[|ps| - 1].up);
      && (rest <= 63 ==> t.events == Said(n))
      && (rest >= 64 && n % 16 == 1 ==> t.events == Said(n) + [SingleClick])
      && (rest >= 64 && n % 16 == 2 ==> t.events == Said(n) + [DoubleClick])
      && (rest >= 64 && n % 16 != 1 && n % 16 != 2 ==> t.events == Said(n))
  {
    var s := InBurst(a, ps);
    var rest := ps[|ps| - 1].up - 3;
    ReadingsSplit(a, ps);
    assert Asked(0) && Said(|ps|) + [] == Said(|ps|);
    if rest <= 60 {
      var t := StillBurst(a, ps, s);
    } else {
      var t := Ends(s, |ps| % 16, a, rest);
      LeadsOn(Init(1 - a, a), UpTo(a, ps), s, Said(|ps|), Reads(1 - a, rest), t, Ending(|ps| % 16));
    }
  }

  /** A later press that is held for 60 readings or more ends the burst with its release: no click is
      reported, however long the rest. (The counter has 16 bits.) */
  lemma HeldEndsBurst(a: nat, ps: seq<Press>, d: nat, up: nat)
    requires a < 2 && Burst(ps) && ps[|ps| - 1].up <= 61 && d >= 3 && d % 65536 >= 60 && up >= 3
    ensures Run(Init(1 - a, a), Readings(a, ps + [Press(d, up)])).events == Said(|ps| + 1)
  {
    var qs := ps + [Press(d, up)];
    assert qs[..|ps|] == ps;
    var s := InBurst(a, ps);
    var t := AfterBurst(a, ps, d, s);
    var u := Rests(t, t.ticks, (|ps| + 1) % 16, a, up - 3);
    ReadingsSplit(a, qs);
    LeadsOn(Init(1 - a, a), UpTo(a, qs), t, Said(|ps| + 1), Reads(1 - a, up - 3), u, []);
    assert Asked(0) && Said(|ps| + 1) + [] == Said(|ps| + 1);
  }

  // ----- a long press -----

  /** A first press has been held for `k` ticks; the last `bounces` readings differed from the level. */
  predicate Holding(s: State, k: nat, a: nat, bounces: nat) {
    && a < 2 && s.active == s.level == a && s.debounce == bounces
    && if k <= 200 then s.state == 1 && s.ticks == k else s.state == 5
  }

  /** What is said at the tick after the first `k`. */
  function SaysAt(k: nat): seq<Event> {
    if k < 200 then [] else if k == 200 then [LongPressStart] else [LongPressHold]
  }

  /** What is said in `k` ticks of a first press. */
  function SaysIn(k: nat): seq<Event> {
    if k <= 200 then [] else [LongPressStart] + Holds(k - 201)
  }

  lemma SaysOn(k: nat)
    ensures SaysIn(k + 1) == SaysIn(k) + SaysAt(k)
  {
    if k == 200 {
      assert [] + [LongPressStart] == [LongPressStart] + Holds(0);
    } else if k > 200 {
      assert [LongPressStart] + (Holds(k - 201) + [LongPressHold]) == [LongPressStart] + Holds(k - 201) + [LongPressHold];
    }
  }

  /** One more tick, with a reading that does not yet change the level. */
  lemma HoldsOn(s: State, k: nat, a: nat, bounces: nat, v: nat)
    requires Holding(s, k, a, bounces) && (v == a || (v == 1 - a && bounces < 2))
    ensures Holding(Handle(s, v).s, k + 1, a, if v == a then 0 else bounces + 1) && Handle(s, v).events == SaysAt(k)
  {
  }

  /** From `s` these readings lead to `u`, where the press has been held for `k` ticks. A proof that needs
      to know what has been said asks for it. */
  ghost predicate HeldFor(s: State, pins: seq<nat>, u: State, k: nat, a: nat, bounces: nat) {
    forall n: nat {:trigger Asked(n)} :: Asked(n) ==> Run(s, pins) == Tick(u, SaysIn(k)) && Holding(u, k, a, bounces)
  }

  lemma {:induction false} HeldDown(s: State, a: nat, n: nat) returns (t: State)
    requires Holding(s, 0, a, 0)
    ensures HeldFor(s, Reads(a, n), t, n, a, 0)
  {
    if n == 0 {
      t := s;
    } else {
      var u := HeldDown(s, a, n - 1);
      t := OneTick(s, Reads(a, n - 1), u, n - 1, a, 0, a);
    }
  }

  lemma OneTick(s: State, pins: seq<nat>, u: State, k: nat, a: nat, bounces: nat, v: nat) returns (t: State)
    requires HeldFor(s, pins, u, k, a, bounces) && (v == a || (v == 1 - a && bounces < 2))
    ensures HeldFor(s, pins + [v], t, k + 1, a, if v == a then 0 else bounces + 1)
  {
    assert Asked(0);
    HoldsOn(u, k, a, bounces, v);
    RunMore(s, pins, v);
    SaysOn(k);
    t := Handle(u, v).s;
  }

  lemma HeldLeads(s: State, pins: seq<nat>, u: State, k: nat, a: nat, bounces: nat, es: seq<Event>)
    requires HeldFor(s, pins, u, k, a, bounces) && es == SaysIn(k)
    ensures Holding(u, k, a, bounces) && Leads(s, pins, u, es)
  {
    assert Asked(0);
  }

  /** The third reading up ends a long press. */
  lemma LongUp(s: State, pins: seq<nat>, u: State, k: nat, a: nat, v: nat, es: seq<Event>) returns (t: State)
    requires a < 2 && v == 1 - a && HeldFor(s, pins, u, k, a, 2) && k > 200 && es == SaysIn(k)
    ensures In(t, 0, t.ticks, t.repeat, a, false) && Leads(s, pins + [v], t, es + [PressUp])
  {
    HeldLeads(s, pins, u, k, a, 2, es);
    LeadsMore(s, pins, u, es, v);
    t := Released5(u, a);
  }

  lemma Released5(s: State, a: nat) returns (t: State)
    requires a < 2 && s.active == s.level == a && s.debounce == 2 && s.state == 5
    ensures Handle(s, 1 - a) == Tick(t, [PressUp]) && In(t, 0, t.ticks, t.repeat, a, false)
  {
    t := Handle(s, 1 - a).s;
  }

  /** A press that is held for 202 readings or more: it starts a long press, which is reported as held at
      every tick but the first, and ends with its release. No click is reported, however long the rest. */
  lemma LongPressed(a: nat, d: nat, up: nat)
    requires a < 2 && d >= 202 && up >= 3
    ensures Run(Init(1 - a, a), Pressed(a, d, up)).events == [PressDown, LongPressStart] + Holds(d - 202) + [PressUp]
  {
    var start := Init(1 - a, a);
    var s := FirstDown(start, 0, a);
    var t := LongReleased(s, a, d - 3);
    LongReadings(a, d, up);
    LongEvents(d);
    var u := LongParts(start, Reads(a, 3), s, Reads(a, d - 3) + Reads(1 - a, 3), t, SaysIn(d - 1) + [PressUp], a, up - 3);
    assert Asked(0);
  }

  lemma LongParts(start: State, down: seq<nat>, s: State, held: seq<nat>, t: State, es: seq<Event>, a: nat, rest: nat) returns (u: State)
    requires a < 2 && Leads(start, down, s, [PressDown]) && Leads(s, held, t, es) && In(t, 0, t.ticks, t.repeat, a, false)
    ensures Leads(start, down + held + Reads(1 - a, rest), u, [PressDown] + es + [])
  {
    LeadsOn(start, down, s, [PressDown], held, t, es);
    u := Rests(t, t.ticks, t.repeat, a, rest);
    LeadsOn(start, down + held, t, [PressDown] + es, Reads(1 - a, rest), u, []);
  }

  lemma LongReadings(a: nat, d: nat, up: nat)
    requires a < 2 && d >= 3 && up >= 3
    ensures Reads(a, 3) + (Reads(a, d - 3) + Reads(1 - a, 3)) + Reads(1 - a, up - 3) == Pressed(a, d, up)
  {
    ReadsMore(a, 3, d - 3);
    Assoc(Reads(a, 3), Reads(a, d - 3), Reads(1 - a, 3));
    PressedSplit(a, d, up);
  }

  lemma LongEvents(d: nat)
    requires d >= 202
    ensures [PressDown] + (SaysIn(d - 1) + [PressUp]) + [] == [PressDown, LongPressStart] + Holds(d - 202) + [PressUp]
  {
  }

  lemma LongReleased(s: State, a: nat, k: nat) returns (t: State)
    requires a < 2 && Holding(s, 0, a, 0) && k + 2 > 200
    ensures In(t, 0, t.ticks, t.repeat, a, false) && Leads(s, Reads(a, k) + Reads(1 - a, 3), t, SaysIn(k + 2) + [PressUp])
  {
    var u := HeldDown(s, a, k);
    ThreeMore(Reads(a, k), 1 - a);
    t := ThreeTicks(s, Reads(a, k), u, k, a, 1 - a, SaysIn(k + 2));
  }

  lemma ThreeTicks(s: State, held: seq<nat>, u: State, k: nat, a: nat, v: nat, es: seq<Event>) returns (t: State)
    requires a < 2 && v == 1 - a && HeldFor(s, held, u, k, a, 0) && k + 2 > 200 && es == SaysIn(k + 2)
    ensures In(t, 0, t.ticks, t.repeat, a, false) && Leads(s, held + [v] + [v] + [v], t, es + [PressUp])
  {
    var w := OneTick(s, held, u, k, a, 0, v);
    var x := OneTick(s, held + [v], w, k + 1, a, 1, v);
    t := LongUp(s, held + [v] + [v], x, k + 2, a, v, es);
  }

  lemma ThreeMore(pins: seq<nat>, v: nat)
    ensures pins + [v] + [v] + [v] == pins + Reads(v, 3)
  {
    assert Reads(v, 1) == [] + [v] == [v] && Reads(v, 2) == [v] + [v] == [v, v] && Reads(v, 3) == [v, v] + [v];
  }
}
