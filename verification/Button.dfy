/** The debouncer and click detector of MultiButton: one step a tick (button_handler), what is true of
    the events of every run, and the list of buttons that are ticked. */
module Button {
  import opened Machine

  const DEBOUNCE_TICKS: nat := 3
  const SHORT_TICKS: nat := 60
  const LONG_TICKS: nat := 200

  datatype Event = PressDown | PressUp | PressRepeat | SingleClick | DoubleClick | LongPressStart | LongPressHold

  /** The fields of a button: `ticks` has 16 bits, `repeat` four, the levels one bit each. */
  datatype State = State(ticks: nat, repeat: nat, event: int, state: nat, debounce: nat, active: nat, level: nat)

  const NONE_PRESS: int := 8

  /** The number of an event, as it is kept in the button. */
  function Code(e: Event): int {
    match e
    case PressDown => 0 case PressUp => 1 case PressRepeat => 2 case SingleClick => 3
    case DoubleClick => 4 case LongPressStart => 5 case LongPressHold => 6
  }

  datatype Tick = Tick(s: State, events: seq<Event>)

  /** The level changes at the third read in a row that differs from it. */
  function Debounced(s: State, read: nat): State {
    if read == s.level then s.(debounce := 0)
    else if s.debounce + 1 >= DEBOUNCE_TICKS then s.(level := read % 2, debounce := 0)
    else s.(debounce := s.debounce + 1)
  }

  /** The state machine, on the debounced level. */
  function Advance(s: State): Tick {
    var pressed := s.level == s.active;
    match s.state
    case 0 =>
      if pressed then Tick(s.(event := Code(PressDown), ticks := 0, repeat := 1, state := 1), [PressDown])
      else Tick(s.(event := NONE_PRESS), [])
    case 1 =>
      if !pressed then Tick(s.(event := Code(PressUp), ticks := 0, state := 2), [PressUp])
      else if s.ticks > LONG_TICKS then Tick(s.(event := Code(LongPressStart), state := 5), [LongPressStart])
      else Tick(s, [])
    case 2 =>
      if pressed then
        Tick(s.(event := Code(PressRepeat), repeat := (s.repeat + 1) % 16, ticks := 0, state := 3), [PressDown, PressRepeat])
      else if s.ticks > SHORT_TICKS then
        if s.repeat == 1 then Tick(s.(event := Code(SingleClick), state := 0), [SingleClick])
        else if s.repeat == 2 then Tick(s.(event := Code(DoubleClick), state := 0), [DoubleClick])
        else Tick(s.(state := 0), [])
      else Tick(s, [])
    case 3 =>
      if pressed then Tick(s, [])
      else if s.ticks < SHORT_TICKS then Tick(s.(event := Code(PressUp), ticks := 0, state := 2), [PressUp])
      else Tick(s.(event := Code(PressUp), state := 0), [PressUp])
    case 5 =>
      if pressed then Tick(s.(event := Code(LongPressHold)), [LongPressHold])
      else Tick(s.(event := Code(PressUp), state := 0), [PressUp])
    case _ => Tick(s, [])
  }

  /** button_handler, with the level that it reads. */
  function Handle(s: State, read: nat): Tick {
    var counted := if s.state > 0 then s.(ticks := U16(s.ticks + 1)) else s;
    Advance(Debounced(counted, read))
  }

  /** button_init */
  function Init(read: nat, active: nat): State {
    State(0, 0, NONE_PRESS, 0, 0, active % 2, read % 2)
  }

  /** The state and the events after the given reads. */
  function Run(s: State, pins: seq<nat>): (t: Tick)
    decreases |pins|
  {
    if pins == [] then Tick(s, [])
    else
      var p := Run(s, pins[..|pins| - 1]);
      var t := Handle(p.s, pins[|pins| - 1]);
      Tick(t.s, p.events + t.events)
  }

  // ----- the events of every run -----

  /** An observer of the events: whether the button is down, whether this is a long press, the number
      of presses in the burst (a press with PressRepeat continues the burst before it, one without
      begins a new burst), and whether all events so far were in order. */
  datatype Watch = Watch(down: bool, long: bool, burst: nat, before: nat, ok: bool)

  function See(w: Watch, e: Event): Watch {
    match e
    case PressDown => Watch(true, false, 1, w.burst, w.ok && !w.down)
    case PressUp => Watch(false, false, w.burst, w.before, w.ok && w.down)
    case PressRepeat => Watch(w.down, w.long, w.before + 1, w.before, w.ok && w.down)
    case SingleClick => w.(ok := w.ok && !w.down && w.burst % 16 == 1)
    case DoubleClick => w.(ok := w.ok && !w.down && w.burst % 16 == 2)
    case LongPressStart => w.(long := true, ok := w.ok && w.down && !w.long)
    case LongPressHold => w.(ok := w.ok && w.down && w.long)
  }

  function SeeAll(w: Watch, es: seq<Event>): Watch
    decreases |es|
  {
    if es == [] then w else See(SeeAll(w, es[..|es| - 1]), es[|es| - 1])
  }

  lemma {:induction false} SeeAppend(w: Watch, a: seq<Event>, b: seq<Event>)
    ensures SeeAll(w, a + b) == SeeAll(SeeAll(w, a), b)
    decreases |b|
  {
    if b == [] {
      assert a + b == a;
    } else {
      assert (a + b)[..|a + b| - 1] == a + b[..|b| - 1];
      SeeAppend(w, a, b[..|b| - 1]);
    }
  }

  const NOTHING_SEEN: Watch := Watch(false, false, 0, 0, true)

  /** How the state of the button and what has been seen belong together. */
  predicate Agrees(s: State, w: Watch) {
    && w.ok
    && (s.state == 0 || s.state == 1 || s.state == 2 || s.state == 3 || s.state == 5)
    && (w.down <==> s.state == 1 || s.state == 3 || s.state == 5)
    && (w.long <==> s.state == 5)
    && (s.state == 1 || s.state == 2 || s.state == 3 ==> s.repeat == w.burst % 16)
    && s.debounce < DEBOUNCE_TICKS && s.level < 2 && s.active < 2
  }

  lemma HandleAgrees(s: State, w: Watch, read: nat)
    requires Agrees(s, w)
    ensures Agrees(Handle(s, read).s, SeeAll(w, Handle(s, read).events))
  {
    var counted := if s.state > 0 then s.(ticks := U16(s.ticks + 1)) else s;
    assert Agrees(counted, w);
    DebouncedAgrees(counted, w, read);
    AdvanceAgrees(Debounced(counted, read), w);
  }

  lemma DebouncedAgrees(s: State, w: Watch, read: nat)
    requires Agrees(s, w)
    ensures Agrees(Debounced(s, read), w)
  {
  }

  lemma AdvanceAgrees(s: State, w: Watch)
    requires Agrees(s, w)
    ensures Agrees(Advance(s).s, SeeAll(w, Advance(s).events))
  {
    SeeFew(w, Advance(s).events);
  }

  lemma SeeFew(w: Watch, es: seq<Event>)
    ensures es == [] ==> SeeAll(w, es) == w
    ensures |es| == 1 ==> SeeAll(w, es) == See(w, es[0])
    ensures |es| == 2 ==> SeeAll(w, es) == See(See(w, es[0]), es[1])
  {
    if |es| == 1 {
      assert es[..0] == [];
    } else if |es| == 2 {
      assert es[..1] == [es[0]] && es[..1][..0] == [];
    }
  }

  /** In every run the events are in order: presses and releases alternate, beginning with a press;
      holding comes after the start of a long press with no release between; clicks come only when
      released, after a burst whose number of presses is 1 or 2 modulo 16. */
  lemma {:induction false} EventsInOrder(first: nat, active: nat, pins: seq<nat>)
    ensures Agrees(Run(Init(first, active), pins).s, SeeAll(NOTHING_SEEN, Run(Init(first, active), pins).events))
    decreases |pins|
  {
    if pins != [] {
      var p := Run(Init(first, active), pins[..|pins| - 1]);
      EventsInOrder(first, active, pins[..|pins| - 1]);
      HandleAgrees(p.s, SeeAll(NOTHING_SEEN, p.events), pins[|pins| - 1]);
      SeeAppend(NOTHING_SEEN, p.events, Handle(p.s, pins[|pins| - 1]).events);
    }
  }

  // ----- debouncing -----

  /** The last `k` readings of the pin all differ from the level. */
  predicate Differ(pins: seq<nat>, k: nat, level: nat) {
    k <= |pins| && forall i :: |pins| - k <= i < |pins| ==> pins[i] != level
  }

  /** The level and the counter change as the debouncing says. */
  lemma HandleLevel(s: State, read: nat)
    ensures Handle(s, read).s.level == Debounced(s, read).level && Handle(s, read).s.debounce == Debounced(s, read).debounce
  {
  }

  /** The counter counts the last readings that differ from the level; with levels of 0 and 1, all of them. */
  lemma {:induction false} CounterCounts(s: State, pins: seq<nat>)
    requires s.debounce == 0 && s.level < 2
    ensures var t := Run(s, pins).s;
      && t.level < 2 && t.debounce < DEBOUNCE_TICKS && Differ(pins, t.debounce, t.level)
      && ((forall i :: 0 <= i < |pins| ==> pins[i] < 2) ==>
        (Differ(pins, 1, t.level) ==> t.debounce >= 1) && (Differ(pins, 2, t.level) ==> t.debounce == 2))
    decreases |pins|
  {
    if pins != [] {
      var n := |pins| - 1;
      CounterCounts(s, pins[..n]);
      HandleLevel(Run(s, pins[..n]).s, pins[n]);
      CounterNext(Run(s, pins[..n]).s, Run(s, pins).s, pins, n);
    }
  }

  lemma CounterNext(p: State, t: State, pins: seq<nat>, n: nat)
    requires |pins| == n + 1 && p.level < 2 && p.debounce < DEBOUNCE_TICKS && Differ(pins[..n], p.debounce, p.level)
    requires t.level == Debounced(p, pins[n]).level && t.debounce == Debounced(p, pins[n]).debounce
    ensures t.level < 2 && t.debounce < DEBOUNCE_TICKS && Differ(pins, t.debounce, t.level)
    ensures (forall i :: 0 <= i < n ==> pins[i] < 2) && pins[n] < 2
      && (Differ(pins[..n], 1, p.level) ==> p.debounce >= 1)
      ==> (Differ(pins, 1, t.level) ==> t.debounce >= 1) && (Differ(pins, 2, t.level) ==> t.debounce == 2)
  {
    forall i | |pins| - t.debounce <= i < |pins| ensures pins[i] != t.level {
      if i < n { assert pins[..n][i] == pins[i]; }
    }
    if pins[n] < 2 {
      if Differ(pins, 1, t.level) { assert pins[n] != t.level; }
      if Differ(pins, 2, t.level) { assert pins[n - 1] != t.level && pins[..n][n - 1] == pins[n - 1]; }
    }
  }

  lemma RunNext(s: State, pins: seq<nat>, read: nat)
    ensures var (p, t) := (Run(s, pins).s, Run(s, pins + [read]).s);
      t.level == Debounced(p, read).level && t.debounce == Debounced(p, read).debounce
  {
    assert (pins + [read])[..|pins|] == pins;
    HandleLevel(Run(s, pins).s, read);
  }

  /** With levels of 0 and 1, the level changes exactly at a reading that is the third in a row to
      differ from it. */
  lemma LevelChanges(s: State, pins: seq<nat>, read: nat)
    requires s.debounce == 0 && s.level < 2 && read < 2 && forall i :: 0 <= i < |pins| ==> pins[i] < 2
    ensures Run(s, pins + [read]).s.level != Run(s, pins).s.level <==>
      Differ(pins + [read], 3, Run(s, pins).s.level)
  {
    CounterCounts(s, pins);
    RunNext(s, pins, read);
    ThirdReading(Run(s, pins).s, pins, read);
  }

  lemma ThirdReading(p: State, pins: seq<nat>, read: nat)
    requires p.level < 2 && read < 2 && p.debounce < DEBOUNCE_TICKS && Differ(pins, p.debounce, p.level)
    requires Differ(pins, 2, p.level) ==> p.debounce == 2
    ensures Debounced(p, read).level != p.level <==> Differ(pins + [read], DEBOUNCE_TICKS, p.level)
  {
    var all := pins + [read];
    assert all[|pins|] == read && forall i :: 0 <= i < |pins| ==> all[i] == pins[i];
    if Differ(all, DEBOUNCE_TICKS, p.level) {
      forall i | |pins| - 2 <= i < |pins| ensures pins[i] != p.level { assert all[i] != p.level; }
    }
  }

  // ----- times -----

  /** The events of `n` ticks of a steady level. */
  function Steady(s: State, n: nat): Tick
    decreases n
  {
    if n == 0 then Tick(s, [])
    else
      var p := Steady(s, n - 1);
      var t := Handle(p.s, p.s.level);
      Tick(t.s, p.events + t.events)
  }

  function Holds(n: nat): (es: seq<Event>)
    ensures |es| == n
  {
    if n == 0 then [] else Holds(n - 1) + [LongPressHold]
  }

  /** One tick of a button that is held down. */
  lemma HeldTick(s: State)
    requires s.level == s.active && s.debounce == 0 && (s.state == 1 || s.state == 5)
    ensures var t := Handle(s, s.level);
      && t.s.level == s.level && t.s.active == s.active && t.s.debounce == 0
      && (s.state == 5 ==> t.s.state == 5 && t.events == [LongPressHold])
      && (s.state == 1 && s.ticks <= LONG_TICKS ==>
           && t.s.ticks == s.ticks + 1
           && if s.ticks < LONG_TICKS then t.s.state == 1 && t.events == [] else t.s.state == 5 && t.events == [LongPressStart])
  {
  }

  /** A button that stays pressed says nothing for 200 ticks, then that a long press starts, and
      from then on, every tick, that it is held. */
  lemma {:induction false} LongPress(s: State, n: nat)
    requires s.state == 1 && s.ticks == 0 && s.level == s.active && s.debounce == 0
    ensures var t := Steady(s, n);
      && t.s.level == s.level && t.s.active == s.active && t.s.debounce == 0
      && (if n <= 200 then t.s.state == 1 && t.s.ticks == n && t.events == []
          else t.s.state == 5 && t.events == [LongPressStart] + Holds(n - 201))
    decreases n
  {
    if n > 0 {
      LongPress(s, n - 1);
      HeldTick(Steady(s, n - 1).s);
      if n > LONG_TICKS + 1 {
        var m := n - LONG_TICKS - 1;
        assert [LongPressStart] + Holds(m - 1) + [LongPressHold] == [LongPressStart] + Holds(m);
      }
    }
  }

  /** The click that a burst of so many presses ends with. */
  function ClickOf(repeat: nat): seq<Event> {
    if repeat == 1 then [SingleClick] else if repeat == 2 then [DoubleClick] else []
  }

  /** A button that stays released after a press says nothing for 60 ticks, and then once
      which click it was, if any. */
  lemma {:induction false} Click(s: State, n: nat)
    requires s.state == 2 && s.ticks == 0 && s.level != s.active && s.debounce == 0
    ensures var t := Steady(s, n);
      && t.s.level == s.level && t.s.active == s.active && t.s.debounce == 0
      && (if n <= 60 then t.s.state == 2 && t.s.ticks == n && t.s.repeat == s.repeat && t.events == []
          else t.s.state == 0 && t.events == ClickOf(s.repeat))
    decreases n
  {
    if n > 0 { Click(s, n - 1); }
  }
}
