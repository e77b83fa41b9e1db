/** The list of buttons that are ticked (button_start, button_stop, button_ticks). */
module ButtonList {
  import opened Sequences
  import opened Machine
  import opened Button

  class Btn {
    var ticks: nat
    var repeat: nat
    var event: int
    var state: nat
    var debounceCnt: nat
    var buttonLevel: nat
    const activeLevel: nat
    var next: Btn?
    /** The events whose callbacks have been made. */
    var events: seq<Event>

    constructor (read: nat, activeLevel: nat)
      ensures S() == Init(read, activeLevel) && events == [] && next == null
    {
      ticks, repeat, event, state, debounceCnt := 0, 0, NONE_PRESS, 0, 0;
      buttonLevel, this.activeLevel := read % 2, activeLevel % 2;
      events, next := [], null;
    }

    ghost function S(): State
      reads this`ticks, this`repeat, this`event, this`state, this`debounceCnt, this`buttonLevel
    {
      State(ticks, repeat, event, state, debounceCnt, activeLevel, buttonLevel)
    }

    /** button_handler: counting, debouncing, then the state machine. */
    method ButtonHandler(read: nat)
      modifies this`ticks, this`repeat, this`event, this`state, this`debounceCnt, this`buttonLevel, this`events
      ensures S() == Handle(old(S()), read).s && events == old(events) + Handle(old(S()), read).events
    {
      if state > 0 { ticks := U16(ticks + 1); }
      if read != buttonLevel {
        debounceCnt := debounceCnt + 1;
        if debounceCnt >= DEBOUNCE_TICKS {
          buttonLevel := read % 2;
          debounceCnt := 0;
        }
      } else {
        debounceCnt := 0;
      }
      Switch();
    }

    /** The switch of button_handler. */
    method Switch()
      modifies this`ticks, this`repeat, this`event, this`state, this`events
      ensures S() == Advance(old(S())).s && events == old(events) + Advance(old(S())).events
    {
      var pressed := buttonLevel == activeLevel;
      ghost var seen := events;
      assert seen + [] == seen;
      if state == 0 {
        if pressed {
          Callback(PressDown);
          ticks, repeat, state := 0, 1, 1;
        } else {
          event := NONE_PRESS;
        }
      } else if state == 1 {
        if !pressed {
          Callback(PressUp);
          ticks, state := 0, 2;
        } else if ticks > LONG_TICKS {
          Callback(LongPressStart);
          state := 5;
        }
      } else if state == 2 {
        if pressed {
          Callback(PressDown);
          repeat := (repeat + 1) % 16;
          Callback(PressRepeat);
          ticks, state := 0, 3;
          assert seen + [PressDown] + [PressRepeat] == seen + [PressDown, PressRepeat];
        } else if ticks > SHORT_TICKS {
          if repeat == 1 { Callback(SingleClick); } else if repeat == 2 { Callback(DoubleClick); }
          state := 0;
        }
      } else if state == 3 {
        if !pressed {
          Callback(PressUp);
          if ticks < SHORT_TICKS { ticks, state := 0, 2; } else { state := 0; }
        }
      } else if state == 5 {
        if pressed {
          Callback(LongPressHold);
        } else {
          Callback(PressUp);
          state := 0;
        }
      }
    }

    /** The event is recorded and its callback made. */
    method Callback(e: Event)
      modifies this`event, this`events
      ensures event == Code(e) && events == old(events) + [e]
    {
      event, events := Code(e), events + [e];
    }
  }

  /** The button at place `i`, or the end. */
  function At(bs: seq<Btn>, i: nat): Btn? {
    if i < |bs| then bs[i] else null
  }

  ghost predicate Linked(bs: seq<Btn>, i: nat)
    requires i < |bs|
    reads bs`next
  {
    bs[i].next == At(bs, i + 1)
  }

  /** The buttons `bs` are chained from `head`. */
  ghost predicate Chain(head: Btn?, bs: seq<Btn>)
    reads bs`next
  {
    head == At(bs, 0) && Distinct(bs) && forall i :: 0 <= i < |bs| ==> Linked(bs, i)
  }

  lemma ChainCons(b: Btn, bs: seq<Btn>)
    requires Chain(b.next, bs) && b !in bs
    ensures Chain(b, [b] + bs)
  {
    var q := [b] + bs;
    forall k | 0 <= k < |q| ensures Linked(q, k) {
      if k > 0 { assert Linked(bs, k - 1) && At(q, k + 1) == At(bs, k); }
    }
  }

  /** The chain without the place between `a` and `b`. */
  lemma ChainCut(head: Btn?, all: seq<Btn>, a: seq<Btn>, b: seq<Btn>)
    requires |all| == |a| + 1 + |b| && a <= all && all[|a| + 1..] == b && Distinct(all)
    requires if a == [] then head == At(b, 0) else head == a[0] && a[|a| - 1].next == At(b, 0)
    requires forall i :: 0 <= i < |all| && i != |a| - 1 ==> Linked(all, i)
    ensures Chain(head, a + b)
  {
    var q := a + b;
    forall k | 0 <= k < |q| ensures Linked(q, k) {
      if k < |a| - 1 {
        assert Linked(all, k) && q[k] == all[k] && At(q, k + 1) == At(all, k + 1);
      } else if k >= |a| {
        assert Linked(all, k + 1) && q[k] == all[k + 1] && At(q, k + 1) == At(all, k + 2);
      }
    }
    forall i, j | 0 <= i < j < |q| ensures q[i] != q[j] {
      assert q[i] == all[if i < |a| then i else i + 1] && q[j] == all[if j < |a| then j else j + 1];
    }
  }

  predicate Among(a: seq<Btn>, b: seq<Btn>) {
    forall x :: x in a ==> x in b
  }

  /** The buttons before place `i` without `x` are `kept`; the pointer to move next is in the last. */
  predicate Stopping(bs: seq<Btn>, i: nat, x: Btn, prev: Btn?, kept: seq<Btn>) {
    && i <= |bs| && kept == Removing(bs[..i], x) && Among(kept, bs)
    && prev == if kept == [] then null else kept[|kept| - 1]
  }

  /** The button has had one tick since its state was `s` and its events were `events`. */
  ghost predicate Ticked(b: Btn, s: State, events: seq<Event>, level: Btn -> nat)
    reads b
  {
    b.S() == Handle(s, level(b)).s && b.events == events + Handle(s, level(b)).events
  }

  /** The buttons before place `i` have been ticked, the others have not. */
  ghost predicate Halfway(bs: seq<Btn>, i: nat, states: seq<State>, seen: seq<seq<Event>>, level: Btn -> nat)
    reads bs
  {
    && |states| == |seen| == |bs| && i <= |bs|
    && (forall k :: 0 <= k < i ==> Ticked(bs[k], states[k], seen[k], level))
    && (forall k :: i <= k < |bs| ==> bs[k].S() == states[k] && bs[k].events == seen[k])
  }

  /** The last of the buttons, if any. */
  ghost function Last(bs: seq<Btn>): set<Btn> {
    if bs == [] then {} else {bs[|bs| - 1]}
  }

  function Removing<T(==)>(s: seq<T>, x: T): seq<T> {
    if s == [] then [] else (if s[0] == x then [] else [s[0]]) + Removing(s[1..], x)
  }

  lemma {:induction false} RemovingMore<T>(s: seq<T>, y: T, x: T)
    ensures Removing(s + [y], x) == Removing(s, x) + (if y == x then [] else [y])
    decreases |s|
  {
    if s == [] {
      assert [y][1..] == [] && Removing([y], x) == (if y == x then [] else [y]) + Removing([], x);
    } else {
      assert (s + [y])[1..] == s[1..] + [y];
      RemovingMore(s[1..], y, x);
    }
  }

  lemma NextPlace(bs: seq<Btn>, i: nat, kept: seq<Btn>, x: Btn)
    requires i < |bs|
    ensures kept + bs[i..] == kept + [bs[i]] + bs[i + 1..] && At(bs[i + 1..], 0) == At(bs, i + 1)
    ensures Removing(bs[..i + 1], x) == Removing(bs[..i], x) + (if bs[i] == x then [] else [bs[i]])
  {
    assert bs[i..] == [bs[i]] + bs[i + 1..] && bs[..i + 1] == bs[..i] + [bs[i]];
    RemovingMore<Btn>(bs[..i], bs[i], x);
  }

  class Buttons {
    var head: Btn?

    constructor ()
      ensures Chain(head, [])
    {
      head := null;
    }

    /** button_start: a button that is not yet on the list goes to its front. */
    method ButtonStart(handle: Btn, ghost bs: seq<Btn>) returns (r: int)
      requires Chain(head, bs)
      modifies this, handle`next
      ensures r == if handle in bs then -1 else 0
      ensures Chain(head, if handle in bs then bs else [handle] + bs)
    {
      var target := head;
      ghost var i := 0;
      while target != null
        invariant i <= |bs| && target == At(bs, i) && handle !in bs[..i] && Chain(head, bs)
        decreases |bs| - i
      {
        if target == handle { return -1; }
        assert Linked(bs, i);
        target, i := target.next, i + 1;
      }
      assert bs[..i] == bs;
      handle.next := head;
      assert forall k :: 0 <= k < |bs| ==> old(Linked(bs, k)) && bs[k] != handle && Linked(bs, k);
      ChainCons(handle, bs);
      head := handle;
      r := 0;
    }

    /** The place that points to the current entry, `prev` or the head, now points past it. */
    method Bypass(prev: Btn?, entry: Btn, ghost kept: seq<Btn>, ghost rest: seq<Btn>)
      requires Chain(head, kept + [entry] + rest)
      requires prev == if kept == [] then null else kept[|kept| - 1]
      modifies this, Last(kept)`next
      ensures Chain(head, kept + rest) && entry.next == old(entry.next)
    {
      ghost var all, n := kept + [entry] + rest, |kept|;
      assert all[n] == entry && Linked(all, n) && At(all, n + 1) == At(rest, 0) && all[n + 1..] == rest;
      assert n > 0 ==> all[n - 1] == prev && all[n - 1] != all[n];
      if prev == null { head := entry.next; } else { prev.next := entry.next; }
      forall k | 0 <= k < |all| && k != n - 1 ensures Linked(all, k) {
        assert old(Linked(all, k)) && (n > 0 ==> all[k] != all[n - 1]);
      }
      ChainCut(head, all, kept, rest);
    }

    /** One round of button_stop: the entry is kept, or bypassed. */
    method StopRound(prev0: Btn?, e: Btn, handle: Btn, ghost bs: seq<Btn>, ghost i: nat, ghost kept0: seq<Btn>)
      returns (prev: Btn?, entry: Btn?, ghost kept: seq<Btn>)
      requires i < |bs| && e == bs[i] && Stopping(bs, i, handle, prev0, kept0) && Chain(head, kept0 + bs[i..])
      modifies this, bs`next
      ensures Stopping(bs, i + 1, handle, prev, kept) && Chain(head, kept + bs[i + 1..])
      ensures entry == At(bs, i + 1)
    {
      ghost var rest := bs[i + 1..];
      NextPlace(bs, i, kept0, handle);
      EntryNext(head, kept0, e, rest);
      assert kept0 + [] == kept0;
      if e == handle {
        assert forall x :: x in Last(kept0) ==> x in bs;
        Bypass(prev0, e, kept0, rest);
        prev, kept := prev0, kept0;
      } else {
        prev, kept := e, kept0 + [e];
      }
      entry := e.next;
    }

    /** button_stop: the button leaves the list, wherever it is. */
    method ButtonStop(handle: Btn, ghost bs: seq<Btn>)
      requires Chain(head, bs)
      modifies this, bs`next
      ensures Chain(head, Removing(bs, handle))
    {
      var prev: Btn?, entry := null, head;
      ghost var i, kept: seq<Btn> := 0, [];
      assert kept + bs[0..] == bs && bs[..0] == [];
      while entry != null
        invariant i <= |bs| && entry == At(bs, i)
        invariant Stopping(bs, i, handle, prev, kept) && Chain(head, kept + bs[i..])
        decreases |bs| - i
      {
        prev, entry, kept := StopRound(prev, entry, handle, bs, i, kept);
        i := i + 1;
      }
      assert bs[..i] == bs && kept + bs[i..] == kept;
    }

    /** button_ticks: every button on the list is ticked once, in order. */
    method ButtonTicks(level: Btn -> nat, ghost bs: seq<Btn>)
      requires Chain(head, bs)
      modifies bs`ticks, bs`repeat, bs`event, bs`state, bs`debounceCnt, bs`buttonLevel, bs`events
      ensures Chain(head, bs)
      ensures forall b :: b in bs ==>
        b.S() == Handle(old(b.S()), level(b)).s && b.events == old(b.events) + Handle(old(b.S()), level(b)).events
    {
      ghost var states := seq(|bs|, k requires 0 <= k < |bs| reads bs => bs[k].S());
      ghost var seen := seq(|bs|, k requires 0 <= k < |bs| reads bs => bs[k].events);
      var target := head;
      ghost var i := 0;
      while target != null
        invariant i <= |bs| && target == At(bs, i) && Chain(head, bs) && Halfway(bs, i, states, seen, level)
        decreases |bs| - i
      {
        target := TickOne(target, level, bs, i, states, seen);
        i := i + 1;
      }
      assert forall k :: 0 <= k < |bs| ==> Ticked(bs[k], states[k], seen[k], level);
    }

    /** One button is ticked, and the next one is found. */
    method TickOne(target: Btn, level: Btn -> nat, ghost bs: seq<Btn>, ghost i: nat, ghost states: seq<State>, ghost seen: seq<seq<Event>>)
      returns (next: Btn?)
      requires i < |bs| && target == bs[i] && Chain(head, bs) && Halfway(bs, i, states, seen, level)
      modifies target`ticks, target`repeat, target`event, target`state, target`debounceCnt, target`buttonLevel, target`events
      ensures next == At(bs, i + 1) && Chain(head, bs) && Halfway(bs, i + 1, states, seen, level)
    {
      assert Linked(bs, i) && forall k :: 0 <= k < |bs| && k != i ==> bs[k] != target;
      target.ButtonHandler(level(target));
      assert Ticked(bs[i], states[i], seen[i], level);
      next := target.next;
    }
  }

  lemma EntryNext(head: Btn?, kept: seq<Btn>, entry: Btn, rest: seq<Btn>)
    requires Chain(head, kept + [entry] + rest)
    ensures entry.next == At(rest, 0)
  {
    var all := kept + [entry] + rest;
    assert all[|kept|] == entry && Linked(all, |kept|);
  }
}
