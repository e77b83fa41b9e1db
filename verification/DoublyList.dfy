/** The intrusive doubly linked list of doubly_list.h: rings of links through which any object can be
    on a list. The head of a list is a link of its ring. */
module DoublyList {
  import opened Sequences

  /** The place after place `i` in a ring of `n`. */
  function After(i: nat, n: nat): nat {
    if i + 1 == n then 0 else i + 1
  }

  /** Place `i` and the one after it point to each other. */
  ghost predicate Joined(r: seq<Link>, i: nat)
    requires i < |r|
    reads r
  {
    r[i].next == r[After(i, |r|)] && r[After(i, |r|)].prev == r[i]
  }

  /** The links `r` form a ring in that order, in both directions. */
  ghost predicate Ring(r: seq<Link>)
    reads r
  {
    |r| > 0 && Distinct(r) && forall i :: 0 <= i < |r| ==> Joined(r, i)
  }

  /** The list with head `h` has the entries `s`. */
  ghost predicate List(h: Link, s: seq<Link>)
    reads [h] + s
  {
    Ring([h] + s)
  }

  /** The two rings have no link in common. */
  ghost predicate Apart(a: seq<Link>, b: seq<Link>) {
    forall x :: x in a ==> x !in b
  }

  class Link {
    var next: Link
    var prev: Link

    /** INIT_LIST_HEAD: a list without entries. */
    constructor ()
      ensures List(this, [])
    {
      next, prev := this, this;
    }

    method Init()
      modifies this
      ensures List(this, [])
    {
      next, prev := this, this;
    }
  }

  // ----- one link -----

  /** __list_add: a new link between two neighbours, place `i` and the one after it of ring `r`. */
  method Insert(n: Link, prev: Link, next: Link, ghost r: seq<Link>, ghost i: nat)
    requires Ring(r) && i < |r| && prev == r[i] && next == r[After(i, |r|)] && n !in r
    modifies n, prev, next
    ensures Ring(r[..i + 1] + [n] + r[i + 1..])
  {
    next.prev := n;
    n.next := next;
    n.prev := prev;
    prev.next := n;
    forall k | 0 <= k < |r| && k != i ensures Joined(r, k) {
      assert old(Joined(r, k)) && r[k] != r[i] && r[After(k, |r|)] != r[After(i, |r|)];
    }
    InsertedRing(r, i, n);
  }

  lemma InsertedRing(r: seq<Link>, i: nat, n: Link)
    requires i < |r| && Distinct(r) && n !in r
    requires r[i].next == n && n.next == r[After(i, |r|)] && r[After(i, |r|)].prev == n && n.prev == r[i]
    requires forall k :: 0 <= k < |r| && k != i ==> Joined(r, k)
    ensures Ring(r[..i + 1] + [n] + r[i + 1..])
  {
    var q := r[..i + 1] + [n] + r[i + 1..];
    forall k | 0 <= k < |q| ensures Joined(q, k) {
      if k < i {
        assert Joined(r, k);
      } else if k > i + 1 {
        assert Joined(r, k - 1);
      }
    }
  }

  /** __list_del: the neighbours of place `i` of the ring point to each other. */
  method Unlink(prev: Link, next: Link, ghost r: seq<Link>, ghost i: nat)
    requires Ring(r) && 0 < i < |r| && prev == r[i - 1] && next == r[After(i, |r|)]
    modifies prev`next, next`prev
    ensures Ring(r[..i] + r[i + 1..])
  {
    next.prev := prev;
    prev.next := next;
    forall k | 0 <= k < |r| && k != i && k != i - 1 ensures Joined(r, k) {
      assert old(Joined(r, k)) && r[k] != r[i - 1] && r[After(k, |r|)] != r[After(i, |r|)];
    }
    UnlinkedRing(r, i);
  }

  lemma UnlinkedRing(r: seq<Link>, i: nat)
    requires 0 < i < |r| && Distinct(r)
    requires r[i - 1].next == r[After(i, |r|)] && r[After(i, |r|)].prev == r[i - 1]
    requires forall k :: 0 <= k < |r| && k != i && k != i - 1 ==> Joined(r, k)
    ensures Ring(r[..i] + r[i + 1..])
  {
    var q := r[..i] + r[i + 1..];
    forall k | 0 <= k < |q| ensures Joined(q, k) {
      if k < i - 1 {
        assert Joined(r, k);
      } else if k > i - 1 {
        assert Joined(r, k + 1);
      }
    }
  }

  // ----- entries -----

  lemma LastIsPrev(r: seq<Link>)
    requires Ring(r)
    ensures r[0].prev == r[|r| - 1]
  {
    assert Joined(r, |r| - 1);
  }

  /** The neighbours of an entry. */
  lemma Neighbours(r: seq<Link>, i: nat)
    requires Ring(r) && 0 < i < |r|
    ensures r[i].prev == r[i - 1] && r[i].next == r[After(i, |r|)]
  {
    assert Joined(r, i - 1) && Joined(r, i);
  }

  method ListAddHead(n: Link, head: Link, ghost s: seq<Link>)
    requires List(head, s) && n != head && n !in s
    modifies n, head, head.next
    ensures List(head, [n] + s)
  {
    ghost var r := [head] + s;
    assert Joined(r, 0);
    Insert(n, head, head.next, r, 0);
    assert r[..1] + [n] + r[1..] == [head] + ([n] + s);
  }

  method ListAddTail(n: Link, head: Link, ghost s: seq<Link>)
    requires List(head, s) && n != head && n !in s
    modifies n, head, head.prev
    ensures List(head, s + [n])
  {
    ghost var r := [head] + s;
    LastIsPrev(r);
    Insert(n, head.prev, head, r, |r| - 1);
    assert r[..|r|] + [n] + r[|r|..] == [head] + (s + [n]);
  }

  /** The entries without entry `i`. */
  function Without<T>(s: seq<T>, i: nat): seq<T>
    requires i < |s|
  {
    s[..i] + s[i + 1..]
  }

  /** Entry `i` leaves the list; its own pointers stay as they are. */
  method ListDel(entry: Link, ghost head: Link, ghost s: seq<Link>, ghost i: nat)
    requires List(head, s) && i < |s| && entry == s[i]
    modifies entry.prev`next, entry.next`prev
    ensures List(head, Without(s, i)) && entry !in [head] + Without(s, i)
    ensures entry.next == old(entry.next) && entry.prev == old(entry.prev)
  {
    ghost var r := [head] + s;
    Neighbours(r, i + 1);
    Unlink(entry.prev, entry.next, r, i + 1);
    assert r[..i + 1] + r[i + 2..] == [head] + Without(s, i);
    assert r[i + 1] == entry && forall k :: 0 <= k < |r| && k != i + 1 ==> r[k] != r[i + 1];
  }

  method ListDelInit(entry: Link, ghost head: Link, ghost s: seq<Link>, ghost i: nat)
    requires List(head, s) && i < |s| && entry == s[i]
    modifies entry, entry.prev`next, entry.next`prev
    ensures List(head, Without(s, i)) && List(entry, [])
  {
    ListDel(entry, head, s, i);
    entry.Init();
  }

  /** Entry `i` of a list can go to list `head`: another one, or what is left of its own. */
  ghost predicate CanMove(from: Link, s: seq<Link>, i: nat, head: Link, t: seq<Link>)
    reads [from] + s, [head] + t
  {
    List(from, s) && i < |s| && if head == from then t == Without(s, i) else List(head, t) && Apart([from] + s, [head] + t)
  }

  /** From one list to the head of another, or of the same. */
  method ListMove(entry: Link, head: Link, ghost from: Link, ghost s: seq<Link>, ghost i: nat, ghost t: seq<Link>)
    requires CanMove(from, s, i, head, t) && entry == s[i]
    modifies entry, entry.prev, entry.next, head, head.next
    ensures List(head, [entry] + t)
    ensures head != from ==> List(from, Without(s, i))
  {
    EndsAfter(from, s, i);
    if head != from { StaysApart(from, s, i, head, t); }
    ListDel(entry, from, s, i);
    assert Joined([head] + t, 0);
    ghost var rest := [from] + Without(s, i);
    assert head in [head] + t && head.next in [head] + t && entry !in rest;
    assert head != from ==> head !in rest && head.next !in rest;
    ListAddHead(entry, head, t);
  }

  method ListMoveTail(entry: Link, head: Link, ghost from: Link, ghost s: seq<Link>, ghost i: nat, ghost t: seq<Link>)
    requires CanMove(from, s, i, head, t) && entry == s[i]
    modifies entry, entry.prev, entry.next, head, head.prev
    ensures List(head, t + [entry])
    ensures head != from ==> List(from, Without(s, i))
  {
    EndsAfter(from, s, i);
    if head != from { StaysApart(from, s, i, head, t); }
    ListDel(entry, from, s, i);
    LastIsPrev([head] + t);
    ghost var rest := [from] + Without(s, i);
    assert head in [head] + t && head.prev in [head] + t && entry !in rest;
    assert head != from ==> head !in rest && head.prev !in rest;
    ListAddTail(entry, head, t);
  }

  /** The neighbours of entry `i`, and the ends of the list with and without it. */
  lemma EndsAfter(from: Link, s: seq<Link>, i: nat)
    requires List(from, s) && i < |s|
    ensures var r := [from] + s;
      && s[i].prev == r[i] && s[i].next == r[After(i + 1, |r|)]
      && from.next == s[0] && from.prev == s[|s| - 1]
      && ([from] + Without(s, i))[After(0, |s|)] == (if i == 0 then s[i].next else s[0])
      && ([from] + Without(s, i))[|s| - 1] == (if i == |s| - 1 then s[i].prev else s[|s| - 1])
  {
    var r := [from] + s;
    Neighbours(r, i + 1);
    LastIsPrev(r);
    assert Joined(r, 0);
  }

  /** Neither the entry nor its neighbours are on the other list. */
  lemma StaysApart(from: Link, s: seq<Link>, i: nat, head: Link, t: seq<Link>)
    requires List(from, s) && i < |s| && List(head, t) && Apart([from] + s, [head] + t)
    ensures s[i] !in [head] + t && s[i].prev !in [head] + t && s[i].next !in [head] + t
    ensures Apart([from] + Without(s, i), [head] + t)
    ensures head.next in [head] + t && head.prev in [head] + t
  {
    var r := [from] + s;
    EndsAfter(from, s, i);
    assert r[i + 1] in r && r[i] in r && r[After(i + 1, |r|)] in r;
    assert forall x :: x in [from] + Without(s, i) ==> x in r;
    LastIsPrev([head] + t);
    assert Joined([head] + t, 0);
  }

  /** The head of a list is none of its entries. */
  lemma HeadNotIn(h: Link, s: seq<Link>)
    requires List(h, s)
    ensures h !in s
  {
    var r := [h] + s;
    forall i | 0 <= i < |s| ensures s[i] != h {
      assert r[0] == h && r[i + 1] == s[i] && r[0] != r[i + 1];
    }
  }

  /** A list has no entries exactly when its head points to itself. */
  method ListEmpty(head: Link, ghost s: seq<Link>) returns (empty: bool)
    requires List(head, s)
    ensures empty <==> s == []
  {
    empty := head.next == head;
    assert Joined([head] + s, 0);
  }

  // ----- whole lists -----

  /** __list_splice: the entries of one ring go between the head and the first entry of another. */
  method Splice(list: Link, head: Link, ghost t: seq<Link>, ghost s: seq<Link>)
    requires List(list, t) && t != [] && List(head, s) && Apart([list] + t, [head] + s)
    modifies list.next`prev, list.prev`next, head`next, head.next`prev
    ensures List(head, t + s)
    ensures list.next == old(list.next) && list.prev == old(list.prev)
  {
    ghost var q, r := [list] + t, [head] + s;
    SpliceEnds(q, r);
    var first, last, at := list.next, list.prev, head.next;
    first.prev := head;
    head.next := first;
    last.next := at;
    at.prev := last;
    forall k | 1 <= k < |q| - 1 ensures Joined(q, k) {
      assert old(Joined(q, k)) && q[k] != q[|q| - 1] && q[k + 1] != q[1];
      assert q[k] in q && q[k + 1] in q && head in r && at in r;
    }
    forall k | 1 <= k < |r| ensures r[k].next == r[After(k, |r|)] && r[After(k, |r|)].prev == r[k] {
      assert old(Joined(r, k)) && r[k] != r[0] && r[After(k, |r|)] != r[After(0, |r|)];
      assert r[k] in r && r[After(k, |r|)] in r && first in q && last in q;
    }
    assert Apart(q, r) && q[1] != head && q[|q| - 1] != head && at != q[1];
    assert r[0].next == q[1] && q[1].prev == r[0];
    assert q[|q| - 1].next == r[After(0, |r|)] && r[After(0, |r|)].prev == q[|q| - 1];
    SplicedRing(q, r);
    assert [head] + (t + s) == [r[0]] + q[1..] + r[1..];
  }

  lemma SpliceEnds(q: seq<Link>, r: seq<Link>)
    requires Ring(q) && |q| > 1 && Ring(r)
    ensures q[0].next == q[1] && q[0].prev == q[|q| - 1] && r[0].next == r[After(0, |r|)]
  {
    LastIsPrev(q);
    assert Joined(q, 0) && Joined(r, 0);
  }

  lemma SplicedRing(q: seq<Link>, r: seq<Link>)
    requires |q| > 1 && |r| > 0 && Distinct(q) && Distinct(r) && Apart(q, r)
    requires r[0].next == q[1] && q[1].prev == r[0]
    requires q[|q| - 1].next == r[After(0, |r|)] && r[After(0, |r|)].prev == q[|q| - 1]
    requires forall k :: 1 <= k < |q| - 1 ==> Joined(q, k)
    requires forall k :: 1 <= k < |r| ==> Joined(r, k)
    ensures Ring([r[0]] + q[1..] + r[1..])
  {
    var a := [r[0]] + q[1..] + r[1..];
    assert forall x :: x in q ==> x !in r;
    forall i, j | 0 <= i < j < |a| ensures a[i] != a[j] {
      if 1 <= i < |q| { assert a[i] == q[i] && q[i] in q; } else if i >= |q| { assert a[i] == r[i - |q| + 1]; }
      if 1 <= j < |q| { assert a[j] == q[j] && q[j] in q; } else if j >= |q| { assert a[j] == r[j - |q| + 1]; }
      assert r[0] in r && (j >= |q| ==> a[j] in r);
    }
    forall k | 0 <= k < |a| ensures Joined(a, k) {
      if 1 <= k < |q| - 1 {
        assert Joined(q, k);
      } else if k >= |q| {
        assert Joined(r, k - |q| + 1);
      }
    }
  }

  method ListSplice(list: Link, head: Link, ghost t: seq<Link>, ghost s: seq<Link>)
    requires List(list, t) && List(head, s) && Apart([list] + t, [head] + s)
    modifies list.next`prev, list.prev`next, head`next, head.next`prev
    ensures List(head, t + s)
    ensures t == [] ==> List(list, [])
  {
    var empty := ListEmpty(list, t);
    if !empty {
      Splice(list, head, t, s);
    } else {
      assert t + s == s;
    }
  }

  method ListSpliceInit(list: Link, head: Link, ghost t: seq<Link>, ghost s: seq<Link>)
    requires List(list, t) && List(head, s) && Apart([list] + t, [head] + s)
    modifies list, list.next`prev, list.prev`next, head`next, head.next`prev
    ensures List(head, t + s) && List(list, [])
  {
    var empty := ListEmpty(list, t);
    if !empty {
      HeadNotIn(list, t);
      assert list in [list] + t && list !in [head] + s;
      Splice(list, head, t, s);
      assert list !in [head] + (t + s);
      list.Init();
    } else {
      assert t + s == s;
    }
  }

  // ----- walking -----

  /** list_size */
  method ListSize(list: Link, ghost s: seq<Link>) returns (n: nat)
    requires List(list, s)
    ensures n == |s|
  {
    ghost var r := [list] + s;
    HeadNotIn(list, s);
    n := 0;
    assert Joined(r, 0);
    var pos := list.next;
    while pos != list
      invariant 0 <= n <= |s| && pos == if n < |s| then s[n] else list
      decreases |s| - n
    {
      assert Joined(r, n + 1);
      pos := pos.next;
      n := n + 1;
    }
  }

  /** The entries that a sweep keeps. */
  function Kept<T>(s: seq<T>, drop: T -> bool): seq<T> {
    if s == [] then [] else (if drop(s[0]) then [] else [s[0]]) + Kept(s[1..], drop)
  }

  lemma {:induction false} KeptMore<T>(s: seq<T>, x: T, drop: T -> bool)
    ensures Kept(s + [x], drop) == Kept(s, drop) + (if drop(x) then [] else [x])
    decreases |s|
  {
    if s == [] {
      assert [x][1..] == [] && Kept([x], drop) == (if drop(x) then [] else [x]) + Kept([], drop);
    } else {
      assert (s + [x])[1..] == s[1..] + [x];
      KeptMore(s[1..], x, drop);
    }
  }

  lemma {:induction false} KeptFrom<T>(s: seq<T>, drop: T -> bool)
    ensures forall x <- Kept(s, drop) :: x in s
    decreases |s|
  {
    if s != [] { KeptFrom(s[1..], drop); }
  }

  /** list_for_each_safe with a body that deletes some entries: every entry of the list is visited
      once, in order, and what was not deleted remains. */
  method Sweep(head: Link, drop: Link -> bool, ghost s: seq<Link>) returns (visited: seq<Link>)
    requires List(head, s)
    modifies [head] + s
    ensures visited == s && List(head, Kept(s, drop))
  {
    visited := [];
    assert Kept(s[..0], drop) + s[0..] == s;
    FirstEntry(head, s);
    var pos := head.next;
    var n := pos.next;
    ghost var i := 0;
    NextEntry(head, s, 0, drop);
    while pos != head
      invariant Sweeping(head, s, i, drop, pos, n) && visited == s[..i]
      decreases |s| - i
    {
      visited := visited + [pos];
      pos, n := SweepOne(head, pos, n, drop, s, i);
      i := i + 1;
    }
    SweepEnd(head, s, i, drop, pos, n);
  }

  /** The entries before place `i` have been visited and some deleted; `pos` and `n` are the two next. */
  ghost predicate Sweeping(head: Link, s: seq<Link>, i: nat, drop: Link -> bool, pos: Link, n: Link)
    reads if i <= |s| then [head] + (Kept(s[..i], drop) + s[i..]) else []
  {
    && i <= |s| && List(head, Kept(s[..i], drop) + s[i..])
    && pos == (if i < |s| then s[i] else head)
    && (i < |s| ==> n == if i + 1 < |s| then s[i + 1] else head)
  }

  lemma FirstEntry(head: Link, s: seq<Link>)
    requires List(head, s)
    ensures head.next == if s == [] then head else s[0]
  {
    assert Joined([head] + s, 0);
  }

  lemma SweepEnd(head: Link, s: seq<Link>, i: nat, drop: Link -> bool, pos: Link, n: Link)
    requires Sweeping(head, s, i, drop, pos, n) && pos == head
    ensures i == |s| && s[..i] == s && List(head, Kept(s, drop))
  {
    HeadNotIn(head, Kept(s[..i], drop) + s[i..]);
    assert s[..i] == s && Kept(s[..i], drop) + s[i..] == Kept(s, drop);
  }

  lemma NeighboursInside(head: Link, s: seq<Link>, i: nat, drop: Link -> bool)
    requires i < |s| && List(head, Kept(s[..i], drop) + s[i..])
    ensures s[i].prev in [head] + s && s[i].next in [head] + s
  {
    var r := [head] + (Kept(s[..i], drop) + s[i..]);
    var k := |Kept(s[..i], drop)| + 1;
    KeptFrom(s[..i], drop);
    assert r[k] == s[i];
    Neighbours(r, k);
    assert forall x <- r :: x in [head] + s;
  }

  lemma KeptNext<T>(s: seq<T>, i: nat, drop: T -> bool)
    requires i < |s|
    ensures var (kept, all) := (Kept(s[..i], drop), Kept(s[..i], drop) + s[i..]);
      Kept(s[..i + 1], drop) + s[i + 1..] == if drop(s[i]) then Without(all, |kept|) else all
  {
    KeptMore(s[..i], s[i], drop);
    assert s[..i] + [s[i]] == s[..i + 1] && [s[i]] + s[i + 1..] == s[i..];
  }

  lemma NextEntry(head: Link, s: seq<Link>, i: nat, drop: Link -> bool)
    requires i < |s| ==> List(head, Kept(s[..i], drop) + s[i..])
    ensures i < |s| ==> s[i].next == if i + 1 < |s| then s[i + 1] else head
  {
    if i < |s| {
      var all, k := Kept(s[..i], drop) + s[i..], |Kept(s[..i], drop)|;
      assert all[k] == s[i];
      Neighbours([head] + all, k + 1);
    }
  }

  /** One round: the body may delete the current entry and give its memory back, so that nothing is known
      of its pointers; the next entry was saved before. */
  method SweepOne(head: Link, pos: Link, n: Link, drop: Link -> bool, ghost s: seq<Link>, ghost i: nat)
    returns (pos': Link, n': Link)
    requires i < |s| && Sweeping(head, s, i, drop, pos, n)
    modifies [head] + s
    ensures Sweeping(head, s, i + 1, drop, pos', n')
  {
    Body(head, pos, drop, s, i);
    NextEntry(head, s, i + 1, drop);
    pos' := n;
    n' := pos'.next;
  }

  method Body(head: Link, pos: Link, drop: Link -> bool, ghost s: seq<Link>, ghost i: nat)
    requires i < |s| && pos == s[i] && List(head, Kept(s[..i], drop) + s[i..])
    modifies [head] + s
    ensures List(head, Kept(s[..i + 1], drop) + s[i + 1..])
  {
    ghost var all, k := Kept(s[..i], drop) + s[i..], |Kept(s[..i], drop)|;
    KeptNext(s, i, drop);
    assert ([head] + s)[i + 1] == pos && all[k] == pos;
    if drop(pos) {
      NeighboursInside(head, s, i, drop);
      ListDel(pos, head, all, k);
      GiveBack(pos, head, Without(all, k));
    }
  }

  method GiveBack(entry: Link, ghost head: Link, ghost s: seq<Link>)
    requires List(head, s) && entry !in [head] + s
    modifies entry
    ensures List(head, s)
  {
    entry.next, entry.prev := *, *;
    assert forall k :: 0 <= k < |[head] + s| ==> old(Joined([head] + s, k)) && ([head] + s)[k] != entry;
  }
}
