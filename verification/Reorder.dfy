// The B-frame reorder ring: a small sorted array that puts decoded frames into display order.

module Reorder {
  import opened Bytes

  const REORDER_MAX := 4

  type int32 = x: int | -0x8000_0000 <= x < 0x8000_0000

  /** An image buffer and its presentation time. Buffers are identified by a number; 0 is NULL. */
  datatype Entry = Entry(frame: nat, pts: int32)

  // ---------------------------------------------------------------- insertion

  predicate Sorted(s: seq<Entry>) {
    forall i, j :: 0 <= i < j < |s| ==> s[i].pts <= s[j].pts
  }

  /** The first position whose time is greater, or the end. */
  function Position(ring: seq<Entry>, pts: int32): (i: nat)
    ensures i <= |ring|
    ensures i < |ring| ==> pts < ring[i].pts
    ensures forall k :: 0 <= k < i ==> ring[k].pts <= pts
  {
    if ring == [] || pts < ring[0].pts then 0 else 1 + Position(ring[1..], pts)
  }

  datatype Inserted = Inserted(ring: seq<Entry>, out: Option<Entry>, dropped: seq<Entry>)

  function Placed(ring: seq<Entry>, e: Entry, at: nat): seq<Entry>
    requires at <= |ring|
  {
    ring[..at] + [e] + ring[at..]
  }

  /** vcamReorderInsert, with its overflow branch. `dropped` is what is lost: an evicted entry, or `e` itself. */
  function Insert(ring: seq<Entry>, e: Entry): Inserted
    requires |ring| <= REORDER_MAX
  {
    var at := Position(ring, e.pts);
    if |ring| == REORDER_MAX && at == REORDER_MAX then Inserted(ring, None, [e])
    else
      var kept := if |ring| == REORDER_MAX then ring[..REORDER_MAX - 1] else ring;
      var placed := Placed(kept, e, at);
      var dropped := if |ring| == REORDER_MAX then [ring[REORDER_MAX - 1]] else [];
      if |placed| < 2 then Inserted(placed, None, dropped)
      else Inserted(placed[1..], Some(placed[0]), dropped)
  }

  function Out(o: Option<Entry>): seq<Entry> {
    if o.Some? then [o.value] else []
  }

  /** Insertion keeps a ring of any size sorted, hands out its least time, and loses or invents no frame. */
  lemma InsertKeepsOrder(ring: seq<Entry>, e: Entry)
    requires |ring| <= 4 && Sorted(ring)
    ensures var i := Insert(ring, e);
            && |i.ring| <= 4 && Sorted(Out(i.out) + i.ring)
            && multiset(Out(i.out) + i.ring + i.dropped) == multiset(ring + [e])
            && |i.dropped| == (if |ring| < 4 then 0 else 1)
  {
    hide Sorted, Position, Placed;
    var at := Position(ring, e.pts);
    PositionSplits(ring, e.pts);
    if |ring| < REORDER_MAX {
      PlacedSorts(ring, e, at);
      FirstSplits(ring, e, at);
    } else if at < REORDER_MAX {
      var kept, last := ring[..REORDER_MAX - 1], ring[REORDER_MAX - 1];
      assert ring == kept + [last];
      SortedPrefix(ring, REORDER_MAX - 1);
      PlacedSorts(kept, e, at);
      FirstSplits(kept, e, at);
    } else {
      assert [] + ring == ring;
    }
  }

  /** What the overflow branch gives up is the latest of all. */
  lemma WorstIsDropped(ring: seq<Entry>, e: Entry)
    requires |ring| <= 4 && Sorted(ring)
    ensures var i := Insert(ring, e);
            forall x, d :: x in Out(i.out) + i.ring && d in i.dropped ==> x.pts <= d.pts
  {
    hide Position, Placed, Sorted, Insert, Out;
    var at := Position(ring, e.pts);
    if |ring| == REORDER_MAX {
      InsertFull(ring, e);
      LastIsLatest(ring);
      if at < REORDER_MAX {
        assert ring[at] in ring;
        PlacedMembers(ring, e, at);
      } else {
        assert ring[REORDER_MAX - 1] in ring;
      }
    } else {
      RoomDropsNothing(ring, e);
    }
  }

  lemma RoomDropsNothing(ring: seq<Entry>, e: Entry)
    requires |ring| < REORDER_MAX
    ensures Insert(ring, e).dropped == []
  {
    hide Position, Placed;
  }

  lemma InsertFull(ring: seq<Entry>, e: Entry)
    requires |ring| == REORDER_MAX
    ensures var at, i := Position(ring, e.pts), Insert(ring, e);
            if at == REORDER_MAX then Out(i.out) + i.ring == ring && i.dropped == [e]
            else Out(i.out) + i.ring == Placed(ring[..REORDER_MAX - 1], e, at) && i.dropped == [ring[REORDER_MAX - 1]]
  {
    hide Position, Placed;
    var at := Position(ring, e.pts);
    if at < REORDER_MAX {
      FirstSplits(ring[..REORDER_MAX - 1], e, at);
    } else {
      assert [] + ring == ring;
    }
  }

  lemma LastIsLatest(ring: seq<Entry>)
    requires ring != [] && Sorted(ring)
    ensures forall x :: x in ring ==> x.pts <= ring[|ring| - 1].pts
  {
  }

  lemma PlacedMembers(ring: seq<Entry>, e: Entry, at: nat)
    requires at < |ring|
    ensures forall x :: x in Placed(ring[..|ring| - 1], e, at) ==> x == e || x in ring
  {
  }

  lemma PositionSplits(ring: seq<Entry>, pts: int32)
    ensures var at := Position(ring, pts); Splits(ring, pts, at)
    ensures Sorted(ring) ==> forall k :: 0 <= k < |ring| ==> (pts < ring[k].pts <==> Position(ring, pts) <= k)
  {
    var at := Position(ring, pts);
    if Sorted(ring) && at < |ring| {
      forall k | at <= k < |ring| ensures pts < ring[k].pts {
        assert ring[at].pts <= ring[k].pts;
      }
    }
  }

  /** Everything before `at` is not later than `pts`, and the entry at it, if there is one, is. */
  ghost predicate Splits(ring: seq<Entry>, pts: int32, at: nat) {
    && at <= |ring|
    && (at < |ring| ==> pts < ring[at].pts)
    && forall k :: 0 <= k < at ==> ring[k].pts <= pts
  }

  lemma SortedPrefix(s: seq<Entry>, n: nat)
    requires n <= |s| && Sorted(s)
    ensures Sorted(s[..n])
  {
  }

  lemma PlacedSorts(ring: seq<Entry>, e: Entry, at: nat)
    requires Sorted(ring) && at <= |ring| && (at < |ring| ==> e.pts < ring[at].pts)
    requires forall k :: 0 <= k < at ==> ring[k].pts <= e.pts
    ensures Sorted(Placed(ring, e, at)) && multiset(Placed(ring, e, at)) == multiset(ring + [e])
  {
    PlacedMultiset(ring, e, at);
    var p := Placed(ring, e, at);
    forall i, j | 0 <= i < j < |p| ensures p[i].pts <= p[j].pts {
      var x, y := PlacedAt(ring, e, at, i), PlacedAt(ring, e, at, j);
      if j > at {
        assert ring[at].pts <= ring[j - 1].pts;
      }
    }
  }

  lemma PlacedMultiset(ring: seq<Entry>, e: Entry, at: nat)
    requires at <= |ring|
    ensures multiset(Placed(ring, e, at)) == multiset(ring + [e])
  {
    assert ring == ring[..at] + ring[at..];
  }

  function PlacedAt(ring: seq<Entry>, e: Entry, at: nat, i: nat): (x: Entry)
    requires at <= |ring| && i <= |ring|
    ensures x == Placed(ring, e, at)[i]
  {
    if i < at then ring[i] else if i == at then e else ring[i - 1]
  }

  lemma FirstSplits(ring: seq<Entry>, e: Entry, at: nat)
    requires at <= |ring|
    ensures var p := Placed(ring, e, at); |p| == |ring| + 1 && p == [p[0]] + p[1..] && [] + p == p && p + [] == p
  {
  }

  // ---------------------------------------------------------------- a whole run is one bubble-sort pass

  /** One pass of bubble sort: neighbours are exchanged when the right one is strictly smaller. */
  function BubblePass(s: seq<Entry>): (r: seq<Entry>)
    ensures |r| == |s|
    decreases |s|
  {
    if |s| < 2 then s
    else if s[1].pts < s[0].pts then [s[1]] + BubblePass([s[0]] + s[2..])
    else [s[0]] + BubblePass(s[1..])
  }

  datatype Run = Run(shown: seq<Entry>, ring: seq<Entry>)

  /** Feeding frames one after the other into a ring: what comes out and what stays. */
  function Feed(ring: seq<Entry>, xs: seq<Entry>): (r: Run)
    requires |ring| <= 1
    ensures |r.ring| <= 1
    decreases |xs|
  {
    if xs == [] then Run([], ring) else
    var i := Insert(ring, xs[0]);
    var more := Feed(i.ring, xs[1..]);
    Run(Out(i.out) + more.shown, more.ring)
  }

  /** What the ring does between calls, when it holds at most one frame: the overflow branch is out of reach. */
  lemma InsertIntoOne(ring: seq<Entry>, e: Entry)
    requires |ring| <= 1
    ensures Insert(ring, e) ==
            if ring == [] then Inserted([e], None, [])
            else if e.pts < ring[0].pts then Inserted(ring, Some(e), [])
            else Inserted([e], Some(ring[0]), [])
  {
  }

  /** Frames shown and the frame still held are the bubble-sort pass of the frames that arrived. */
  lemma {:induction false} FeedIsBubblePass(ring: seq<Entry>, xs: seq<Entry>)
    requires |ring| <= 1
    ensures Feed(ring, xs).shown + Feed(ring, xs).ring == BubblePass(ring + xs)
    decreases |xs|
  {
    if xs == [] {
      assert ring + xs == ring && [] + ring == ring;
    } else {
      hide Insert, BubblePass, Feed;
      var i := Insert(ring, xs[0]);
      InsertIntoOne(ring, xs[0]);
      FeedIsBubblePass(i.ring, xs[1..]);
      FeedStep(ring, xs);
      PassStep(ring, xs);
    }
  }

  lemma PassStep(ring: seq<Entry>, xs: seq<Entry>)
    requires |ring| <= 1 && xs != []
    ensures var i := Insert(ring, xs[0]); BubblePass(ring + xs) == Out(i.out) + BubblePass(i.ring + xs[1..])
  {
    hide Insert, BubblePass;
    var e, rest := xs[0], xs[1..];
    InsertIntoOne(ring, e);
    if ring == [] {
      EmptyPass(xs);
    } else {
      OnePass(ring[0], ring, xs);
    }
  }

  lemma EmptyPass(xs: seq<Entry>)
    requires xs != []
    ensures BubblePass([] + xs) == [] + BubblePass([xs[0]] + xs[1..])
  {
    hide BubblePass;
    assert [] + xs == [xs[0]] + xs[1..];
  }

  lemma OnePass(h: Entry, ring: seq<Entry>, xs: seq<Entry>)
    requires ring == [h] && xs != []
    ensures BubblePass(ring + xs) == if xs[0].pts < h.pts then [xs[0]] + BubblePass(ring + xs[1..])
                                     else [h] + BubblePass([xs[0]] + xs[1..])
  {
    hide BubblePass;
    assert ring + xs == [h, xs[0]] + xs[1..];
    BubbleStep(h, xs[0], xs[1..]);
  }

  lemma FeedStep(ring: seq<Entry>, xs: seq<Entry>)
    requires |ring| <= 1 && xs != []
    ensures var i := Insert(ring, xs[0]);
            |i.ring| <= 1 && Feed(ring, xs).shown + Feed(ring, xs).ring
            == Out(i.out) + (Feed(i.ring, xs[1..]).shown + Feed(i.ring, xs[1..]).ring)
  {
    hide Insert, Feed, Out;
    InsertIntoOne(ring, xs[0]);
    var i := Insert(ring, xs[0]);
    var more := Feed(i.ring, xs[1..]);
    FeedFirst(ring, xs);
    assert Out(i.out) + more.shown + more.ring == Out(i.out) + (more.shown + more.ring);
  }

  lemma FeedFirst(ring: seq<Entry>, xs: seq<Entry>)
    requires |ring| <= 1 && xs != []
    ensures var i := Insert(ring, xs[0]);
            && |i.ring| <= 1
            && var more := Feed(i.ring, xs[1..]); Feed(ring, xs) == Run(Out(i.out) + more.shown, more.ring)
  {
    hide Insert;
    InsertIntoOne(ring, xs[0]);
  }

  lemma BubbleStep(h: Entry, x: Entry, rest: seq<Entry>)
    ensures BubblePass([h, x] + rest)
         == if x.pts < h.pts then [x] + BubblePass([h] + rest) else [h] + BubblePass([x] + rest)
  {
    var s := [h, x] + rest;
    assert s[2..] == rest && s[1..] == [x] + rest;
  }

  /** The pass extended by one more frame, which is what one call of the ring adds. */
  lemma {:induction false} BubbleSnoc(s: seq<Entry>, e: Entry)
    requires s != []
    ensures var b := BubblePass(s);
            var last := b[|b| - 1];
            BubblePass(s + [e]) == b[..|b| - 1] + if e.pts < last.pts then [e, last] else [last, e]
    decreases |s|
  {
    hide BubblePass;
    if |s| < 2 {
      assert s == [s[0]] && s + [e] == [s[0], e] + [];
      ShortPass(s);
      ShortPass([e]);
      BubbleStep(s[0], e, []);
      assert [s[0]] + [] == [s[0]] && [e] + [] == [e];
    } else {
      var h, x, rest := s[0], s[1], s[2..];
      var last := if x.pts < h.pts then h else x;
      assert s == [h, x] + rest && s + [e] == [h, x] + (rest + [e]);
      BubbleStep(h, x, rest);
      BubbleStep(h, x, rest + [e]);
      assert [last] + (rest + [e]) == [last] + rest + [e];
      BubbleSnoc([last] + rest, e);
    }
  }

  lemma ShortPass(s: seq<Entry>)
    requires |s| < 2
    ensures BubblePass(s) == s
  {
  }

  lemma {:induction false} BubbleIsPermutation(s: seq<Entry>)
    ensures multiset(BubblePass(s)) == multiset(s)
    decreases |s|
  {
    hide BubblePass;
    if |s| < 2 {
      ShortPass(s);
    } else {
      var h, x, rest := s[0], s[1], s[2..];
      assert s == [h, x] + rest;
      BubbleStep(h, x, rest);
      BubbleIsPermutation([h] + rest);
      BubbleIsPermutation([x] + rest);
    }
  }

  function At(s: seq<Entry>, pts: int32): seq<Entry> {
    if s == [] then [] else (if s[0].pts == pts then [s[0]] else []) + At(s[1..], pts)
  }

  /** Frames with equal times keep their arrival order. */
  lemma {:induction false} BubbleIsStable(s: seq<Entry>, pts: int32)
    ensures At(BubblePass(s), pts) == At(s, pts)
    decreases |s|
  {
    hide BubblePass, At;
    if |s| < 2 {
      ShortPass(s);
    } else {
      var h, x, rest := s[0], s[1], s[2..];
      assert s == [h, x] + rest && [h, x] + rest == [h] + ([x] + rest);
      BubbleStep(h, x, rest);
      AtCons(h, [x] + rest, pts);
      AtCons(x, rest, pts);
      AtCons(h, rest, pts);
      if x.pts < h.pts {
        AtCons(x, BubblePass([h] + rest), pts);
        BubbleIsStable([h] + rest, pts);
      } else {
        AtCons(h, BubblePass([x] + rest), pts);
        BubbleIsStable([x] + rest, pts);
      }
    }
  }

  lemma AtCons(x: Entry, s: seq<Entry>, pts: int32)
    ensures At([x] + s, pts) == (if x.pts == pts then [x] else []) + At(s, pts)
  {
    assert ([x] + s)[1..] == s;
  }

  // ---------------------------------------------------------------- when the output is in display order

  /** No frame arrives after two frames that must be shown later than it. */
  predicate AtMostOneLate(s: seq<Entry>) {
    forall i, j, k :: 0 <= i < j < k < |s| ==> !(s[k].pts < s[i].pts && s[k].pts < s[j].pts)
  }

  lemma BubbleMembers(s: seq<Entry>, e: Entry)
    ensures e in BubblePass(s) <==> e in s
  {
    BubbleIsPermutation(s);
    assert e in BubblePass(s) <==> e in multiset(BubblePass(s));
    assert e in s <==> e in multiset(s);
  }

  lemma SortedCons(x: Entry, s: seq<Entry>)
    ensures Sorted([x] + s) <==> Sorted(s) && forall e :: e in s ==> x.pts <= e.pts
  {
    var t := [x] + s;
    if Sorted(t) {
      forall e | e in s ensures x.pts <= e.pts {
        var k :| 0 <= k < |s| && s[k] == e;
        assert t[0].pts <= t[k + 1].pts;
      }
      forall i, j | 0 <= i < j < |s| ensures s[i].pts <= s[j].pts {
        assert t[i + 1].pts <= t[j + 1].pts;
      }
    }
  }

  function Least(h: Entry, x: Entry): Entry {
    if x.pts < h.pts then x else h
  }

  function Most(h: Entry, x: Entry): Entry {
    if x.pts < h.pts then h else x
  }

  lemma LateDown(h: Entry, x: Entry, rest: seq<Entry>)
    requires AtMostOneLate([h, x] + rest)
    ensures AtMostOneLate([Most(h, x)] + rest) && forall e :: e in rest ==> Least(h, x).pts <= e.pts
  {
    var s, t := [h, x] + rest, [Most(h, x)] + rest;
    forall e | e in rest ensures Least(h, x).pts <= e.pts {
      var k :| 0 <= k < |rest| && rest[k] == e;
      assert s[k + 2] == e && s[0] == h && s[1] == x;
    }
    forall i, j, k | 0 <= i < j < k < |t| ensures !(t[k].pts < t[i].pts && t[k].pts < t[j].pts) {
      var m := if i == 0 && Most(h, x) == h then 0 else i + 1;
      assert s[m] == t[i] && s[j + 1] == t[j] && s[k + 1] == t[k];
    }
  }

  lemma LateUp(h: Entry, x: Entry, rest: seq<Entry>)
    requires AtMostOneLate([Most(h, x)] + rest) && forall e :: e in rest ==> Least(h, x).pts <= e.pts
    ensures AtMostOneLate([h, x] + rest)
  {
    var s, t := [h, x] + rest, [Most(h, x)] + rest;
    forall i, j, k | 0 <= i < j < k < |s| ensures !(s[k].pts < s[i].pts && s[k].pts < s[j].pts) {
      assert s[k] == rest[k - 2] == t[k - 1];
      assert rest[k - 2] in rest;
      if j >= 2 {
        var m := if i >= 2 then i - 1 else 0;
        assert s[j] == t[j - 1] && s[i].pts <= t[m].pts;
      }
    }
  }

  /** The late-frame condition, with the two front frames replaced by the greater one. */
  lemma LateStep(h: Entry, x: Entry, rest: seq<Entry>)
    ensures AtMostOneLate([h, x] + rest)
            <==> AtMostOneLate([Most(h, x)] + rest) && forall e :: e in rest ==> Least(h, x).pts <= e.pts
  {
    hide AtMostOneLate;
    if AtMostOneLate([h, x] + rest) {
      LateDown(h, x, rest);
    }
    if AtMostOneLate([Most(h, x)] + rest) && forall e :: e in rest ==> Least(h, x).pts <= e.pts {
      LateUp(h, x, rest);
    }
  }

  /** The output of a run is in display order exactly when every frame arrives after at most one later frame. */
  lemma {:induction false} InOrderExactlyWhenAtMostOneLate(s: seq<Entry>)
    ensures Sorted(BubblePass(s)) <==> AtMostOneLate(s)
    decreases |s|
  {
    hide Sorted, AtMostOneLate, BubblePass, Least, Most;
    if |s| < 2 {
      ShortIsInOrder(s);
    } else {
      var h, x, rest := s[0], s[1], s[2..];
      var t := [Most(h, x)] + rest;
      assert s == [h, x] + rest;
      LateStep(h, x, rest);
      LeastFirst(h, x, rest);
      SortedCons(Least(h, x), BubblePass(t));
      LeastBounds(h, x, rest);
      InOrderExactlyWhenAtMostOneLate(t);
    }
  }

  lemma ShortIsInOrder(s: seq<Entry>)
    requires |s| < 2
    ensures Sorted(BubblePass(s)) && AtMostOneLate(s)
  {
  }

  lemma LeastFirst(h: Entry, x: Entry, rest: seq<Entry>)
    ensures BubblePass([h, x] + rest) == [Least(h, x)] + BubblePass([Most(h, x)] + rest)
  {
    BubbleStep(h, x, rest);
  }

  lemma LeastBounds(h: Entry, x: Entry, rest: seq<Entry>)
    ensures (forall e :: e in BubblePass([Most(h, x)] + rest) ==> Least(h, x).pts <= e.pts)
       <==> (forall e :: e in rest ==> Least(h, x).pts <= e.pts)
  {
    var t := [Most(h, x)] + rest;
    forall e ensures e in BubblePass(t) <==> e == Most(h, x) || e in rest {
      BubbleMembers(t, e);
    }
  }

  /** For a whole run from reset: a permutation of the input, stable, and in display order under that condition only. */
  lemma DisplayOrder(xs: seq<Entry>)
    ensures var r := Feed([], xs);
            && multiset(r.shown + r.ring) == multiset(xs)
            && (forall pts :: At(r.shown + r.ring, pts) == At(xs, pts))
            && (Sorted(r.shown + r.ring) <==> AtMostOneLate(xs))
  {
    assert [] + xs == xs;
    FeedIsBubblePass([], xs);
    BubbleIsPermutation(xs);
    forall pts ensures At(BubblePass(xs), pts) == At(xs, pts) {
      BubbleIsStable(xs, pts);
    }
    InOrderExactlyWhenAtMostOneLate(xs);
  }

  // ---------------------------------------------------------------- the ring as an object

  function Frames(s: seq<Entry>): multiset<nat> {
    if s == [] then multiset{} else multiset{s[0].frame} + Frames(s[1..])
  }

  function Entries(fs: seq<nat>, ps: seq<int32>, n: nat): (r: seq<Entry>)
    requires n <= |fs| && n <= |ps|
    ensures |r| == n && forall i :: 0 <= i < n ==> r[i] == Entry(fs[i], ps[i])
  {
    seq(n, i requires 0 <= i < n => Entry(fs[i], ps[i]))
  }

  function OutFrames(o: Option<Entry>): multiset<nat> {
    if o.Some? then multiset{o.value.frame} else multiset{}
  }

  class ReorderRing {
    const rbuf: array<nat>
    const rpts: array<int32>
    var rn: nat

    // Retain counts held by the ring, and their whole history.
    ghost var held: multiset<nat>
    ghost var retained: multiset<nat>
    ghost var released: multiset<nat>

    // The frames that arrived, and those passed to the delegate, since the last reset.
    ghost var arrived: seq<Entry>
    var shown: seq<Entry>

    ghost predicate Shape()
      reads this
    {
      rbuf.Length == REORDER_MAX && rpts.Length == REORDER_MAX && rn <= REORDER_MAX
    }

    ghost function Ring(): seq<Entry>
      requires Shape()
      reads this, rbuf, rpts
    {
      Entries(rbuf[..], rpts[..], rn)
    }

    /** What holds between calls. */
    ghost predicate Valid()
      reads this, rbuf, rpts
    {
      && Shape() && rn <= 1
      && (rn == 1 ==> rbuf[0] != 0)
      && Owned(multiset{})
      && shown + Ring() == BubblePass(arrived)
      && (rn == 0 <==> arrived == [])
    }

    constructor ()
      ensures Valid() && arrived == [] && shown == [] && fresh(rbuf) && fresh(rpts)
    {
      rbuf := new nat[REORDER_MAX];
      rpts := new int32[REORDER_MAX];
      rn := 0;
      held, retained, released := multiset{}, multiset{}, multiset{};
      arrived, shown := [], [];
    }

    method Retain(frame: nat)
      modifies this`held, this`retained
      ensures held == old(held) + multiset{frame} && retained == old(retained) + multiset{frame}
    {
      held, retained := held + multiset{frame}, retained + multiset{frame};
    }

    /** Only a buffer that is still held may be released. */
    method Release(frame: nat)
      requires frame in held
      modifies this`held, this`released
      ensures held == old(held) - multiset{frame} && released == old(released) + multiset{frame}
    {
      held, released := held - multiset{frame}, released + multiset{frame};
    }

    method ReleaseSlot(i: nat)
      requires Shape() && i < rn && (rbuf[i] != 0 ==> rbuf[i] in held)
      modifies this`held, this`released, rbuf
      ensures held == old(held) - (if old(rbuf[i]) == 0 then multiset{} else multiset{old(rbuf[i])})
      ensures released == old(released) + (if old(rbuf[i]) == 0 then multiset{} else multiset{old(rbuf[i])})
      ensures forall k :: 0 <= k < rbuf.Length && k != i ==> rbuf[k] == old(rbuf[k])
    {
      if rbuf[i] != 0 {
        Release(rbuf[i]);
        rbuf[i] := 0;
      }
    }

    /** The loop of vcamReorderReset: every slot in use is released. */
    method ReleaseAll()
      requires Shape() && Owned(multiset{}) && forall k :: 0 <= k < rn ==> rbuf[k] != 0
      modifies this`held, this`released, rbuf
      ensures held == multiset{} && retained == released
    {
      hide Entries, Frames;
      ghost var ring := Ring();
      assert ring[0..] == ring;
      assert forall k :: 0 <= k < rn ==> ring[k].frame == rbuf[k];
      var i := 0;
      while i < rn
        invariant i <= rn == |ring|
        invariant held == Frames(ring[i..]) && retained == released + held
        invariant forall k :: i <= k < rn ==> rbuf[k] == ring[k].frame != 0
      {
        FramesFrom(ring, i);
        ReleaseSlot(i);
        i := i + 1;
      }
      FramesFrom(ring, i);
    }

    /** Lets go of everything; from then on a new run starts. */
    method Reset()
      requires Valid()
      modifies this, rbuf
      ensures Valid() && arrived == [] && shown == [] && held == multiset{} && retained == released
      ensures retained == old(retained)
    {
      hide Entries, Frames, BubblePass;
      ReleaseAll();
      rn := 0;
      arrived, shown := [], [];
      assert Ring() == [];
      EmptyRun(Ring());
    }

    static lemma FramesFrom(s: seq<Entry>, i: nat)
      requires i <= |s|
      ensures Frames(s[i..]) == if i == |s| then multiset{} else multiset{s[i].frame} + Frames(s[i + 1..])
    {
      if i < |s| {
        assert s[i..][1..] == s[i + 1..];
      }
    }

    static lemma EmptyRun(ring: seq<Entry>)
      requires ring == []
      ensures [] + ring == BubblePass([]) && Frames(ring) == multiset{}
    {
    }

    /** The insertion point. */
    method FindPosition(pts: int32) returns (ins: nat)
      requires Shape()
      ensures ins == Position(Ring(), pts)
    {
      ins := rn;
      var i := 0;
      while i < rn
        invariant 0 <= i <= rn && ins == rn
        invariant forall k :: 0 <= k < i ==> rpts[k] <= pts
      {
        if pts < rpts[i] {
          PositionIs(Ring(), pts, i);
          return i;
        }
        i := i + 1;
      }
      PositionIs(Ring(), pts, rn);
    }

    /** Moves the entries from `ins` on one place up. */
    method ShiftRight(ins: nat)
      requires Shape() && ins <= rn < REORDER_MAX
      modifies rbuf, rpts
      ensures forall k :: 0 <= k < ins ==> rbuf[k] == old(rbuf[k]) && rpts[k] == old(rpts[k])
      ensures forall k :: ins < k <= rn ==> rbuf[k] == old(rbuf[k - 1]) && rpts[k] == old(rpts[k - 1])
    {
      var i := rn;
      while i > ins
        invariant ins <= i <= rn
        invariant forall k :: 0 <= k <= i ==> rbuf[k] == old(rbuf[k]) && rpts[k] == old(rpts[k])
        invariant forall k :: i < k <= rn ==> rbuf[k] == old(rbuf[k - 1]) && rpts[k] == old(rpts[k - 1])
      {
        rbuf[i] := rbuf[i - 1];
        rpts[i] := rpts[i - 1];
        i := i - 1;
      }
    }

    /** Moves all entries one place down, over the first. */
    method ShiftLeft()
      requires Shape() && rn > 0
      modifies rbuf, rpts
      ensures forall k :: 0 <= k < rn - 1 ==> rbuf[k] == old(rbuf[k + 1]) && rpts[k] == old(rpts[k + 1])
    {
      var i := 0;
      while i < rn - 1
        invariant 0 <= i <= rn - 1
        invariant forall k :: 0 <= k < i ==> rbuf[k] == old(rbuf[k + 1]) && rpts[k] == old(rpts[k + 1])
        invariant forall k :: i <= k < rn ==> rbuf[k] == old(rbuf[k]) && rpts[k] == old(rpts[k])
      {
        rbuf[i] := rbuf[i + 1];
        rpts[i] := rpts[i + 1];
        i := i + 1;
      }
    }

    /** One retain is held for each entry of the ring and each of `extra`; every other retain has been released. */
    ghost predicate Owned(extra: multiset<nat>)
      requires Shape()
      reads this, rbuf, rpts
    {
      held == extra + Frames(Ring()) && retained == released + held
    }

    /** The overflow guard: the last entry is given up. */
    method Evict()
      requires Shape() && rn == REORDER_MAX && Owned(multiset{})
      modifies this`rn, this`held, this`released
      ensures Shape() && Ring() == old(Ring())[..REORDER_MAX - 1] && Owned(multiset{})
    {
      hide Entries, Frames;
      ghost var ring := Ring();
      FramesSnoc(ring[..3], ring[3]);
      assert ring == ring[..3] + [ring[3]];
      Release(rbuf[REORDER_MAX - 1]);
      rn := rn - 1;
      assert Ring() == ring[..3];
    }

    /** Makes room at `ins` and writes the new entry there. */
    method OpenSlot(ins: nat, frame: nat, pts: int32)
      requires Shape() && ins <= rn < REORDER_MAX
      modifies this`rn, rbuf, rpts
      ensures Shape() && Ring() == Placed(old(Ring()), Entry(frame, pts), ins)
    {
      hide Entries, Placed;
      ghost var fs, ps := rbuf[..], rpts[..];
      ShiftRight(ins);
      rbuf[ins] := frame;
      rpts[ins] := pts;
      rn := rn + 1;
      EntriesPlaced(fs, ps, rbuf[..], rpts[..], rn - 1, ins, Entry(frame, pts));
    }

    /** Puts the new frame into its slot, with a retain of its own. */
    method Place(ins: nat, frame: nat, pts: int32)
      requires Shape() && ins <= rn < REORDER_MAX && Owned(multiset{})
      modifies this`rn, this`held, this`retained, rbuf, rpts
      ensures Shape() && Ring() == Placed(old(Ring()), Entry(frame, pts), ins) && Owned(multiset{})
    {
      hide Entries, Frames, Placed;
      ghost var ring := Ring();
      OpenSlot(ins, frame, pts);
      Retain(frame);
      FramesPlaced(ring, Entry(frame, pts), ins);
    }

    /** Hands the first entry, with its retain, to the caller. */
    method TakeFirst() returns (out: Entry)
      requires Shape() && rn > 0 && Owned(multiset{})
      modifies this`rn, rbuf, rpts
      ensures Shape() && out == old(Ring())[0] && Ring() == old(Ring())[1..] && Owned(multiset{out.frame})
    {
      hide Entries;
      ghost var ring := Ring();
      out := Entry(rbuf[0], rpts[0]);
      ShiftLeft();
      rbuf[rn - 1] := 0;
      rn := rn - 1;
      assert Ring() == ring[1..];
    }

    /** vcamReorderInsert on a ring of any size; the retain of what it returns passes to the caller. */
    method InsertFrame(frame: nat, pts: int32) returns (out: Option<Entry>)
      requires Shape() && Owned(multiset{})
      modifies this`rn, this`held, this`retained, this`released, rbuf, rpts
      ensures Shape()
      ensures var i := Insert(old(Ring()), Entry(frame, pts));
              Ring() == i.ring && out == i.out && Owned(OutFrames(out))
    {
      hide Frames, Position, Entries;
      out := None;
      var ins := FindPosition(pts);
      ghost var ring := Ring();
      if rn == REORDER_MAX {
        if ins == REORDER_MAX { return; }
        Evict();
      }
      Place(ins, frame, pts);
      if rn < 2 { return; }
      var first := TakeFirst();
      out := Some(first);
    }

    /** Queues a frame; what falls out still has to be shown and released. */
    method Enqueue(image: nat, pts: int32) returns (out: Option<Entry>)
      requires Valid() && image != 0
      modifies this`rn, this`held, this`retained, this`released, this`arrived, rbuf, rpts
      ensures Shape() && rn == 1 && rbuf[0] != 0 && Owned(OutFrames(out))
      ensures arrived == old(arrived) + [Entry(image, pts)]
      ensures shown + Out(out) + Ring() == BubblePass(arrived)
    {
      hide Insert, BubblePass, Frames, Entries;
      ghost var e := Entry(image, pts);
      InsertIntoOne(Ring(), e);
      NextInPass(arrived, shown, Ring(), e);
      out := InsertFrame(image, pts);
      arrived := arrived + [e];
      assert |Ring()| == 1 && rbuf[0] == Ring()[0].frame;
    }

    /** The decoder's callback: a frame that is there is queued, and the frame that falls out is shown and released. */
    method DecodeCallback(failed: bool, skipped: bool, image: nat, pts: int32)
      requires Valid()
      modifies this, rbuf, rpts
      ensures Valid()
      ensures arrived == if failed || skipped || image == 0 then old(arrived) else old(arrived) + [Entry(image, pts)]
      ensures old(shown) <= shown
    {
      hide BubblePass, Frames, Entries;
      if failed || skipped || image == 0 { return; }
      var out := Enqueue(image, pts);
      if out.None? {
        assert shown + [] == shown;
      } else {
        Show(out.value);
      }
    }

    /** Passes a frame to the delegate and gives up the retain that came with it. */
    method Show(out: Entry)
      requires Shape() && rn == 1 && rbuf[0] != 0 && Owned(multiset{out.frame})
      requires arrived != [] && shown + [out] + Ring() == BubblePass(arrived)
      modifies this`shown, this`held, this`released
      ensures Valid() && shown == old(shown) + [out]
    {
      hide BubblePass, Frames, Entries;
      ghost var ring := Ring();
      shown := shown + [out];
      assert Ring() == ring;
      Release(out.frame);
      assert Ring() == ring && held == Frames(ring);
    }

    /** One more frame: what is shown and held goes on being the pass of what arrived. */
    static lemma NextInPass(s: seq<Entry>, shown: seq<Entry>, ring: seq<Entry>, e: Entry)
      requires |ring| <= 1 && (ring == [] <==> s == []) && shown + ring == BubblePass(s)
      ensures var i := Insert(ring, e); shown + Out(i.out) + i.ring == BubblePass(s + [e])
    {
      hide Insert, BubblePass;
      InsertIntoOne(ring, e);
      if s == [] {
        assert s + [e] == [e];
        ShortPass([]);
        ShortPass([e]);
      } else {
        BubbleSnoc(s, e);
        var b := BubblePass(s);
        assert b[|b| - 1] == ring[0] && b[..|b| - 1] == shown;
      }
    }

    static lemma EntriesPlaced(fs: seq<nat>, ps: seq<int32>, fs': seq<nat>, ps': seq<int32>, n: nat, ins: nat, e: Entry)
      requires ins <= n < |fs| == |ps| == |fs'| == |ps'|
      requires fs'[ins] == e.frame && ps'[ins] == e.pts
      requires forall k :: 0 <= k < ins ==> fs'[k] == fs[k] && ps'[k] == ps[k]
      requires forall k :: ins < k <= n ==> fs'[k] == fs[k - 1] && ps'[k] == ps[k - 1]
      ensures Entries(fs', ps', n + 1) == Placed(Entries(fs, ps, n), e, ins)
    {
    }

    static lemma PositionIs(ring: seq<Entry>, pts: int32, i: nat)
      requires i <= |ring| && (i < |ring| ==> pts < ring[i].pts)
      requires forall k :: 0 <= k < i ==> ring[k].pts <= pts
      ensures Position(ring, pts) == i
    {
    }

    static lemma {:induction false} FramesSnoc(s: seq<Entry>, e: Entry)
      ensures Frames(s + [e]) == Frames(s) + multiset{e.frame}
    {
      if s != [] {
        assert (s + [e])[1..] == s[1..] + [e];
        FramesSnoc(s[1..], e);
      }
    }

    static lemma {:induction false} FramesPlaced(s: seq<Entry>, e: Entry, at: nat)
      requires at <= |s|
      ensures Frames(Placed(s, e, at)) == Frames(s) + multiset{e.frame}
      decreases at
    {
      var p := Placed(s, e, at);
      if at == 0 {
        assert p[1..] == s;
      } else {
        assert p[1..] == Placed(s[1..], e, at - 1);
        FramesPlaced(s[1..], e, at - 1);
      }
    }
  }
}
