// The deduplication window in front of frame injection: the last eight accepted keys.

module Dedup {
  const DEDUP_MAX := 8

  type uint64 = x: int | 0 <= x < 0x1_0000_0000_0000_0000

  datatype Slot = Slot(key: uint64, ts: real)

  /** Address plus time, in wrapping 64-bit arithmetic. */
  function DedupKey(dest: uint64, pts: uint64): uint64 {
    (dest + pts) % 0x1_0000_0000_0000_0000
  }

  /** The most recent accepted keys that the window still remembers. */
  function Window(accepted: seq<uint64>): seq<uint64> {
    if |accepted| <= DEDUP_MAX then accepted else accepted[|accepted| - DEDUP_MAX..]
  }

  function Keys(slots: seq<Slot>): (ks: seq<uint64>)
    ensures |ks| == |slots| && forall i :: 0 <= i < |ks| ==> ks[i] == slots[i].key
  {
    seq(|slots|, i requires 0 <= i < |slots| => slots[i].key)
  }

  // ---------------------------------------------------------------- whole runs

  /** The history of accepted keys after offering `ks` one after the other. */
  function Accept(accepted: seq<uint64>, ks: seq<uint64>): (r: seq<uint64>)
    ensures accepted <= r
    decreases |ks|
  {
    if ks == [] then accepted
    else Accept(if ks[0] in Window(accepted) then accepted else accepted + [ks[0]], ks[1..])
  }

  /** Two accepted frames with the same key are more than eight acceptances apart. */
  ghost predicate Spaced(accepted: seq<uint64>) {
    forall i, j :: 0 <= i < j < |accepted| && j - i <= 8 ==> accepted[i] != accepted[j]
  }

  /** The sum of address and time, up to a multiple of 2^64. */
  lemma KeyIsSum(dest: uint64, pts: uint64)
    ensures DedupKey(dest, pts) == dest + pts || DedupKey(dest, pts) + 0x1_0000_0000_0000_0000 == dest + pts
  {
  }

  /** So frames of one buffer have one key exactly when they have one time. */
  lemma KeysTellTimesApart(dest: uint64, pts: uint64, pts': uint64)
    ensures DedupKey(dest, pts) == DedupKey(dest, pts') <==> pts == pts'
  {
    KeyIsSum(dest, pts);
    KeyIsSum(dest, pts');
  }

  ghost predicate AmongLastEight(accepted: seq<uint64>, k: uint64) {
    exists i :: 0 <= i < |accepted| && |accepted| - 8 <= i && accepted[i] == k
  }

  /** The window is the last eight keys. */
  lemma InWindow(accepted: seq<uint64>, k: uint64)
    ensures k in Window(accepted) <==> AmongLastEight(accepted, k)
  {
    var w := Window(accepted);
    var d := |accepted| - |w|;
    assert forall j :: 0 <= j < |w| ==> w[j] == accepted[d + j];
    if i :| 0 <= i < |accepted| && |accepted| - 8 <= i && accepted[i] == k {
      assert w[i - d] == k;
    }
  }

  lemma AcceptOneSpaced(accepted: seq<uint64>, k: uint64)
    requires Spaced(accepted) && k !in Window(accepted)
    ensures Spaced(accepted + [k])
  {
    var a, w := accepted + [k], Window(accepted);
    forall i, j | 0 <= i < j < |a| && j - i <= 8 ensures a[i] != a[j] {
      if j == |accepted| {
        assert w[i - (|accepted| - |w|)] == accepted[i];
      }
    }
  }

  lemma {:induction false} AcceptedAreSpaced(accepted: seq<uint64>, ks: seq<uint64>)
    requires Spaced(accepted)
    ensures Spaced(Accept(accepted, ks))
    decreases |ks|
  {
    if ks != [] {
      var next := if ks[0] in Window(accepted) then accepted else accepted + [ks[0]];
      if ks[0] !in Window(accepted) {
        AcceptOneSpaced(accepted, ks[0]);
      }
      AcceptedAreSpaced(next, ks[1..]);
    }
  }

  /** Nothing is lost for good: every offered key is in the history afterwards. */
  lemma {:induction false} OfferedAreRemembered(accepted: seq<uint64>, ks: seq<uint64>, k: uint64)
    requires k in ks
    ensures k in Accept(accepted, ks)
    decreases |ks|
  {
    var next := if ks[0] in Window(accepted) then accepted else accepted + [ks[0]];
    if ks[0] == k {
      assert k in next;
      var i :| 0 <= i < |next| && next[i] == k;
      assert Accept(accepted, ks)[i] == k;
    } else {
      OfferedAreRemembered(next, ks[1..], k);
    }
  }

  lemma WindowSlides(accepted: seq<uint64>, k: uint64)
    ensures |Window(accepted)| == DEDUP_MAX <==> |accepted| >= DEDUP_MAX
    ensures Window(accepted + [k])
         == (if |accepted| < DEDUP_MAX then Window(accepted) else Window(accepted)[1..]) + [k]
  {
  }

  // ---------------------------------------------------------------- the window as an object

  class DedupRing {
    const slots: array<Slot>
    var count: nat
    ghost var accepted: seq<uint64>  // every key ever accepted

    ghost predicate Valid()
      reads this, slots
    {
      && slots.Length == DEDUP_MAX && count <= DEDUP_MAX
      && Keys(slots[..count]) == Window(accepted)
      && Spaced(accepted)
    }

    constructor ()
      ensures Valid() && accepted == [] && fresh(slots)
    {
      slots := new Slot[DEDUP_MAX](_ => Slot(0, 0.0));
      count := 0;
      accepted := [];
    }

    method Scan(key: uint64) returns (found: bool)
      requires Valid()
      ensures found <==> key in Window(accepted)
    {
      ghost var ks := Keys(slots[..count]);
      var i := 0;
      while i < count
        invariant 0 <= i <= count
        invariant forall k :: 0 <= k < i ==> ks[k] != key
      {
        if slots[i].key == key {
          assert ks[i] == key;
          return true;
        }
        i := i + 1;
      }
      found := false;
    }

    /** Makes room by moving the slots down over the oldest. */
    method EvictOldest()
      requires slots.Length == DEDUP_MAX == count
      modifies this`count, slots
      ensures count == DEDUP_MAX - 1 && Keys(slots[..count]) == old(Keys(slots[..]))[1..]
    {
      forall i | 0 <= i < DEDUP_MAX - 1 {
        slots[i] := slots[i + 1];
      }
      count := DEDUP_MAX - 1;
    }

    method Push(key: uint64, now: real)
      requires slots.Length == DEDUP_MAX > count
      modifies this`count, slots
      ensures count == old(count) + 1 && Keys(slots[..count]) == old(Keys(slots[..count])) + [key]
    {
      slots[count] := Slot(key, now);
      count := count + 1;
    }

    /** A frame is rejected exactly when its key is one of the last eight accepted; otherwise it joins them. */
    method Admit(dest: uint64, pts: uint64, now: real) returns (accept: bool)
      requires Valid()
      modifies this, slots
      ensures Valid()
      ensures accept <==> !AmongLastEight(old(accepted), DedupKey(dest, pts))
      ensures accepted == Accept(old(accepted), [DedupKey(dest, pts)])
    {
      hide Keys, Spaced, AmongLastEight;
      var key := (dest + pts) % 0x1_0000_0000_0000_0000;
      var found := Scan(key);
      InWindow(accepted, key);
      AcceptOne(accepted, key);
      if found {
        return false;
      }
      if count == DEDUP_MAX {
        assert slots[..count] == slots[..];
        EvictOldest();
      }
      Push(key, now);
      WindowSlides(accepted, key);
      AcceptOneSpaced(accepted, key);
      accepted := accepted + [key];
      accept := true;
    }

    static lemma AcceptOne(accepted: seq<uint64>, k: uint64)
      ensures Accept(accepted, [k]) == if k in Window(accepted) then accepted else accepted + [k]
    {
      assert [k][1..] == [];
    }
  }
}
