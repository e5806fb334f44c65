// AVC payloads of RTMP video messages: the length-prefixed NAL units and the decoder configuration record.

module Video {
  import opened Bytes
  import opened Chunks

  datatype Frame = Frame(
    isSequenceHeader: bool, isKeyframe: bool, sps: bytes, pps: bytes, nalu: bytes,
    compositionTime: uint32, timestamp: uint32)

  // ---------------------------------------------------------------- NAL units

  /** The complete records at the front of `s`, with empty ones dropped. */
  function Nalus(s: bytes): bytes
    decreases |s|
  {
    if |s| < 4 then [] else
    var n := FromBE32(s[..4]);
    if n == 0 then Nalus(s[4..])
    else if 4 + n > |s| then []
    else s[..4 + n] + Nalus(s[4 + n..])
  }

  /** The loop of handleVideo over the payload. */
  method ExtractNalus(p: bytes, start: nat) returns (nalu: bytes)
    requires start <= |p|
    ensures nalu == Nalus(p[start..])
  {
    hide FromBE32, Nalus;
    nalu := [];
    var off := start;
    while off + 4 <= |p|
      invariant start <= off <= |p|
      invariant nalu + Nalus(p[off..]) == Nalus(p[start..])
      decreases |p| - off
    {
      NalusAt(p, off);
      var n := FromBE32(p[off..off + 4]);
      if n == 0 {
        off := off + 4;
      } else if off + 4 + n > |p| {
        assert nalu + [] == nalu;
        return;
      } else {
        Regrouped(nalu, p[off..off + 4 + n], Nalus(p[off + 4 + n..]));
        nalu := nalu + p[off..off + 4 + n];
        off := off + 4 + n;
      }
    }
    NalusEnd(p[off..]);
    assert nalu + [] == nalu;
  }

  lemma NalusEnd(s: bytes)
    requires |s| < 4
    ensures Nalus(s) == []
  {
  }

  lemma NalusAt(p: bytes, off: nat)
    requires off + 4 <= |p|
    ensures var n := FromBE32(p[off..off + 4]);
            Nalus(p[off..]) ==
            if n == 0 then Nalus(p[off + 4..])
            else if off + 4 + n > |p| then []
            else p[off..off + 4 + n] + Nalus(p[off + 4 + n..])
  {
    hide FromBE32, Nalus;
    var s, n := p[off..], FromBE32(p[off..off + 4]);
    NalusUnfolds(s);
    assert s[..4] == p[off..off + 4];
    assert s[4..] == p[off + 4..];
    if off + 4 + n <= |p| {
      assert s[..4 + n] == p[off..off + 4 + n] && s[4 + n..] == p[off + 4 + n..];
    }
  }

  lemma NalusUnfolds(s: bytes)
    requires |s| >= 4
    ensures var n := FromBE32(s[..4]);
            Nalus(s) ==
            if n == 0 then Nalus(s[4..]) else if 4 + n > |s| then [] else s[..4 + n] + Nalus(s[4 + n..])
  {
    hide FromBE32;
  }

  lemma Regrouped(before: bytes, record: bytes, rest: bytes)
    ensures before + (record + rest) == before + record + rest
  {
  }

  /** One length-prefixed record. */
  function Record(unit: bytes): bytes {
    BE32(|unit|) + unit
  }

  function Records(units: seq<bytes>): bytes {
    if units == [] then [] else Record(units[0]) + Records(units[1..])
  }

  predicate Prefixable(units: seq<bytes>) {
    forall u :: u in units ==> |u| < 0x1_0000_0000
  }

  /** No complete record starts here, not even an empty one. */
  predicate Truncated(tail: bytes) {
    |tail| < 4 || FromBE32(tail[..4]) > |tail| - 4
  }

  function NonEmpty(units: seq<bytes>): seq<bytes> {
    if units == [] then [] else (if units[0] == [] then [] else [units[0]]) + NonEmpty(units[1..])
  }

  lemma RecordFront(unit: bytes, t: bytes)
    requires |unit| < 0x1_0000_0000
    ensures var s := Record(unit) + t;
            |s| >= 4 + |unit| && FromBE32(s[..4]) == |unit| && s[..4 + |unit|] == Record(unit) && s[4 + |unit|..] == t
  {
    hide BE32, FromBE32;
    BE32RoundTrip(|unit|);
    var s := Record(unit) + t;
    assert s[..4] == BE32(|unit|);
  }

  /** On any well-formed sequence of records followed by a truncated one, exactly the non-empty ones are kept. */
  lemma {:induction false} NalusOfRecords(units: seq<bytes>, tail: bytes)
    requires Prefixable(units) && Truncated(tail)
    ensures Nalus(Records(units) + tail) == Records(NonEmpty(units))
    decreases |units|
  {
    if units == [] {
      assert Records(units) + tail == tail;
    } else {
      var u, more := units[0], Records(units[1..]) + tail;
      assert u in units;
      assert Records(units) + tail == Record(u) + more;
      NalusStep(u, more);
      NalusOfRecords(units[1..], tail);
      if u != [] {
        assert NonEmpty(units)[1..] == NonEmpty(units[1..]);
      } else {
        assert NonEmpty(units) == NonEmpty(units[1..]);
      }
    }
  }

  lemma NalusStep(u: bytes, more: bytes)
    requires |u| < 0x1_0000_0000
    ensures Nalus(Record(u) + more) == if u == [] then Nalus(more) else Record(u) + Nalus(more)
  {
    hide FromBE32, BE32, Record;
    RecordFront(u, more);
  }

  /** Every payload is such a sequence. */
  lemma {:induction false} SplitRecords(s: bytes) returns (units: seq<bytes>, tail: bytes)
    ensures Prefixable(units) && Truncated(tail) && s == Records(units) + tail
    decreases |s|
  {
    if Truncated(s) {
      units, tail := [], s;
    } else {
      var n := FromBE32(s[..4]);
      var us;
      us, tail := SplitRecords(s[4 + n..]);
      units := [s[4..4 + n]] + us;
      BE32Inverse(s[..4]);
      assert Record(units[0]) == s[..4 + n];
      assert units[1..] == us;
      assert s == s[..4 + n] + (Records(us) + tail);
      assert Records(units) + tail == Record(units[0]) + (Records(us) + tail);
    }
  }

  lemma RecordsCons(units: seq<bytes>, tail: bytes)
    requires units != [] && Prefixable(units)
    ensures FrontRecord(Records(units) + tail, units[0], Records(units[1..]) + tail)
    ensures Prefixable(units[1..])
  {
    hide FrontRecord, Record;
    var u, rest := units[0], Records(units[1..]);
    assert u in units;
    assert Record(u) + rest + tail == Record(u) + (rest + tail);
    RecordIsFront(u, rest + tail);
  }

  /** `s` starts with the complete record of `u` and goes on with `more`. */
  ghost predicate FrontRecord(s: bytes, u: bytes, more: bytes) {
    !Truncated(s) && FromBE32(s[..4]) == |u| && |s| >= 4 + |u| && u == s[4..4 + |u|] && more == s[4 + |u|..]
  }

  lemma RecordIsFront(u: bytes, more: bytes)
    requires |u| < 0x1_0000_0000
    ensures FrontRecord(Record(u) + more, u, more)
  {
    hide FromBE32, BE32, Record;
    RecordFront(u, more);
    RecordUnit(u, Record(u) + more);
  }

  lemma RecordUnit(u: bytes, s: bytes)
    requires |s| >= 4 + |u| && s[..4 + |u|] == Record(u)
    ensures s[4..4 + |u|] == u
  {
    hide BE32;
    assert Record(u)[4..] == u;
    assert s[..4 + |u|][4..] == s[4..4 + |u|];
  }

  /** And in one way only. */
  lemma {:induction false} SplitIsUnique(units: seq<bytes>, tail: bytes, units': seq<bytes>, tail': bytes)
    requires Prefixable(units) && Truncated(tail) && Prefixable(units') && Truncated(tail')
    requires Records(units) + tail == Records(units') + tail'
    ensures units == units' && tail == tail'
    decreases |units|
  {
    hide FromBE32;
    if units != [] {
      RecordsCons(units, tail);
    } else {
      assert Records(units) + tail == tail;
    }
    if units' != [] {
      RecordsCons(units', tail');
    } else {
      assert Records(units') + tail' == tail';
    }
    if units != [] && units' != [] {
      SplitIsUnique(units[1..], tail, units'[1..], tail');
      assert units == [units[0]] + units[1..] && units' == [units'[0]] + units'[1..];
    }
  }

  lemma {:induction false} NonEmptyTwice(units: seq<bytes>)
    ensures NonEmpty(NonEmpty(units)) == NonEmpty(units)
    ensures Prefixable(units) ==> Prefixable(NonEmpty(units))
    ensures [] !in NonEmpty(units)
  {
    if units != [] {
      NonEmptyTwice(units[1..]);
      if units[0] != [] {
        assert NonEmpty(units)[1..] == NonEmpty(units[1..]);
      } else {
        assert NonEmpty(units) == NonEmpty(units[1..]);
      }
    }
  }

  /** What extraction hands on is itself a well-formed sequence of non-empty records, and extracting again is idle. */
  lemma ExtractionIsIdempotent(s: bytes) returns (units: seq<bytes>)
    ensures Prefixable(units) && [] !in units && Nalus(s) == Records(units)
    ensures Nalus(Nalus(s)) == Nalus(s)
  {
    var us, tail := SplitRecords(s);
    NalusOfRecords(us, tail);
    units := NonEmpty(us);
    NonEmptyTwice(us);
    NalusOfRecords(units, []);
    assert Records(units) + [] == Records(units);
  }

  // ---------------------------------------------------------------- decoder configuration records

  datatype Sets = Sets(last: bytes, rest: bytes)

  /** A counted list of 16-bit length-prefixed sets; running out of bytes ends it early, an overlong set fails. */
  function ParameterSets(s: bytes, count: nat, last: bytes): (o: Option<Sets>)
    ensures o.Some? ==> |o.value.rest| <= |s| && o.value.rest == s[|s| - |o.value.rest|..]
    decreases count
  {
    if count == 0 || |s| < 2 then Some(Sets(last, s)) else
    var n := FromBE16(s[..2]);
    if 2 + n > |s| then None else ParameterSets(s[2 + n..], count - 1, s[2..2 + n])
  }

  datatype Config = Config(sps: bytes, pps: bytes)

  /** The record from its count of sequence parameter sets on. */
  function ParseConfig(s: bytes): Option<Config> {
    if s == [] then None else
    match ParameterSets(s[1..], s[0] % 32, [])
    case None => None
    case Some(a) =>
      if a.rest == [] then None else
      match ParameterSets(a.rest[1..], a.rest[0], [])
      case None => None
      case Some(b) => Some(Config(a.last, b.last))
  }

  method ReadSets(p: bytes, start: nat, count: nat) returns (ok: bool, last: bytes, off: nat)
    requires start <= |p|
    ensures start <= off <= |p|
    ensures match ParameterSets(p[start..], count, [])
            case None => !ok
            case Some(a) => ok && last == a.last && p[off..] == a.rest
  {
    hide FromBE16, ParameterSets;
    off, last, ok := start, [], true;
    var i := 0;
    while i < count && off + 2 <= |p|
      invariant i <= count && start <= off <= |p| && ok
      invariant ParameterSets(p[off..], count - i, last) == ParameterSets(p[start..], count, [])
      decreases count - i
    {
      SetsAt(p, off, count - i, last);
      var n := FromBE16(p[off..off + 2]);
      off := off + 2;
      if off + n > |p| {
        return false, last, off;
      }
      last := p[off..off + n];
      off := off + n;
      i := i + 1;
    }
    SetsEnd(p[off..], count - i, last);
  }

  lemma SetsEnd(s: bytes, count: nat, last: bytes)
    requires count == 0 || |s| < 2
    ensures ParameterSets(s, count, last) == Some(Sets(last, s))
  {
  }

  lemma SetsStep(s: bytes, count: nat, last: bytes)
    requires |s| >= 2 && count > 0
    ensures var n := FromBE16(s[..2]);
            ParameterSets(s, count, last) ==
            if |s| < 2 + n then None else ParameterSets(s[2 + n..], count - 1, s[2..2 + n])
  {
    hide FromBE16;
  }

  lemma SetsAt(p: bytes, off: nat, count: nat, last: bytes)
    requires off + 2 <= |p| && count > 0
    ensures var n := FromBE16(p[off..off + 2]);
            ParameterSets(p[off..], count, last) ==
            if off + 2 + n > |p| then None else ParameterSets(p[off + 2 + n..], count - 1, p[off + 2..off + 2 + n])
  {
    hide FromBE16, ParameterSets;
    var s, n := p[off..], FromBE16(p[off..off + 2]);
    SetsStep(s, count, last);
    assert s[..2] == p[off..off + 2];
    if off + 2 + n <= |p| {
      assert s[2..2 + n] == p[off + 2..off + 2 + n] && s[2 + n..] == p[off + 2 + n..];
    }
  }

  method ReadConfig(p: bytes, start: nat) returns (ok: bool, sps: bytes, pps: bytes)
    requires start <= |p|
    ensures ParseConfig(p[start..]) == if ok then Some(Config(sps, pps)) else None
  {
    hide ParameterSets;
    ok, sps, pps := false, [], [];
    var off := start;
    if off >= |p| { return; }
    var numSPS := p[off] % 32;
    assert p[off..][1..] == p[off + 1..];
    off := off + 1;
    ok, sps, off := ReadSets(p, off, numSPS);
    if !ok { return; }
    if off >= |p| {
      ok := false;
      return;
    }
    var numPPS := p[off];
    assert p[off..][1..] == p[off + 1..];
    off := off + 1;
    ok, pps, off := ReadSets(p, off, numPPS);
  }

  function SetRecords(sets: seq<bytes>): bytes {
    if sets == [] then [] else BE16(|sets[0]|) + (sets[0] + SetRecords(sets[1..]))
  }

  function LastOr(sets: seq<bytes>, last: bytes): bytes {
    if sets == [] then last else sets[|sets| - 1]
  }

  lemma {:induction false} SetsParse(sets: seq<bytes>, last: bytes, t: bytes)
    requires forall x :: x in sets ==> |x| < 0x1_0000
    ensures ParameterSets(SetRecords(sets) + t, |sets|, last) == Some(Sets(LastOr(sets, last), t))
    decreases |sets|
  {
    hide BE16, FromBE16;
    if sets == [] {
      assert SetRecords(sets) + t == t;
    } else {
      var x, more := sets[0], SetRecords(sets[1..]) + t;
      assert x in sets;
      BE16RoundTrip(|x|);
      OneSet(BE16(|x|), x, more, |sets|, last);
      Regroup(BE16(|x|), x, SetRecords(sets[1..]), t);
      SetsParse(sets[1..], x, t);
    }
  }

  lemma Regroup(a: bytes, b: bytes, c: bytes, d: bytes)
    ensures a + (b + c) + d == a + b + (c + d)
  {
  }

  lemma OneSet(len: bytes, x: bytes, t: bytes, count: nat, last: bytes)
    requires |len| == 2 && FromBE16(len) == |x| && count > 0
    ensures ParameterSets(len + x + t, count, last) == ParameterSets(t, count - 1, x)
  {
    var s := len + x + t;
    assert s[..2] == len;
    assert s[2..2 + |x|] == x;
    assert s[2 + |x|..] == t;
  }

  function ConfigRecord(reserved: nat, spss: seq<bytes>, ppss: seq<bytes>, extension: bytes): bytes
    requires reserved < 8 && |spss| < 32 && |ppss| < 256
  {
    [(reserved * 32 + |spss|) as byte] + (SetRecords(spss) + ([|ppss| as byte] + (SetRecords(ppss) + extension)))
  }

  /** Every well-formed record yields its last sequence and its last picture parameter set. */
  lemma ConfigParses(reserved: nat, spss: seq<bytes>, ppss: seq<bytes>, extension: bytes)
    requires reserved < 8 && |spss| < 32 && |ppss| < 256
    requires forall x :: x in spss + ppss ==> |x| < 0x1_0000
    ensures ParseConfig(ConfigRecord(reserved, spss, ppss, extension))
         == Some(Config(LastOr(spss, []), LastOr(ppss, [])))
  {
    hide SetRecords, ParameterSets, ParseConfig, LastOr;
    var pps := SetRecords(ppss) + extension;
    var sps := SetRecords(spss) + ([|ppss| as byte] + pps);
    forall x | x in spss ensures |x| < 0x1_0000 { assert x in spss + ppss; }
    forall x | x in ppss ensures |x| < 0x1_0000 { assert x in spss + ppss; }
    SetsParse(spss, [], [|ppss| as byte] + pps);
    SetsParse(ppss, [], extension);
    TwoLists((reserved * 32 + |spss|) as byte, sps, |ppss| as byte, pps);
  }

  lemma TwoLists(first: byte, sps: bytes, second: byte, pps: bytes)
    requires ParameterSets(sps, first % 32, []).Some?
    requires ParameterSets(sps, first % 32, []).value.rest == [second] + pps
    requires ParameterSets(pps, second, []).Some?
    ensures ParseConfig([first] + sps)
         == Some(Config(ParameterSets(sps, first % 32, []).value.last, ParameterSets(pps, second, []).value.last))
  {
    hide ParameterSets;
    assert ([first] + sps)[1..] == sps && ([second] + pps)[1..] == pps;
  }

  /** At most `count` sets stand at the front of `s`; fewer of them only where less than two bytes follow. */
  ghost predicate SetsStand(sets: seq<bytes>, s: bytes, count: nat, rest: bytes) {
    && |sets| <= count && (forall x :: x in sets ==> |x| < 0x1_0000)
    && s == SetRecords(sets) + rest && (|sets| < count ==> |rest| < 2)
  }

  lemma FirstSet(sets: seq<bytes>, s: bytes, count: nat, rest: bytes)
    requires sets != [] && SetsStand(sets, s, count, rest)
    ensures var x, more := sets[0], SetRecords(sets[1..]) + rest;
            |x| < 0x1_0000 && s == BE16(|x|) + x + more && SetsStand(sets[1..], more, count - 1, rest)
  {
    hide BE16;
    assert sets[0] in sets;
    Regroup(BE16(|sets[0]|), sets[0], SetRecords(sets[1..]), rest);
  }

  lemma {:induction false} SetsAreRead(sets: seq<bytes>, s: bytes, count: nat, last: bytes, rest: bytes)
    requires SetsStand(sets, s, count, rest)
    ensures ParameterSets(s, count, last) == Some(Sets(LastOr(sets, last), rest))
    decreases |sets|
  {
    hide ParameterSets, BE16, FromBE16;
    if sets == [] {
      assert s == rest;
      SetsEnd(s, count, last);
    } else {
      hide SetRecords, SetsStand;
      var x, more := sets[0], SetRecords(sets[1..]) + rest;
      FirstSet(sets, s, count, rest);
      BE16RoundTrip(|x|);
      CountIsPositive(sets, s, count, rest);
      OneSet(BE16(|x|), x, more, count, last);
      SetsAreRead(sets[1..], more, count - 1, x, rest);
    }
  }

  lemma CountIsPositive(sets: seq<bytes>, s: bytes, count: nat, rest: bytes)
    requires sets != [] && SetsStand(sets, s, count, rest)
    ensures count > 0
  {
  }

  lemma NoSets(s: bytes, count: nat, last: bytes)
    requires count == 0 || |s| < 2
    ensures SetsStand([], s, count, s) && LastOr([], last) == last
  {
    assert [] + s == s;
  }

  lemma OneMoreSet(x: bytes, more: seq<bytes>, t: bytes, count: nat, rest: bytes, last: bytes)
    requires count > 0 && |x| < 0x1_0000 && SetsStand(more, t, count - 1, rest)
    ensures SetsStand([x] + more, BE16(|x|) + x + t, count, rest) && LastOr([x] + more, last) == LastOr(more, x)
  {
    hide BE16;
    assert ([x] + more)[1..] == more;
    Regroup(BE16(|x|), x, SetRecords(more), rest);
  }

  lemma {:induction false} SetsWereThere(s: bytes, count: nat, last: bytes) returns (sets: seq<bytes>)
    requires ParameterSets(s, count, last).Some?
    ensures var o := ParameterSets(s, count, last).value;
            SetsStand(sets, s, count, o.rest) && o.last == LastOr(sets, last)
    decreases count
  {
    hide ParameterSets, BE16, FromBE16, SetsStand, LastOr;
    if count == 0 || |s| < 2 {
      SetsEnd(s, count, last);
      NoSets(s, count, last);
      sets := [];
    } else {
      SetsStep(s, count, last);
      var n := FromBE16(s[..2]);
      var x, t := s[2..2 + n], s[2 + n..];
      var more := SetsWereThere(t, count - 1, x);
      sets := [x] + more;
      BE16Inverse(s[..2]);
      assert s == s[..2] + x + t;
      OneMoreSet(x, more, t, count, ParameterSets(s, count, last).value.rest, last);
    }
  }

  /** The two counted lists of a decoder configuration record, from the first count on: `u` starts at the second. */
  ghost predicate ConfigStands(s: bytes, spss: seq<bytes>, ppss: seq<bytes>, u: bytes, rest: bytes) {
    s != [] && u != [] && SetsStand(spss, s[1..], s[0] % 32, u) && SetsStand(ppss, u[1..], u[0], rest)
  }

  /** A configuration is found exactly where such lists stand, and it is their last entries. */
  lemma ConfigExactly(s: bytes, c: Config)
    ensures ParseConfig(s) == Some(c)
       <==> exists spss, ppss, u, rest ::
              ConfigStands(s, spss, ppss, u, rest) && c == Config(LastOr(spss, []), LastOr(ppss, []))
  {
    hide ParameterSets, SetsStand, LastOr;
    if ParseConfig(s) == Some(c) {
      var spss := SetsWereThere(s[1..], s[0] % 32, []);
      var u := ParameterSets(s[1..], s[0] % 32, []).value.rest;
      var ppss := SetsWereThere(u[1..], u[0], []);
      assert ConfigStands(s, spss, ppss, u, ParameterSets(u[1..], u[0], []).value.rest);
    }
    if exists spss, ppss, u, rest ::
         ConfigStands(s, spss, ppss, u, rest) && c == Config(LastOr(spss, []), LastOr(ppss, []))
    {
      var spss: seq<bytes>, ppss: seq<bytes>, u: bytes, rest: bytes :|
        ConfigStands(s, spss, ppss, u, rest) && c == Config(LastOr(spss, []), LastOr(ppss, []));
      SetsAreRead(spss, s[1..], s[0] % 32, [], u);
      SetsAreRead(ppss, u[1..], u[0] as nat, [], rest);
    }
  }

  ghost predicate IsSlice(x: bytes, s: bytes) {
    exists i, j :: 0 <= i <= j <= |s| && x == s[i..j]
  }

  lemma Slice(p: bytes, i: nat, j: nat)
    requires i <= j <= |p|
    ensures IsSlice(p[i..j], p)
  {
  }

  lemma {:induction false} SetsAreSlices(p: bytes, off: nat, count: nat, last: bytes)
    requires off <= |p| && IsSlice(last, p)
    ensures match ParameterSets(p[off..], count, last)
            case None => true
            case Some(a) => IsSlice(a.last, p)
    decreases count
  {
    hide FromBE16, IsSlice, ParameterSets;
    if count == 0 || |p| < off + 2 {
      SetsEnd(p[off..], count, last);
    } else {
      SetsAt(p, off, count, last);
      var n := FromBE16(p[off..off + 2]);
      if off + 2 + n <= |p| {
        Slice(p, off + 2, off + 2 + n);
        SetsAreSlices(p, off + 2 + n, count - 1, p[off + 2..off + 2 + n]);
      }
    }
  }

  /** On any bytes, what is accepted as parameter sets are pieces of the payload. */
  lemma ConfigSlices(p: bytes)
    ensures match ParseConfig(p)
            case None => true
            case Some(c) => IsSlice(c.sps, p) && IsSlice(c.pps, p)
  {
    hide ParameterSets;
    assert [] == p[0..0];
    if p != [] {
      SetsAreSlices(p, 1, p[0] % 32, []);
      match ParameterSets(p[1..], p[0] % 32, [])
      case None =>
      case Some(a) =>
        if a.rest != [] {
          var off := |p| - |a.rest|;
          assert a.rest == p[off..] && a.rest[1..] == p[off + 1..];
          SetsAreSlices(p, off + 1, a.rest[0], []);
        }
    }
  }

  // ---------------------------------------------------------------- video messages

  const AVC := 7

  /** The frame a video message carries, if it carries one that is passed on. */
  function ParseVideo(m: Message): Option<Frame> {
    var p := m.payload;
    if |p| < 5 || p[0] % 16 != AVC then None else
    var frame := Frame(p[1] == 0, p[0] / 16 == 1, [], [], [], FromBE24(p[2..5]), m.timestamp);
    if p[1] == 0 then
      if |p| < 11 then None else
      match ParseConfig(p[10..])
      case None => None
      case Some(c) => Some(frame.(sps := c.sps, pps := c.pps))
    else if p[1] == 1 then
      if Nalus(p[5..]) == [] then None else Some(frame.(nalu := Nalus(p[5..])))
    else None
  }

  /** The five bytes before the data: frame type and codec, packet type, composition time. */
  function VideoTag(frameType: nat, packetType: byte, cts: nat): bytes
    requires frameType < 16
  {
    [frameType * 16 + 7, packetType] + BE24(cts)
  }

  lemma TagFields(frameType: nat, packetType: byte, cts: nat, data: bytes)
    requires frameType < 16 && cts < 0x100_0000
    ensures var p := VideoTag(frameType, packetType, cts) + data;
            && |p| == 5 + |data| && p[0] % 16 == 7 && p[0] / 16 == frameType && p[1] == packetType
            && FromBE24(p[2..5]) == cts && p[5..] == data
  {
    hide BE24, FromBE24;
    BE24RoundTrip(cts);
    var p := VideoTag(frameType, packetType, cts) + data;
    assert p[2..5] == BE24(cts);
    assert p[5..] == data;
  }

  /** A message of NAL units is passed on with its times, its key-frame mark and its non-empty units, if it has any. */
  lemma UnitsArePassedOn(m: Message, frameType: nat, cts: nat, units: seq<bytes>, tail: bytes)
    requires frameType < 16 && cts < 0x100_0000 && Prefixable(units) && Truncated(tail)
    requires m.payload == VideoTag(frameType, 1, cts) + (Records(units) + tail)
    ensures ParseVideo(m) == if NonEmpty(units) == [] then None
                             else Some(Frame(false, frameType == 1, [], [], Records(NonEmpty(units)), cts, m.timestamp))
  {
    hide VideoTag, Nalus, FromBE24, Records, NonEmpty, Truncated;
    TagFields(frameType, 1, cts, Records(units) + tail);
    NalusOfRecords(units, tail);
    RecordsEmpty(NonEmpty(units));
  }

  lemma RecordsEmpty(units: seq<bytes>)
    ensures Records(units) == [] <==> units == []
  {
  }

  /** A sequence header is passed on with the last parameter sets of its record. */
  lemma ConfigurationIsPassedOn(m: Message, frameType: nat, cts: nat, head: bytes, reserved: nat,
                                spss: seq<bytes>, ppss: seq<bytes>, extension: bytes)
    requires frameType < 16 && cts < 0x100_0000 && |head| == 5 && reserved < 8 && |spss| < 32 && |ppss| < 256
    requires forall x :: x in spss + ppss ==> |x| < 0x1_0000
    requires m.payload == VideoTag(frameType, 0, cts) + (head + ConfigRecord(reserved, spss, ppss, extension))
    ensures ParseVideo(m) == Some(Frame(true, frameType == 1, LastOr(spss, []), LastOr(ppss, []), [], cts, m.timestamp))
  {
    hide VideoTag, ParseConfig, FromBE24, SetRecords;
    var record := ConfigRecord(reserved, spss, ppss, extension);
    assert |record| >= 2;
    hide ConfigRecord;
    TagFields(frameType, 0, cts, head + record);
    assert m.payload[10..] == m.payload[5..][5..] == record;
    ConfigParses(reserved, spss, ppss, extension);
  }

  method HandleVideo(m: Message) returns (frame: Frame, gotFrame: bool)
    ensures ParseVideo(m) == if gotFrame then Some(frame) else None
  {
    hide Nalus, ParseConfig, FromBE24;
    var p := m.payload;
    gotFrame := false;
    frame := Frame(false, false, [], [], [], 0, m.timestamp);
    if |p| < 5 || p[0] % 16 != AVC { return; }
    frame := Frame(p[1] == 0, p[0] / 16 == 1, [], [], [], FromBE24(p[2..5]), m.timestamp);
    if p[1] == 0 {
      if |p| < 11 { return; }
      var sps, pps;
      gotFrame, sps, pps := ReadConfig(p, 10);
      frame := frame.(sps := sps, pps := pps);
    } else if p[1] == 1 {
      var nalu := ExtractNalus(p, 5);
      frame := frame.(nalu := nalu);
      gotFrame := nalu != [];
    }
  }
}
