// AMF0 written down without the codec: which bytes spell which value, after the AMF 0 specification and with the
// liberties the decoder takes; and that the decoder accepts exactly these spellings.

module AmfGrammar {
  import opened Bytes
  import opened Amf

  /** One way of writing a value. */
  datatype Node =
    | Num(d: Double)
    | Bool(x: byte)
    | Str(s: bytes)
    | Obj(pairs: seq<Keyed>)
    | Void(tag: byte)
    | Assoc(count: bytes, pairs: seq<Keyed>, stop: Stop)
    | Items(nodes: seq<Node>)

  datatype Keyed = Keyed(key: bytes, node: Node)

  /** How an associative array ends: at an end marker, or because the bytes run out before, in or after a key length. */
  datatype Stop = Marker(b: byte) | RunsOut | OnlyZeros | KeyTooLong(length: nat)

  function Spell(n: Node): bytes
    decreases n, 0
  {
    match n
    case Num(d) => [0] + d
    case Bool(x) => [1, x]
    case Str(s) => [2] + (BE16(|s|) + s)
    case Obj(ps) => [3] + (SpellPairs(ps) + [0, 0, 9])
    case Void(tag) => [tag]
    case Assoc(count, ps, stop) => [8] + (count + (SpellPairs(ps) + SpellStop(stop)))
    case Items(ns) => [10] + (BE32(|ns|) + SpellNodes(ns))
  }

  function SpellPairs(ps: seq<Keyed>): bytes
    decreases ps, 1
  {
    if ps == [] then [] else BE16(|ps[0].key|) + (ps[0].key + (Spell(ps[0].node) + SpellPairs(ps[1..])))
  }

  function SpellNodes(ns: seq<Node>): bytes
    decreases ns, 1
  {
    if ns == [] then [] else Spell(ns[0]) + SpellNodes(ns[1..])
  }

  function SpellStop(stop: Stop): bytes {
    match stop
    case Marker(b) => [0, 0, b]
    case RunsOut => []
    case OnlyZeros => [0, 0]
    case KeyTooLong(n) => BE16(n)
  }

  function Meaning(n: Node): Value
    decreases n, 0
  {
    match n
    case Num(d) => Number(d)
    case Bool(x) => Boolean(x != 0)
    case Str(s) => String(s)
    case Obj(ps) => Object(PairsMean(ps))
    case Void(_) => Null
    case Assoc(_, ps, _) => EcmaArray(PairsMean(ps))
    case Items(ns) => StrictArray(NodesMean(ns))
  }

  function PairsMean(ps: seq<Keyed>): seq<Field>
    decreases ps, 1
  {
    if ps == [] then [] else [Field(ps[0].key, Meaning(ps[0].node))] + PairsMean(ps[1..])
  }

  function NodesMean(ns: seq<Node>): seq<Value>
    decreases ns, 1
  {
    if ns == [] then [] else [Meaning(ns[0])] + NodesMean(ns[1..])
  }

  /** A spelling in front of the bytes `after`, which matter only to an array cut short. */
  predicate WellFormed(n: Node, after: bytes)
    decreases n, 0
  {
    match n
    case Num(_) => true
    case Bool(_) => true
    case Str(s) => |s| < 0x1_0000
    case Obj(ps) => PairsOk(ps, [0, 0, 9] + after)
    case Void(tag) => tag !in {0, 1, 2, 3, 8, 10}
    case Assoc(count, ps, stop) => |count| == 4 && PairsOk(ps, SpellStop(stop) + after) && StopOk(stop, after)
    case Items(ns) => |ns| < 0x1_0000_0000 && NodesOk(ns, after)
  }

  predicate PairsOk(ps: seq<Keyed>, after: bytes)
    decreases ps, 1
  {
    ps == []
    || (0 < |ps[0].key| < 0x1_0000 && WellFormed(ps[0].node, SpellPairs(ps[1..]) + after) && PairsOk(ps[1..], after))
  }

  predicate NodesOk(ns: seq<Node>, after: bytes)
    decreases ns, 1
  {
    ns == [] || (WellFormed(ns[0], SpellNodes(ns[1..]) + after) && NodesOk(ns[1..], after))
  }

  predicate StopOk(stop: Stop, after: bytes) {
    match stop
    case Marker(_) => true
    case RunsOut => |after| < 2
    case OnlyZeros => after == []
    case KeyTooLong(n) => |after| < n < 0x1_0000
  }

  lemma AssocTagged(t: bytes)
    ensures Decode([8] + t) ==
            if |t| < 4 then None else
            match DecodeEcma(t[4..])
            case None => None
            case Some(p) => Some(Parsed(EcmaArray(p.value), p.rest))
  {
    hide DecodeEcma;
    assert ([8] + t)[1..] == t;
  }

  lemma ItemsTagged(t: bytes)
    ensures Decode([10] + t) ==
            if |t| < 4 then None else
            match DecodeItems(t[4..], FromBE32(t[..4]))
            case None => None
            case Some(p) => Some(Parsed(StrictArray(p.value), p.rest))
  {
    hide DecodeItems, FromBE32;
    assert ([10] + t)[1..] == t;
  }

  // ---------------------------------------------------------------- what is spelled is decoded

  /** Arrays, strings and objects nested anywhere: decoding gives the value and stops at the bytes behind it. */
  lemma {:induction false} SpelledIsDecoded(n: Node, t: bytes)
    requires WellFormed(n, t)
    ensures Decode(Spell(n) + t) == Some(Parsed(Meaning(n), t))
    decreases n, 0
  {
    hide Decode, DecodeFields, DecodeEcma, DecodeItems, SpellStop, StopOk, BE16, BE32;
    match n {
      case Num(d) => NumberRoundTrip(d, t);
      case Bool(x) => BoolDecodes(x, t);
      case Str(s) =>
        StringRoundTrip(s, t);
        assert [2] + EncodeShort(s) == [2] + (BE16(|s|) + s);
      case Obj(ps) =>
        EndMarker(t);
        PairsDecode(ps, [0, 0, 9] + t, [], t);
        assert PairsMean(ps) + [] == PairsMean(ps);
        ObjectDecodes(SpellPairs(ps), t, PairsMean(ps));
      case Void(tag) => DecodeTagged(tag, t);
      case Assoc(count, ps, stop) =>
        StopDecodes(stop, t);
        EcmaDecodes(ps, SpellStop(stop) + t, [], t);
        assert PairsMean(ps) + [] == PairsMean(ps);
        AssocDecodes(count, SpellPairs(ps), SpellStop(stop), t, PairsMean(ps));
      case Items(ns) =>
        NodesDecode(ns, t);
        ItemsDecode(SpellNodes(ns), |ns|, t, NodesMean(ns));
    }
  }

  lemma BoolDecodes(x: byte, t: bytes)
    ensures Decode([1, x] + t) == Some(Parsed(Boolean(x != 0), t))
  {
    DecodeTagged(1, [x] + t);
    assert ([x] + t)[1..] == t;
    assert [1, x] + t == [1] + ([x] + t);
  }

  lemma ObjectDecodes(body: bytes, t: bytes, fs: seq<Field>)
    requires DecodeFields(body + ([0, 0, 9] + t)) == Some(Parsed(fs, t))
    ensures Decode([3] + (body + [0, 0, 9]) + t) == Some(Parsed(Object(fs), t))
  {
    hide Decode, DecodeFields;
    assert body + ([0, 0, 9] + t) == body + [0, 0, 9] + t;
    ObjectRoundTrip(body + [0, 0, 9], t);
  }

  lemma AssocDecodes(count: bytes, body: bytes, stop: bytes, t: bytes, fs: seq<Field>)
    requires |count| == 4 && DecodeEcma(body + (stop + t)) == Some(Parsed(fs, t))
    ensures Decode([8] + (count + (body + stop)) + t) == Some(Parsed(EcmaArray(fs), t))
  {
    hide Decode, DecodeEcma;
    var u := count + (body + (stop + t));
    assert [8] + (count + (body + stop)) + t == [8] + u;
    AssocTagged(u);
    assert u[4..] == body + (stop + t);
  }

  lemma ItemsDecode(body: bytes, count: nat, t: bytes, vs: seq<Value>)
    requires count < 0x1_0000_0000 && DecodeItems(body + t, count) == Some(Parsed(vs, t))
    ensures Decode([10] + (BE32(count) + body) + t) == Some(Parsed(StrictArray(vs), t))
  {
    hide Decode, DecodeItems, BE32, FromBE32;
    BE32RoundTrip(count);
    var u := BE32(count) + (body + t);
    assert [10] + (BE32(count) + body) + t == [10] + u;
    ItemsTagged(u);
    assert u[..4] == BE32(count) && u[4..] == body + t;
  }

  lemma PairsCons(p: Keyed, more: seq<Keyed>, after: bytes)
    ensures var ps := [p] + more;
            && SpellPairs(ps) + after == BE16(|p.key|) + (p.key + (Spell(p.node) + (SpellPairs(more) + after)))
            && PairsMean(ps) == [Field(p.key, Meaning(p.node))] + PairsMean(more)
            && (PairsOk(ps, after) <==>
                  0 < |p.key| < 0x1_0000 && WellFormed(p.node, SpellPairs(more) + after) && PairsOk(more, after))
  {
    hide BE16, Spell, Meaning, WellFormed;
    assert ([p] + more)[1..] == more;
    Regroup(BE16(|p.key|), p.key, Spell(p.node), SpellPairs(more), after);
  }

  /** The same, ready for decoding. */
  lemma FirstPair(ps: seq<Keyed>, after: bytes)
    requires ps != [] && PairsOk(ps, after)
    ensures var p, rest := ps[0], SpellPairs(ps[1..]) + after;
            && 0 < |p.key| < 0x1_0000 && WellFormed(p.node, rest) && PairsOk(ps[1..], after)
            && SpellPairs(ps) + after == EncodeShort(p.key) + (Spell(p.node) + rest)
            && PairsMean(ps) == [Field(p.key, Meaning(p.node))] + PairsMean(ps[1..])
  {
    hide BE16, Spell, Meaning, WellFormed;
    var p := ps[0];
    Regroup(BE16(|p.key|), p.key, Spell(p.node), SpellPairs(ps[1..]), after);
  }

  lemma PrefixedSome(f: Field, a: seq<Field>, b: seq<Field>, t: bytes)
    ensures Prefixed([f], Some(Parsed(a + b, t))) == Some(Parsed([f] + a + b, t))
  {
    assert [f] + (a + b) == [f] + a + b;
  }

  lemma {:induction false} PairsDecode(ps: seq<Keyed>, after: bytes, fs: seq<Field>, t: bytes)
    requires PairsOk(ps, after) && DecodeFields(after) == Some(Parsed(fs, t))
    ensures DecodeFields(SpellPairs(ps) + after) == Some(Parsed(PairsMean(ps) + fs, t))
    decreases ps, 1
  {
    hide Decode, DecodeFields, Spell, Meaning, WellFormed, EncodeShort, Prefixed;
    if ps == [] {
      assert SpellPairs(ps) + after == after && PairsMean(ps) + fs == fs;
    } else {
      hide SpellPairs, PairsMean, PairsOk;
      var p, rest := ps[0], SpellPairs(ps[1..]) + after;
      FirstPair(ps, after);
      SpelledIsDecoded(p.node, rest);
      PairsDecode(ps[1..], after, fs, t);
      DecodeKey(p.key, Spell(p.node) + rest);
      PrefixedSome(Field(p.key, Meaning(p.node)), PairsMean(ps[1..]), fs, t);
    }
  }

  lemma Regroup(a: bytes, b: bytes, c: bytes, d: bytes, e: bytes)
    ensures a + (b + (c + d)) + e == a + b + (c + (d + e)) && a + b + (c + (d + e)) == a + (b + (c + (d + e)))
  {
  }

  lemma {:induction false} EcmaDecodes(ps: seq<Keyed>, after: bytes, fs: seq<Field>, t: bytes)
    requires PairsOk(ps, after) && DecodeEcma(after) == Some(Parsed(fs, t))
    ensures DecodeEcma(SpellPairs(ps) + after) == Some(Parsed(PairsMean(ps) + fs, t))
    decreases ps, 1
  {
    hide Decode, DecodeEcma, Spell, Meaning, WellFormed, EncodeShort, Prefixed;
    if ps == [] {
      assert SpellPairs(ps) + after == after && PairsMean(ps) + fs == fs;
    } else {
      hide SpellPairs, PairsMean, PairsOk;
      var p, rest := ps[0], SpellPairs(ps[1..]) + after;
      FirstPair(ps, after);
      SpelledIsDecoded(p.node, rest);
      EcmaDecodes(ps[1..], after, fs, t);
      EcmaKey(p.key, Spell(p.node) + rest);
      PrefixedSome(Field(p.key, Meaning(p.node)), PairsMean(ps[1..]), fs, t);
    }
  }

  lemma EcmaKey(key: bytes, s: bytes)
    requires 0 < |key| < 0x1_0000 && Decode(s).Some?
    ensures DecodeEcma(EncodeShort(key) + s) ==
            Prefixed([Field(key, Decode(s).value.value)], DecodeEcma(Decode(s).value.rest))
  {
    hide Decode, BE16, FromBE16;
    BE16RoundTrip(|key|);
    var e, n := EncodeShort(key) + s, |key|;
    assert e[..2] == BE16(n);
    assert e[2..2 + n] == key && e[2 + n..] == s;
    KeyedIs(key, s);
    assert DecodeEcmaPair(e) == Some(Pair(Field(key, Decode(s).value.value), Decode(s).value.rest));
  }

  lemma KeyedIs(key: bytes, s: bytes)
    ensures DecodeKeyed(key, s) ==
            match Decode(s)
            case None => None
            case Some(v) => Some(Pair(Field(key, v.value), v.rest))
  {
    hide Decode;
  }

  lemma StopDecodes(stop: Stop, t: bytes)
    requires StopOk(stop, t)
    ensures DecodeEcma(SpellStop(stop) + t) == Some(Parsed([], t))
  {
    hide BE16;
    var s := SpellStop(stop) + t;
    match stop {
      case Marker(b) => assert s[..2] == [0, 0] && s[3..] == t;
      case RunsOut => assert s == t;
      case OnlyZeros => assert s[..2] == [0, 0] && s[2..] == t;
      case KeyTooLong(n) =>
        BE16RoundTrip(n);
        assert s[..2] == BE16(n) && s[2..] == t;
    }
    assert DecodeEcmaPair(s) == Some(End(t));
  }

  lemma NodesCons(n: Node, more: seq<Node>, t: bytes)
    ensures var ns := [n] + more;
            && SpellNodes(ns) + t == Spell(n) + (SpellNodes(more) + t)
            && NodesMean(ns) == [Meaning(n)] + NodesMean(more)
            && (NodesOk(ns, t) <==> WellFormed(n, SpellNodes(more) + t) && NodesOk(more, t))
  {
    hide Spell, Meaning, WellFormed;
    assert ([n] + more)[1..] == more;
    assert Spell(n) + SpellNodes(more) + t == Spell(n) + (SpellNodes(more) + t);
  }

  lemma {:induction false} NodesDecode(ns: seq<Node>, t: bytes)
    requires NodesOk(ns, t)
    ensures DecodeItems(SpellNodes(ns) + t, |ns|) == Some(Parsed(NodesMean(ns), t))
    decreases ns, 1
  {
    if ns == [] {
      assert SpellNodes(ns) + t == t;
      ItemsDone(t);
    } else {
      hide Decode, DecodeItems, Spell, SpellNodes, Meaning, NodesMean, WellFormed, NodesOk;
      assert ns == [ns[0]] + ns[1..];
      NodesCons(ns[0], ns[1..], t);
      SpelledIsDecoded(ns[0], SpellNodes(ns[1..]) + t);
      NodesDecode(ns[1..], t);
      ItemsStep(SpellNodes(ns) + t, |ns|);
    }
  }

  // ---------------------------------------------------------------- what is decoded is spelled

  /** `n` is a spelling of `v` at the front of `s`, with `rest` behind it. */
  ghost predicate Spelling(n: Node, s: bytes, v: Value, rest: bytes) {
    s == Spell(n) + rest && Meaning(n) == v && WellFormed(n, rest)
  }

  lemma SimpleSpellings(t: bytes)
    ensures |t| >= 8 ==> Spelling(Num(t[..8]), [0] + t, Number(t[..8]), t[8..])
    ensures t != [] ==> Spelling(Bool(t[0]), [1] + t, Boolean(t[0] != 0), t[1..])
  {
    if |t| >= 8 {
      assert [0] + t[..8] + t[8..] == [0] + t;
    }
    if t != [] {
      assert [1, t[0]] + t[1..] == [1] + t;
    }
  }

  lemma VoidSpelling(tag: byte, t: bytes)
    requires tag !in {0, 1, 2, 3, 8, 10}
    ensures Spelling(Void(tag), [tag] + t, Null, t)
  {
  }

  lemma ObjectSpelling(t: bytes, ps: seq<Keyed>, rest: bytes)
    requires t == SpellPairs(ps) + ([0, 0, 9] + rest) && PairsOk(ps, [0, 0, 9] + rest)
    ensures Spelling(Obj(ps), [3] + t, Object(PairsMean(ps)), rest)
  {
    Framed([3], SpellPairs(ps), [0, 0, 9], rest);
  }

  lemma AssocSpelling(count: bytes, t: bytes, ps: seq<Keyed>, stop: Stop, rest: bytes)
    requires |count| == 4 && t == SpellPairs(ps) + (SpellStop(stop) + rest)
    requires PairsOk(ps, SpellStop(stop) + rest) && StopOk(stop, rest)
    ensures Spelling(Assoc(count, ps, stop), [8] + (count + t), EcmaArray(PairsMean(ps)), rest)
  {
    hide SpellStop, StopOk;
    Regroup([8], count, SpellPairs(ps), SpellStop(stop), rest);
    assert [8] + count + (SpellPairs(ps) + (SpellStop(stop) + rest)) == [8] + (count + t);
  }

  lemma ItemsSpelling(t: bytes, ns: seq<Node>, rest: bytes)
    requires |ns| < 0x1_0000_0000 && t == SpellNodes(ns) + rest && NodesOk(ns, rest)
    ensures Spelling(Items(ns), [10] + (BE32(|ns|) + t), StrictArray(NodesMean(ns)), rest)
  {
    hide BE32;
    Framed([10], BE32(|ns|), SpellNodes(ns), rest);
  }

  /** Nothing else is accepted. */
  lemma {:induction false} DecodedIsSpelled(s: bytes) returns (n: Node)
    requires Decode(s).Some?
    ensures Spelling(n, s, Decode(s).value.value, Decode(s).value.rest)
    decreases |s|, 1
  {
    hide Decode, DecodeShort, DecodeFields, DecodeEcma, DecodeItems, BE32, FromBE32;
    hide Spelling, Spell, Meaning, WellFormed;
    NothingDecodes(s);
    var tag, t, rest := s[0], s[1..], Decode(s).value.rest;
    assert s == [tag] + t;
    DecodeTagged(tag, t);
    SimpleSpellings(t);
    if tag == 0 {
      n := Num(t[..8]);
    } else if tag == 1 {
      n := Bool(t[0]);
    } else if tag == 2 {
      n := ShortIsSpelled(t);
    } else if tag == 3 {
      var ps := FieldsAreSpelled(t);
      n := Obj(ps);
      ObjectSpelling(t, ps, rest);
    } else if tag == 8 {
      AssocTagged(t);
      var ps, stop := EcmaIsSpelled(t[4..]);
      n := Assoc(t[..4], ps, stop);
      assert t == t[..4] + t[4..];
      AssocSpelling(t[..4], t[4..], ps, stop, rest);
    } else if tag == 10 {
      ItemsTagged(t);
      var ns := ItemsAreSpelled(t[4..], FromBE32(t[..4]));
      n := Items(ns);
      BE32Inverse(t[..4]);
      assert t == t[..4] + t[4..];
      ItemsSpelling(t[4..], ns, rest);
    } else {
      n := Void(tag);
      VoidSpelling(tag, t);
    }
  }

  lemma NothingDecodes(s: bytes)
    requires Decode(s).Some?
    ensures s != []
  {
  }

  lemma Framed(a: bytes, b: bytes, c: bytes, d: bytes)
    ensures a + (b + c) + d == a + (b + (c + d))
  {
  }

  lemma ShortIsSpelled(t: bytes) returns (n: Node)
    requires DecodeShort(t).Some?
    ensures Spelling(n, [2] + t, String(DecodeShort(t).value.value), DecodeShort(t).value.rest)
  {
    hide BE16;
    var k := FromBE16(t[..2]);
    n := Str(t[2..2 + k]);
    BE16Inverse(t[..2]);
    assert t == t[..2] + (t[2..2 + k] + t[2 + k..]);
    Framed([2], t[..2], t[2..2 + k], t[2 + k..]);
  }

  lemma {:induction false} FieldsAreSpelled(s: bytes) returns (ps: seq<Keyed>)
    requires DecodeFields(s).Some?
    ensures var o := DecodeFields(s).value;
            s == SpellPairs(ps) + ([0, 0, 9] + o.rest) && PairsMean(ps) == o.value && PairsOk(ps, [0, 0, 9] + o.rest)
    decreases |s|, 3
  {
    hide DecodePair, Decode, WellFormed, BE16;
    FieldsUnfold(s);
    var o := DecodeFields(s).value;
    match DecodePair(s)
    case Some(End(rest)) =>
      ps := [];
      EndIsSpelled(s);
      assert [] + s == s;
    case Some(Pair(field, rest)) =>
      var n := PairIsSpelled(s);
      var more := FieldsAreSpelled(rest);
      ps := [Keyed(field.key, n)] + more;
      PairsCons(Keyed(field.key, n), more, [0, 0, 9] + o.rest);
  }

  lemma FieldsUnfold(s: bytes)
    ensures DecodeFields(s) ==
            match DecodePair(s)
            case None => None
            case Some(End(rest)) => Some(Parsed([], rest))
            case Some(Pair(field, rest)) => Prefixed([field], DecodeFields(rest))
  {
    hide DecodePair;
  }

  lemma EcmaUnfolds(s: bytes)
    ensures DecodeEcma(s) ==
            match DecodeEcmaPair(s)
            case None => None
            case Some(End(rest)) => Some(Parsed([], rest))
            case Some(Pair(field, rest)) => Prefixed([field], DecodeEcma(rest))
  {
    hide DecodeEcmaPair;
  }

  lemma EndIsSpelled(s: bytes)
    requires DecodePair(s).Some? && DecodePair(s).value.End?
    ensures s == [0, 0, 9] + DecodePair(s).value.rest
  {
    BE16Inverse(s[..2]);
    assert s == s[..2] + [s[2]] + s[3..];
  }

  lemma PairParts(s: bytes) returns (key: bytes, u: bytes)
    requires DecodePair(s).Some? && DecodePair(s).value.Pair?
    ensures 0 < |key| < 0x1_0000 && |u| < |s| && s == BE16(|key|) + (key + u) && Decode(u).Some?
    ensures DecodePair(s) == Some(Pair(Field(key, Decode(u).value.value), Decode(u).value.rest))
  {
    hide Decode, BE16;
    var k := FromBE16(s[..2]);
    key, u := s[2..2 + k], s[2 + k..];
    assert DecodePair(s) == DecodeKeyed(key, u);
    KeyedIs(key, u);
    BE16Inverse(s[..2]);
    assert s == s[..2] + (key + u);
  }

  lemma {:induction false} PairIsSpelled(s: bytes) returns (n: Node)
    requires DecodePair(s).Some? && DecodePair(s).value.Pair?
    ensures var p := DecodePair(s).value;
            && 0 < |p.field.key| < 0x1_0000 && Meaning(n) == p.field.value && WellFormed(n, p.rest)
            && s == BE16(|p.field.key|) + (p.field.key + (Spell(n) + p.rest))
    decreases |s|, 2
  {
    hide Decode, DecodePair, BE16, FromBE16, Spell, Meaning, WellFormed;
    var key, u := PairParts(s);
    n := DecodedIsSpelled(u);
  }

  lemma {:induction false} EcmaIsSpelled(s: bytes) returns (ps: seq<Keyed>, stop: Stop)
    requires DecodeEcma(s).Some?
    ensures var o := DecodeEcma(s).value;
            && s == SpellPairs(ps) + (SpellStop(stop) + o.rest) && PairsMean(ps) == o.value
            && PairsOk(ps, SpellStop(stop) + o.rest) && StopOk(stop, o.rest)
    decreases |s|, 3
  {
    hide DecodeEcmaPair, Decode, WellFormed, BE16, SpellStop, StopOk;
    EcmaUnfolds(s);
    var o := DecodeEcma(s).value;
    match DecodeEcmaPair(s)
    case Some(End(rest)) =>
      ps := [];
      stop := StopIsSpelled(s);
      assert [] + s == s;
    case Some(Pair(field, rest)) =>
      var n := EcmaPairIsSpelled(s);
      var more;
      more, stop := EcmaIsSpelled(rest);
      ps := [Keyed(field.key, n)] + more;
      PairsCons(Keyed(field.key, n), more, SpellStop(stop) + o.rest);
  }

  lemma EcmaPairParts(s: bytes) returns (key: bytes, u: bytes)
    requires DecodeEcmaPair(s).Some? && DecodeEcmaPair(s).value.Pair?
    ensures 0 < |key| < 0x1_0000 && |u| < |s| && s == BE16(|key|) + (key + u) && Decode(u).Some?
    ensures DecodeEcmaPair(s) == Some(Pair(Field(key, Decode(u).value.value), Decode(u).value.rest))
  {
    hide Decode, BE16;
    var k := FromBE16(s[..2]);
    key, u := s[2..2 + k], s[2 + k..];
    assert DecodeEcmaPair(s) == DecodeKeyed(key, u);
    KeyedIs(key, u);
    BE16Inverse(s[..2]);
    assert s == s[..2] + (key + u);
  }

  lemma {:induction false} EcmaPairIsSpelled(s: bytes) returns (n: Node)
    requires DecodeEcmaPair(s).Some? && DecodeEcmaPair(s).value.Pair?
    ensures var p := DecodeEcmaPair(s).value;
            && 0 < |p.field.key| < 0x1_0000 && Meaning(n) == p.field.value && WellFormed(n, p.rest)
            && s == BE16(|p.field.key|) + (p.field.key + (Spell(n) + p.rest))
    decreases |s|, 2
  {
    hide Decode, DecodeEcmaPair, BE16, FromBE16, Spell, Meaning, WellFormed;
    var key, u := EcmaPairParts(s);
    n := DecodedIsSpelled(u);
  }

  lemma StopIsSpelled(s: bytes) returns (stop: Stop)
    requires DecodeEcmaPair(s).Some? && DecodeEcmaPair(s).value.End?
    ensures var rest := DecodeEcmaPair(s).value.rest; s == SpellStop(stop) + rest && StopOk(stop, rest)
  {
    if |s| < 2 {
      stop := RunsOut;
    } else {
      var k := FromBE16(s[..2]);
      BE16Inverse(s[..2]);
      assert s == s[..2] + s[2..];
      if k > 0 {
        stop := KeyTooLong(k);
      } else if |s| < 3 {
        stop := OnlyZeros;
      } else {
        stop := Marker(s[2]);
        assert s[2..] == [s[2]] + s[3..];
      }
    }
  }

  lemma {:induction false} ItemsAreSpelled(s: bytes, count: nat) returns (ns: seq<Node>)
    requires DecodeItems(s, count).Some?
    ensures var o := DecodeItems(s, count).value;
            |ns| == count && s == SpellNodes(ns) + o.rest && NodesMean(ns) == o.value && NodesOk(ns, o.rest)
    decreases |s|, 2, count
  {
    hide Decode, DecodeItems, Spell, Meaning, WellFormed;
    if count == 0 {
      ns := [];
      ItemsDone(s);
      assert [] + s == s;
    } else {
      hide SpellNodes, NodesMean, NodesOk;
      ItemsStep(s, count);
      var rest, v := DecodeItems(s, count).value.rest, Decode(s).value;
      var n := DecodedIsSpelled(s);
      var more := ItemsAreSpelled(v.rest, count - 1);
      ns := [n] + more;
      NodesCons(n, more, rest);
    }
  }

  /** The decoder accepts exactly the spelled values, and takes them for what they mean. */
  lemma DecodesExactly(s: bytes, v: Value, rest: bytes)
    ensures Decode(s) == Some(Parsed(v, rest))
       <==> exists n :: WellFormed(n, rest) && Meaning(n) == v && s == Spell(n) + rest
  {
    if Decode(s) == Some(Parsed(v, rest)) {
      var n := DecodedIsSpelled(s);
    }
    if n :| WellFormed(n, rest) && Meaning(n) == v && s == Spell(n) + rest {
      SpelledIsDecoded(n, rest);
    }
  }

  // ---------------------------------------------------------------- the encoder

  /** How the encoder writes a value. */
  function Canonical(v: Value): Node
    decreases v, 0
  {
    match v
    case Number(d) => Num(d)
    case Boolean(b) => Bool(if b then 1 else 0)
    case String(s) => Str(s)
    case Object(fs) => Obj(CanonicalPairs(fs))
    case _ => Void(5)
  }

  function CanonicalPairs(fs: seq<Field>): seq<Keyed>
    decreases fs, 1
  {
    if fs == [] then [] else [Keyed(fs[0].key, Canonical(fs[0].value))] + CanonicalPairs(fs[1..])
  }

  lemma {:induction false} EncodeSpells(v: Value)
    ensures Encode(v) == Spell(Canonical(v))
    decreases v, 0
  {
    if v.Object? {
      EncodeSpellsPairs(v.fields);
    }
  }

  lemma Unended(s: bytes)
    ensures s + [] == s
  {
  }

  lemma {:induction false} EncodeSpellsPairs(fs: seq<Field>)
    ensures EncodeFields(fs) == SpellPairs(CanonicalPairs(fs)) + [0, 0, 9]
    decreases fs, 1
  {
    if fs == [] {
      assert [] + [0, 0, 9] == [0, 0, 9];
    } else {
      hide BE16, Encode;
      EncodeSpells(fs[0].value);
      EncodeSpellsPairs(fs[1..]);
      PairsCons(Keyed(fs[0].key, Canonical(fs[0].value)), CanonicalPairs(fs[1..]), [0, 0, 9]);
      EncodeFieldsCons(fs, []);
      Unended(EncodeFields(fs));
      Unended(EncodeFields(fs[1..]));
    }
  }
}
