// The AMF0 value codec as functions, and what decoding after encoding preserves.

module Amf {
  import opened Bytes

  const NUMBER: byte := 0x00
  const BOOLEAN: byte := 0x01
  const STRING: byte := 0x02
  const OBJECT: byte := 0x03
  const NULL: byte := 0x05
  const ECMA_ARRAY: byte := 0x08
  const OBJECT_END: byte := 0x09
  const STRICT_ARRAY: byte := 0x0A

  /** An IEEE 754 double as its eight bytes, most significant first. */
  type Double = s: bytes | |s| == 8 witness [0, 0, 0, 0, 0, 0, 0, 0]

  datatype Field = Field(key: bytes, value: Value)

  datatype Value =
    | Number(number: Double)
    | Boolean(boolean: bool)
    | String(str: bytes)
    | Object(fields: seq<Field>)
    | Null
    | EcmaArray(fields: seq<Field>)
    | StrictArray(items: seq<Value>)

  // ---------------------------------------------------------------- encoding

  /** The length is truncated to 16 bits, the characters are all written. */
  function EncodeShort(s: bytes): bytes {
    BE16(|s|) + s
  }

  /** Arrays of both kinds are written as null. */
  function Encode(v: Value): bytes
    decreases v, 0
  {
    match v
    case Number(d) => [NUMBER] + d
    case Boolean(b) => [BOOLEAN, if b then 1 else 0]
    case String(s) => [STRING] + EncodeShort(s)
    case Object(fs) => [OBJECT] + EncodeFields(fs)
    case Null => [NULL]
    case EcmaArray(_) => [NULL]
    case StrictArray(_) => [NULL]
  }

  /** The key-value pairs and the end marker. */
  function EncodeFields(fs: seq<Field>): bytes
    decreases fs, 1
  {
    if fs == [] then [0, 0, OBJECT_END]
    else EncodeShort(fs[0].key) + Encode(fs[0].value) + EncodeFields(fs[1..])
  }

  function EncodeAll(vs: seq<Value>): bytes {
    if vs == [] then [] else Encode(vs[0]) + EncodeAll(vs[1..])
  }

  // ---------------------------------------------------------------- decoding

  /** A decoded thing and the bytes after it; None stands for the decoder's exceptions. */
  datatype Parsed<+T> = Parsed(value: T, rest: bytes)

  /** `rest` is what is left of `s` after at least `n` bytes. */
  ghost predicate Suffix(rest: bytes, s: bytes, n: nat) {
    |rest| + n <= |s| && rest == s[|s| - |rest|..]
  }

  /** A parsed list with further elements in front. */
  function Prefixed<T>(xs: seq<T>, o: Option<Parsed<seq<T>>>): Option<Parsed<seq<T>>> {
    match o
    case None => None
    case Some(p) => Some(Parsed(xs + p.value, p.rest))
  }

  lemma PrefixedJoins<T>(xs: seq<T>, ys: seq<T>, o: Option<Parsed<seq<T>>>)
    ensures Prefixed([], o) == o
    ensures Prefixed(xs, Prefixed(ys, o)) == Prefixed(xs + ys, o)
  {
    if o.Some? {
      assert [] + o.value.value == o.value.value;
      assert xs + (ys + o.value.value) == (xs + ys) + o.value.value;
    }
  }

  function DecodeShort(s: bytes): (o: Option<Parsed<bytes>>)
    ensures o.Some? ==> Suffix(o.value.rest, s, 2) && |o.value.value| < 0x1_0000
  {
    if |s| < 2 then None else
    var n := FromBE16(s[..2]);
    if |s| < 2 + n then None else Some(Parsed(s[2..2 + n], s[2 + n..]))
  }

  function Decode(s: bytes): (o: Option<Parsed<Value>>)
    ensures o.Some? ==> Suffix(o.value.rest, s, 1)
    decreases |s|, 3, 0
  {
    if s == [] then None else
    var t := s[1..];
    if s[0] == NUMBER then if |t| < 8 then None else Some(Parsed(Number(t[..8]), t[8..]))
    else if s[0] == BOOLEAN then if t == [] then None else Some(Parsed(Boolean(t[0] != 0), t[1..]))
    else if s[0] == STRING then
      match DecodeShort(t)
      case None => None
      case Some(p) => Some(Parsed(String(p.value), p.rest))
    else if s[0] == OBJECT then
      match DecodeFields(t)
      case None => None
      case Some(p) => Some(Parsed(Object(p.value), p.rest))
    else if s[0] == ECMA_ARRAY then
      if |t| < 4 then None else
      match DecodeEcma(t[4..])
      case None => None
      case Some(p) => Some(Parsed(EcmaArray(p.value), p.rest))
    else if s[0] == STRICT_ARRAY then
      if |t| < 4 then None else
      match DecodeItems(t[4..], FromBE32(t[..4]))
      case None => None
      case Some(p) => Some(Parsed(StrictArray(p.value), p.rest))
    else Some(Parsed(Null, t))
  }

  /** What stands at the head of a list of pairs: its end, or one pair. */
  datatype Entry = End(rest: bytes) | Pair(field: Field, rest: bytes)

  /** An empty key must be followed by the end marker. */
  function DecodePair(s: bytes): (o: Option<Entry>)
    ensures o.Some? ==> Suffix(o.value.rest, s, 3)
    decreases |s|, 1, 0
  {
    if |s| < 2 then None else
    var n := FromBE16(s[..2]);
    if n == 0 then if |s| < 3 || s[2] != OBJECT_END then None else Some(End(s[3..]))
    else if |s| < 2 + n then None
    else DecodeKeyed(s[2..2 + n], s[2 + n..])
  }

  /** The same wire format read leniently: a truncated list ends the array instead of failing. */
  function DecodeEcmaPair(s: bytes): (o: Option<Entry>)
    ensures o.Some? ==> Suffix(o.value.rest, s, if o.value.Pair? then 3 else 0)
    decreases |s|, 1, 0
  {
    if |s| < 2 then Some(End(s)) else
    var n := FromBE16(s[..2]);
    if n == 0 then Some(End(if |s| < 3 then s[2..] else s[3..]))
    else if |s| < 2 + n then Some(End(s[2..]))
    else DecodeKeyed(s[2..2 + n], s[2 + n..])
  }

  function DecodeKeyed(key: bytes, s: bytes): (o: Option<Entry>)
    ensures o.Some? ==> o.value.Pair? && Suffix(o.value.rest, s, 1)
    decreases |s|, 4, 0
  {
    match Decode(s)
    case None => None
    case Some(v) => Some(Pair(Field(key, v.value), v.rest))
  }

  function DecodeFields(s: bytes): (o: Option<Parsed<seq<Field>>>)
    ensures o.Some? ==> Suffix(o.value.rest, s, 1)
    decreases |s|, 2, 0
  {
    match DecodePair(s)
    case None => None
    case Some(End(rest)) => Some(Parsed([], rest))
    case Some(Pair(field, rest)) => Prefixed([field], DecodeFields(rest))
  }

  function DecodeEcma(s: bytes): (o: Option<Parsed<seq<Field>>>)
    ensures o.Some? ==> Suffix(o.value.rest, s, 0)
    decreases |s|, 2, 0
  {
    match DecodeEcmaPair(s)
    case None => None
    case Some(End(rest)) => Some(Parsed([], rest))
    case Some(Pair(field, rest)) => Prefixed([field], DecodeEcma(rest))
  }

  function DecodeItems(s: bytes, count: nat): (o: Option<Parsed<seq<Value>>>)
    ensures o.Some? ==> Suffix(o.value.rest, s, count) && |o.value.value| == count
    decreases |s|, 4, count
  {
    if count == 0 then Some(Parsed([], s)) else
    match Decode(s)
    case None => None
    case Some(v) =>
      Prefixed([v.value], DecodeItems(v.rest, count - 1))
  }

  lemma ItemsDone(s: bytes)
    ensures DecodeItems(s, 0) == Some(Parsed([], s))
  {
  }

  lemma ItemsStep(s: bytes, count: nat)
    requires count > 0
    ensures DecodeItems(s, count) ==
            match Decode(s)
            case None => None
            case Some(v) => Prefixed([v.value], DecodeItems(v.rest, count - 1))
  {
  }

  /** A buffer decoded value by value to its end. */
  function DecodeAll(s: bytes): Option<seq<Value>>
    decreases |s|
  {
    if s == [] then Some([]) else
    match Decode(s)
    case None => None
    case Some(p) =>
      match DecodeAll(p.rest)
      case None => None
      case Some(vs) => Some([p.value] + vs)
  }

  // ---------------------------------------------------------------- which values the decoder can produce

  /** Strings and keys fit their 16-bit lengths and no key is empty, outside arrays, which are not written. */
  predicate Fits(v: Value)
    decreases v, 0
  {
    match v
    case String(s) => |s| < 0x1_0000
    case Object(fs) => FieldsFit(fs)
    case _ => true
  }

  predicate FieldsFit(fs: seq<Field>)
    decreases fs, 1
  {
    fs == [] || (0 < |fs[0].key| < 0x1_0000 && Fits(fs[0].value) && FieldsFit(fs[1..]))
  }

  predicate ArrayFree(v: Value)
    decreases v, 0
  {
    match v
    case Object(fs) => FieldsArrayFree(fs)
    case EcmaArray(_) => false
    case StrictArray(_) => false
    case _ => true
  }

  predicate FieldsArrayFree(fs: seq<Field>)
    decreases fs, 1
  {
    fs == [] || (ArrayFree(fs[0].value) && FieldsArrayFree(fs[1..]))
  }

  /** The value with every array outside other arrays replaced by null. */
  function Normal(v: Value): Value
    decreases v, 0
  {
    match v
    case Object(fs) => Object(NormalFields(fs))
    case EcmaArray(_) => Null
    case StrictArray(_) => Null
    case _ => v
  }

  function NormalFields(fs: seq<Field>): seq<Field>
    decreases fs, 1
  {
    if fs == [] then [] else [Field(fs[0].key, Normal(fs[0].value))] + NormalFields(fs[1..])
  }

  lemma {:induction false} DecodedFits(s: bytes)
    ensures Decode(s).Some? ==> Fits(Decode(s).value.value)
    decreases |s|, 1
  {
    if s != [] && s[0] == OBJECT {
      DecodedFieldsFit(s[1..]);
    }
  }

  lemma {:induction false} DecodedFieldsFit(s: bytes)
    ensures DecodeFields(s).Some? ==> FieldsFit(DecodeFields(s).value.value)
    decreases |s|, 0
  {
    match DecodePair(s)
    case None =>
    case Some(End(_)) =>
    case Some(Pair(field, rest)) =>
      var n := FromBE16(s[..2]);
      assert DecodeKeyed(s[2..2 + n], s[2 + n..]) == Some(Pair(field, rest));
      DecodedFits(s[2 + n..]);
      assert 0 < |field.key| < 0x1_0000 && Fits(field.value);
      DecodedFieldsFit(rest);
      if DecodeFields(rest).Some? {
        var fs := DecodeFields(rest).value.value;
        assert DecodeFields(s).value.value == [field] + fs;
        assert ([field] + fs)[1..] == fs;
      }
  }

  // ---------------------------------------------------------------- round trips

  lemma ShortRoundTrip(s: bytes, t: bytes)
    requires |s| < 0x1_0000
    ensures DecodeShort(EncodeShort(s) + t) == Some(Parsed(s, t))
  {
    BE16RoundTrip(|s|);
    var e := EncodeShort(s) + t;
    assert e[..2] == BE16(|s|);
    assert e[2..2 + |s|] == s;
    assert e[2 + |s|..] == t;
  }

  /** What the decoder makes of a tag and the bytes after it. */
  lemma DecodeTagged(tag: byte, t: bytes)
    ensures Decode([tag] + t) ==
            if tag == NUMBER then if |t| < 8 then None else Some(Parsed(Number(t[..8]), t[8..]))
            else if tag == BOOLEAN then if t == [] then None else Some(Parsed(Boolean(t[0] != 0), t[1..]))
            else if tag == STRING then
              match DecodeShort(t)
              case None => None
              case Some(p) => Some(Parsed(String(p.value), p.rest))
            else if tag == OBJECT then
              match DecodeFields(t)
              case None => None
              case Some(p) => Some(Parsed(Object(p.value), p.rest))
            else if tag == ECMA_ARRAY || tag == STRICT_ARRAY then Decode([tag] + t)
            else Some(Parsed(Null, t))
  {
    assert ([tag] + t)[1..] == t;
  }

  /** Decoding an encoding stops exactly at its end and gives back the value up to arrays. */
  lemma {:induction false} EncodeThenDecode(v: Value, t: bytes)
    requires Fits(v)
    ensures Decode(Encode(v) + t) == Some(Parsed(Normal(v), t))
    decreases v, 0
  {
    match v {
      case Number(d) => NumberRoundTrip(d, t);
      case Boolean(b) => BooleanRoundTrip(b, t);
      case String(s) => StringRoundTrip(s, t);
      case Object(fs) =>
        EncodeThenDecodeFields(fs, t);
        ObjectRoundTrip(EncodeFields(fs), t);
      case _ => DecodeTagged(NULL, t);
    }
  }

  lemma NumberRoundTrip(d: Double, t: bytes)
    ensures Decode([NUMBER] + d + t) == Some(Parsed(Number(d), t))
  {
    DecodeTagged(NUMBER, d + t);
    assert (d + t)[..8] == d && (d + t)[8..] == t;
    assert [NUMBER] + d + t == [NUMBER] + (d + t);
  }

  lemma BooleanRoundTrip(b: bool, t: bytes)
    ensures Decode([BOOLEAN, if b then 1 else 0] + t) == Some(Parsed(Boolean(b), t))
  {
    var x: bytes := [if b then 1 else 0];
    DecodeTagged(BOOLEAN, x + t);
    assert (x + t)[1..] == t;
    assert [BOOLEAN, if b then 1 else 0] + t == [BOOLEAN] + (x + t);
  }

  lemma StringRoundTrip(s: bytes, t: bytes)
    requires |s| < 0x1_0000
    ensures Decode([STRING] + EncodeShort(s) + t) == Some(Parsed(String(s), t))
  {
    hide Decode, DecodeShort;
    DecodeTagged(STRING, EncodeShort(s) + t);
    ShortRoundTrip(s, t);
    assert [STRING] + EncodeShort(s) + t == [STRING] + (EncodeShort(s) + t);
  }

  lemma ObjectRoundTrip(code: bytes, t: bytes)
    requires DecodeFields(code + t).Some? && DecodeFields(code + t).value.rest == t
    ensures Decode([OBJECT] + code + t) == Some(Parsed(Object(DecodeFields(code + t).value.value), t))
  {
    DecodeTagged(OBJECT, code + t);
    assert [OBJECT] + code + t == [OBJECT] + (code + t);
  }

  lemma {:induction false} EncodeThenDecodeFields(fs: seq<Field>, t: bytes)
    requires FieldsFit(fs)
    ensures DecodeFields(EncodeFields(fs) + t) == Some(Parsed(NormalFields(fs), t))
    decreases fs, 1
  {
    if fs == [] {
      EndMarker(t);
    } else {
      var key, value, more := fs[0].key, fs[0].value, EncodeFields(fs[1..]) + t;
      EncodeThenDecode(value, more);
      EncodeThenDecodeFields(fs[1..], t);
      EncodeFieldsCons(fs, t);
      DecodeKey(key, Encode(value) + more);
    }
  }

  lemma DecodeKey(key: bytes, s: bytes)
    requires 0 < |key| < 0x1_0000 && Decode(s).Some?
    ensures DecodeFields(EncodeShort(key) + s) ==
            Prefixed([Field(key, Decode(s).value.value)], DecodeFields(Decode(s).value.rest))
  {
    BE16RoundTrip(|key|);
    DecodeOneField(BE16(|key|), key, s);
  }

  lemma EndMarker(t: bytes)
    ensures DecodeFields([0, 0, OBJECT_END] + t) == Some(Parsed([], t))
  {
    var e := [0, 0, OBJECT_END] + t;
    assert e[..2] == [0, 0];
    assert e[3..] == t;
  }

  lemma EncodeFieldsCons(fs: seq<Field>, t: bytes)
    requires fs != []
    ensures EncodeFields(fs) + t
         == EncodeShort(fs[0].key) + (Encode(fs[0].value) + (EncodeFields(fs[1..]) + t))
  {
    var a, b, c := EncodeShort(fs[0].key), Encode(fs[0].value), EncodeFields(fs[1..]);
    assert a + b + c + t == a + (b + (c + t));
  }

  /** What the decoder does with one key-value pair. */
  lemma DecodeOneField(len: bytes, key: bytes, s: bytes)
    requires |len| == 2 && FromBE16(len) == |key| > 0
    requires Decode(s).Some?
    ensures DecodeFields(len + key + s) ==
            Prefixed([Field(key, Decode(s).value.value)], DecodeFields(Decode(s).value.rest))
  {
    var e, n := len + key + s, |key|;
    assert e[..2] == len;
    assert e[2..2 + n] == key;
    assert e[2 + n..] == s;
    assert DecodePair(e) == Some(Pair(Field(key, Decode(s).value.value), Decode(s).value.rest));
  }

  lemma {:induction false} NormalIsArrayFree(v: Value)
    ensures ArrayFree(Normal(v)) && (ArrayFree(v) <==> Normal(v) == v)
    ensures Encode(Normal(v)) == Encode(v)
    decreases v, 0
  {
    if v.Object? {
      NormalFieldsAreArrayFree(v.fields);
    }
  }

  lemma {:induction false} NormalFieldsAreArrayFree(fs: seq<Field>)
    ensures FieldsArrayFree(NormalFields(fs)) && (FieldsArrayFree(fs) <==> NormalFields(fs) == fs)
    ensures EncodeFields(NormalFields(fs)) == EncodeFields(fs)
    decreases fs, 1
  {
    if fs != [] {
      NormalIsArrayFree(fs[0].value);
      NormalFieldsAreArrayFree(fs[1..]);
      var ns := NormalFields(fs);
      assert ns[1..] == NormalFields(fs[1..]);
      assert fs == [fs[0]] + fs[1..];
    }
  }

  /** A value comes back, whatever follows it, exactly when its strings and keys fit and it has no arrays. */
  lemma RoundTripsExactly(v: Value, t: bytes)
    ensures Decode(Encode(v) + t) == Some(Parsed(v, t)) <==> Fits(v) && ArrayFree(v)
  {
    NormalIsArrayFree(v);
    if Fits(v) {
      EncodeThenDecode(v, t);
    } else {
      DecodedFits(Encode(v) + t);
    }
  }

  /** A decoded value re-encodes to something that decodes to its normal form, and a second pass changes nothing. */
  lemma DecodeThenEncodeNormalises(s: bytes, t: bytes)
    requires Decode(s).Some?
    ensures var v := Decode(s).value.value;
            && Decode(Encode(v) + t) == Some(Parsed(Normal(v), t))
            && Encode(Normal(v)) == Encode(v)
            && Normal(Normal(v)) == Normal(v)
            && Decode(Encode(Normal(v)) + t) == Some(Parsed(Normal(v), t))
  {
    var v := Decode(s).value.value;
    DecodedFits(s);
    EncodeThenDecode(v, t);
    NormalIsArrayFree(v);
    NormalIsArrayFree(Normal(v));
  }

  predicate AllFit(vs: seq<Value>) {
    forall v :: v in vs ==> Fits(v) && ArrayFree(v)
  }

  /** A list of values written one after the other is read back as that list. */
  lemma {:induction false} EncodeAllThenDecodeAll(vs: seq<Value>)
    requires AllFit(vs)
    ensures DecodeAll(EncodeAll(vs)) == Some(vs)
  {
    if vs != [] {
      RoundTripsExactly(vs[0], EncodeAll(vs[1..]));
      EncodeAllThenDecodeAll(vs[1..]);
      assert vs == [vs[0]] + vs[1..];
      assert Encode(vs[0]) != [];
    }
  }
}
