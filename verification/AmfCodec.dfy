// AMFDecoder and AMFEncoder: the cursor over a buffer and the growing buffer, proved against module Amf.

module AmfCodec {
  import opened Bytes
  import opened Amf

  class AMFDecoder {
    const data: bytes
    var pos: nat

    ghost predicate Valid()
      reads this
    {
      pos <= |data|
    }

    ghost function Rest(): bytes
      requires Valid()
      reads this
    {
      data[pos..]
    }

    constructor (data: bytes)
      ensures Valid() && Rest() == data
    {
      this.data, pos := data, 0;
    }

    method Empty() returns (b: bool)
      requires Valid()
      ensures b <==> Rest() == []
    {
      b := pos >= |data|;
    }

    method ReadBytes(n: nat) returns (ok: bool, s: bytes)
      requires Valid()
      modifies this
      ensures Valid() && pos >= old(pos)
      ensures ok <==> n <= |old(Rest())|
      ensures ok ==> s == old(Rest())[..n] && Rest() == old(Rest())[n..] && pos == old(pos) + n
    {
      ok, s := pos + n <= |data|, [];
      if ok {
        s := data[pos..pos + n];
        pos := pos + n;
      }
    }

    method ReadU16BE() returns (ok: bool, v: nat)
      requires Valid()
      modifies this
      ensures Valid() && pos >= old(pos)
      ensures ok <==> 2 <= |old(Rest())|
      ensures ok ==> v == FromBE16(old(Rest())[..2]) && Rest() == old(Rest())[2..] && pos == old(pos) + 2
    {
      var b;
      ok, b := ReadBytes(2);
      v := if ok then FromBE16(b) else 0;
    }

    method ReadU32BE() returns (ok: bool, v: uint32)
      requires Valid()
      modifies this
      ensures Valid() && pos >= old(pos)
      ensures ok <==> 4 <= |old(Rest())|
      ensures ok ==> v == FromBE32(old(Rest())[..4]) && Rest() == old(Rest())[4..]
    {
      var b;
      ok, b := ReadBytes(4);
      v := if ok then FromBE32(b) else 0;
    }

    method ReadShortString() returns (ok: bool, s: bytes)
      requires Valid()
      modifies this
      ensures Valid() && pos >= old(pos)
      ensures match DecodeShort(old(Rest()))
              case None => !ok
              case Some(p) => ok && s == p.value && Rest() == p.rest
    {
      ghost var r := Rest();
      s := [];
      var n;
      ok, n := ReadU16BE();
      if ok {
        ok, s := ReadBytes(n);
        assert ok ==> r[2..][..n] == r[2..2 + n] && r[2..][n..] == r[2 + n..];
      }
    }

    static lemma KeyedIs(key: bytes, s: bytes)
      ensures DecodeKeyed(key, s) ==
              match Decode(s)
              case None => None
              case Some(v) => Some(Pair(Field(key, v.value), v.rest))
    {
      hide Decode;
    }

    /** One turn of the object loop. */
    method ReadPair() returns (ok: bool, e: Entry)
      requires Valid()
      modifies this
      ensures Valid() && pos >= old(pos)
      ensures match DecodePair(old(Rest()))
              case None => !ok
              case Some(x) => ok && pos > old(pos) && e == x && Rest() == x.rest
      decreases |data| - pos, 0
    {
      e := End([]);
      ghost var r := Rest();
      var klen, key, val;
      ok, klen := ReadU16BE();
      if !ok { return; }
      if klen == 0 {
        var tag;
        ok, tag := ReadBytes(1);
        if !ok { return; }
        assert r[2..][..1][0] == r[2] && r[2..][1..] == r[3..];
        ok := tag[0] == OBJECT_END;
        e := End(data[pos..]);
        return;
      }
      ok, key := ReadBytes(klen);
      if !ok { return; }
      assert r[2..][..klen] == r[2..2 + klen] && r[2..][klen..] == r[2 + klen..];
      assert Rest() == r[2 + klen..];
      ok, val := ReadValue();
      e := Pair(Field(key, val), data[pos..]);
      KeyedIs(key, r[2 + klen..]);
    }

    /** One turn of the ECMA array loop. */
    method ReadEcmaPair() returns (ok: bool, e: Entry)
      requires Valid()
      modifies this
      ensures Valid() && pos >= old(pos)
      ensures match DecodeEcmaPair(old(Rest()))
              case None => !ok
              case Some(x) => ok && (x.Pair? ==> pos > old(pos)) && e == x && Rest() == x.rest
      decreases |data| - pos, 0
    {
      hide FromBE16, Decode, DecodeKeyed;
      ok, e := true, End(data[pos..]);
      ghost var r := Rest();
      if pos + 2 > |data| { return; }
      var klen, key, val;
      ok, klen := ReadU16BE();
      if klen == 0 {
        if pos < |data| {
          ok, key := ReadBytes(1);
          assert r[2..][1..] == r[3..];
        }
        e := End(data[pos..]);
        return;
      }
      if pos + klen > |data| {
        e := End(data[pos..]);
        return;
      }
      ok, key := ReadBytes(klen);
      assert r[2..][..klen] == r[2..2 + klen] && r[2..][klen..] == r[2 + klen..];
      assert Rest() == r[2 + klen..];
      ok, val := ReadValue();
      e := Pair(Field(key, val), data[pos..]);
      KeyedIs(key, r[2 + klen..]);
    }

    /** The pairs of an object, up to its end marker. */
    method ReadObject() returns (ok: bool, fs: seq<Field>)
      requires Valid()
      modifies this
      ensures Valid() && pos >= old(pos)
      ensures match DecodeFields(old(Rest()))
              case None => !ok
              case Some(p) => ok && fs == p.value && Rest() == p.rest
      decreases |data| - pos, 1
    {
      fs, ok := [], true;
      PrefixedJoins(fs, [], DecodeFields(Rest()));
      while true
        invariant Valid() && pos >= old(pos)
        invariant DecodeFields(old(Rest())) == Prefixed(fs, DecodeFields(Rest()))
        decreases |data| - pos
      {
        var e;
        ok, e := ReadPair();
        if !ok || e.End? {
          assert fs + [] == fs;
          return;
        }
        PrefixedJoins(fs, [e.field], DecodeFields(Rest()));
        fs := fs + [e.field];
      }
    }

    /** The pairs of an ECMA array; the count before them is read and ignored. */
    method ReadECMAArray() returns (ok: bool, fs: seq<Field>)
      requires Valid()
      modifies this
      ensures Valid() && pos >= old(pos)
      ensures |old(Rest())| < 4 ==> !ok
      ensures |old(Rest())| >= 4 ==>
                match DecodeEcma(old(Rest())[4..])
                case None => !ok
                case Some(p) => ok && fs == p.value && Rest() == p.rest
      decreases |data| - pos, 1
    {
      fs := [];
      var count;
      ok, count := ReadU32BE();
      if !ok { return; }
      ghost var start := Rest();
      PrefixedJoins(fs, [], DecodeEcma(start));
      while true
        invariant Valid() && pos >= old(pos)
        invariant DecodeEcma(start) == Prefixed(fs, DecodeEcma(Rest()))
        decreases |data| - pos
      {
        var e;
        ok, e := ReadEcmaPair();
        if !ok || e.End? {
          assert fs + [] == fs;
          return;
        }
        PrefixedJoins(fs, [e.field], DecodeEcma(Rest()));
        fs := fs + [e.field];
      }
    }

    method ReadItems(count: nat) returns (ok: bool, vs: seq<Value>)
      requires Valid()
      modifies this
      ensures Valid() && pos >= old(pos)
      ensures match DecodeItems(old(Rest()), count)
              case None => !ok
              case Some(p) => ok && vs == p.value && Rest() == p.rest
      decreases |data| - pos, 3
    {
      hide Decode, DecodeItems;
      vs, ok := [], true;
      var left := count;
      PrefixedJoins(vs, [], DecodeItems(Rest(), left));
      while left > 0
        invariant Valid() && pos >= old(pos) && ok
        invariant DecodeItems(old(Rest()), count) == Prefixed(vs, DecodeItems(Rest(), left))
        decreases left
      {
        ghost var r := Rest();
        var v;
        ok, v := ReadValue();
        ItemsStep(r, left);
        if !ok { return; }
        PrefixedJoins(vs, [v], DecodeItems(Rest(), left - 1));
        vs := vs + [v];
        left := left - 1;
      }
      ItemsDone(Rest());
      assert vs + [] == vs;
    }

    /** The next value; fails exactly on the inputs on which Amf.Decode has no result. */
    method ReadValue() returns (ok: bool, v: Value)
      requires Valid()
      modifies this
      ensures Valid() && pos >= old(pos)
      ensures match Decode(old(Rest()))
              case None => !ok
              case Some(p) => ok && v == p.value && Rest() == p.rest
      decreases |data| - pos, 2
    {
      v := Null;
      ghost var r := Rest();
      var tag, b, fs;
      ok, tag := ReadBytes(1);
      if !ok { return; }
      if tag[0] == NUMBER {
        ok, b := ReadBytes(8);
        if ok { v := Number(b); }
      } else if tag[0] == BOOLEAN {
        ok, b := ReadBytes(1);
        if ok { v := Boolean(b[0] != 0); }
      } else if tag[0] == STRING {
        ok, b := ReadShortString();
        v := String(b);
      } else if tag[0] == OBJECT {
        ok, fs := ReadObject();
        v := Object(fs);
      } else if tag[0] == ECMA_ARRAY {
        ok, fs := ReadECMAArray();
        v := EcmaArray(fs);
      } else if tag[0] == STRICT_ARRAY {
        var count, vs;
        ok, count := ReadU32BE();
        if !ok { return; }
        ok, vs := ReadItems(count);
        v := StrictArray(vs);
      }
    }
  }

  class AMFEncoder {
    var buf: bytes

    constructor ()
      ensures buf == []
    {
      buf := [];
    }

    method WriteShortString(s: bytes)
      modifies this
      ensures buf == old(buf) + EncodeShort(s)
    {
      buf := buf + BE16(|s|);
      buf := buf + s;
      assert buf == old(buf) + EncodeShort(s);
    }

    method EncodeNull()
      modifies this
      ensures buf == old(buf) + Encode(Null)
    {
      buf := buf + [NULL];
    }

    method EncodeNumber(d: Double)
      modifies this
      ensures buf == old(buf) + Encode(Number(d))
    {
      buf := buf + [NUMBER];
      buf := buf + d;
      assert buf == old(buf) + ([NUMBER] + d);
    }

    method EncodeBoolean(b: bool)
      modifies this
      ensures buf == old(buf) + Encode(Boolean(b))
    {
      buf := buf + [BOOLEAN];
      buf := buf + [if b then 1 else 0];
      assert buf == old(buf) + Encode(Boolean(b));
    }

    method EncodeString(s: bytes)
      modifies this
      ensures buf == old(buf) + Encode(String(s))
    {
      buf := buf + [STRING];
      WriteShortString(s);
      assert buf == old(buf) + ([STRING] + EncodeShort(s));
    }

    method BeginObject()
      modifies this
      ensures buf == old(buf) + [OBJECT]
    {
      buf := buf + [OBJECT];
    }

    method EndObject()
      modifies this
      ensures buf == old(buf) + EncodeFields([])
    {
      buf := buf + BE16(0);
      buf := buf + [OBJECT_END];
      assert buf == old(buf) + [0, 0, OBJECT_END];
    }

    /** One key-value pair, as the reply builders write them. */
    method EncodePair(key: bytes, v: Value)
      modifies this
      ensures buf == old(buf) + (EncodeShort(key) + Encode(v))
      decreases v, 1
    {
      WriteShortString(key);
      EncodeValue(v);
      assert buf == old(buf) + (EncodeShort(key) + Encode(v));
    }

    method EncodeObjectFields(fs: seq<Field>)
      modifies this
      ensures buf == old(buf) + EncodeFields(fs)
      decreases fs, 2
    {
      var i := 0;
      while i < |fs|
        invariant i <= |fs|
        invariant buf + EncodeFields(fs[i..]) == old(buf) + EncodeFields(fs)
      {
        ghost var before, tail := buf, EncodeFields(fs[i + 1..]);
        assert fs[i..][1..] == fs[i + 1..];
        assert fs[i] in fs;
        EncodePair(fs[i].key, fs[i].value);
        assert before + (EncodeShort(fs[i].key) + Encode(fs[i].value) + tail) == buf + tail;
        i := i + 1;
      }
      EndObject();
    }

    /** Appends Amf.Encode of any value tree. */
    method EncodeValue(v: Value)
      modifies this
      ensures buf == old(buf) + Encode(v)
      decreases v, 0
    {
      match v
      case Number(d) => EncodeNumber(d);
      case Boolean(b) => EncodeBoolean(b);
      case String(s) => EncodeString(s);
      case Null => EncodeNull();
      case Object(fs) =>
        BeginObject();
        EncodeObjectFields(fs);
        assert buf == old(buf) + ([OBJECT] + EncodeFields(fs));
      case EcmaArray(_) => EncodeNull();
      case StrictArray(_) => EncodeNull();
    }
  }
}
