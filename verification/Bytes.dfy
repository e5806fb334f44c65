// Bytes, machine integers and the fixed-width byte orders shared by the wire formats.

module Bytes {
  type byte = x: int | 0 <= x < 0x100

  type uint32 = x: int | 0 <= x < 0x1_0000_0000

  type bytes = seq<byte>

  datatype Option<+T> = None | Some(value: T)

  // The source writes `(v >> 8k) & 0xFF`; on unsigned values that is a division and a remainder.

  function BE16(v: nat): (s: bytes)
    ensures |s| == 2
  {
    [v / 0x100 % 0x100, v % 0x100]
  }

  function BE24(v: nat): (s: bytes)
    ensures |s| == 3
  {
    [v / 0x1_0000 % 0x100, v / 0x100 % 0x100, v % 0x100]
  }

  function BE32(v: nat): (s: bytes)
    ensures |s| == 4
  {
    [v / 0x100_0000 % 0x100, v / 0x1_0000 % 0x100, v / 0x100 % 0x100, v % 0x100]
  }

  function LE32(v: nat): (s: bytes)
    ensures |s| == 4
  {
    [v % 0x100, v / 0x100 % 0x100, v / 0x1_0000 % 0x100, v / 0x100_0000 % 0x100]
  }

  function FromBE16(s: bytes): (v: nat)
    requires |s| == 2
    ensures v < 0x1_0000
  {
    var a: nat, b: nat := s[0], s[1];
    a * 0x100 + b
  }

  function FromBE24(s: bytes): (v: nat)
    requires |s| == 3
    ensures v < 0x100_0000
  {
    var a: nat, b: nat, c: nat := s[0], s[1], s[2];
    a * 0x1_0000 + b * 0x100 + c
  }

  function FromBE32(s: bytes): uint32
    requires |s| == 4
  {
    var a: nat, b: nat, c: nat, d: nat := s[0], s[1], s[2], s[3];
    a * 0x100_0000 + b * 0x1_0000 + c * 0x100 + d
  }

  function FromLE32(s: bytes): uint32
    requires |s| == 4
  {
    var a: nat, b: nat, c: nat, d: nat := s[3], s[2], s[1], s[0];
    a * 0x100_0000 + b * 0x1_0000 + c * 0x100 + d
  }

  // The byte orders in general: positional notation, most significant digit first or last.

  function BigEndian(s: bytes): nat {
    if s == [] then 0 else BigEndian(s[..|s| - 1]) * 0x100 + s[|s| - 1]
  }

  function LittleEndian(s: bytes): nat {
    if s == [] then 0 else s[0] + LittleEndian(s[1..]) * 0x100
  }

  lemma ReadsBigEndian(s: bytes)
    ensures |s| == 2 ==> FromBE16(s) == BigEndian(s)
    ensures |s| == 3 ==> FromBE24(s) == BigEndian(s)
    ensures |s| == 4 ==> FromBE32(s) == BigEndian(s)
  {
    if 2 <= |s| <= 4 {
      BigEndianSnoc(s[..1]);
      BigEndianSnoc(s[..2]);
      assert s[..1][..0] == [] && s[..2][..1] == s[..1] && s[..|s|] == s;
      if |s| >= 3 {
        BigEndianSnoc(s[..3]);
        assert s[..3][..2] == s[..2];
      }
      if |s| == 4 {
        BigEndianSnoc(s);
        assert s[..4][..3] == s[..3];
      }
    }
  }

  lemma BigEndianSnoc(s: bytes)
    requires s != []
    ensures BigEndian(s) == BigEndian(s[..|s| - 1]) * 0x100 + s[|s| - 1]
  {
  }

  lemma ReadsLittleEndian(s: bytes)
    requires |s| == 4
    ensures FromLE32(s) == LittleEndian(s)
  {
    assert s[1..][1..] == s[2..] && s[2..][1..] == s[3..] && s[3..][1..] == [];
    assert LittleEndian(s[3..]) == s[3];
    assert LittleEndian(s[2..]) == s[2] + LittleEndian(s[3..]) * 0x100;
    assert LittleEndian(s[1..]) == s[1] + LittleEndian(s[2..]) * 0x100;
  }

  /** The writers put a number's low digits down in these orders. */
  lemma WritesInOrder(v: nat)
    ensures BigEndian(BE16(v)) == v % 0x1_0000 && BigEndian(BE24(v)) == v % 0x100_0000
    ensures BigEndian(BE32(v)) == v % 0x1_0000_0000 && LittleEndian(LE32(v)) == v % 0x1_0000_0000
  {
    hide BE16, BE24, BE32, LE32, FromBE16, FromBE24, FromBE32, FromLE32, BigEndian, LittleEndian;
    ReadsBigEndian(BE16(v));
    ReadsBigEndian(BE24(v));
    ReadsBigEndian(BE32(v));
    ReadsLittleEndian(LE32(v));
    BE16RoundTrip(v);
    BE24RoundTrip(v);
    BE32RoundTrip(v);
    LE32RoundTrip(v);
  }

  // Writing truncates to the field's width, reading back gives the value modulo that width.

  /** The base-256 digits of a number, and what its remainders are in terms of them. */
  lemma Digits(v: nat) returns (a: nat, b: nat, c: nat, d: nat)
    ensures a < 0x100 && b < 0x100 && c < 0x100 && d < 0x100
    ensures a == v % 0x100 && b == v / 0x100 % 0x100 && c == v / 0x1_0000 % 0x100 && d == v / 0x100_0000 % 0x100
    ensures v % 0x1_0000 == b * 0x100 + a
    ensures v % 0x100_0000 == c * 0x1_0000 + b * 0x100 + a
    ensures v % 0x1_0000_0000 == d * 0x100_0000 + c * 0x1_0000 + b * 0x100 + a
  {
    var u, w, x, y := v / 0x100, v / 0x1_0000, v / 0x100_0000, v / 0x1_0000_0000;
    a, b, c, d := v % 0x100, u % 0x100, w % 0x100, x % 0x100;
    Digit(v, u, a);
    Digit(u, w, b);
    Digit(w, x, c);
    Digit(x, y, d);
  }

  lemma Digit(v: nat, u: nat, a: nat)
    requires u == v / 0x100 && a == v % 0x100
    ensures v == u * 0x100 + a
  {
  }

  lemma BE16RoundTrip(v: nat)
    ensures FromBE16(BE16(v)) == v % 0x1_0000
  {
    var _, _, _, _ := Digits(v);
  }

  lemma BE24RoundTrip(v: nat)
    ensures FromBE24(BE24(v)) == v % 0x100_0000
  {
    var _, _, _, _ := Digits(v);
  }

  lemma BE32RoundTrip(v: nat)
    ensures FromBE32(BE32(v)) == v % 0x1_0000_0000
  {
    var _, _, _, _ := Digits(v);
  }

  lemma LE32RoundTrip(v: nat)
    ensures FromLE32(LE32(v)) == v % 0x1_0000_0000
  {
    var _, _, _, _ := Digits(v);
  }

  /** A three-byte field does not show what is above its 24 bits. */
  lemma BE24Truncates(v: nat)
    ensures BE24(v % 0x100_0000) == BE24(v)
  {
    var q, r := v / 0x100_0000, v % 0x100_0000;
    LowByte(v, q, r, 0x1_0000);
    LowByte(v, q * 0x100, r, 0x100);
    LowByte(v, q * 0x1_0000, r, 1);
  }

  lemma LowByte(v: nat, q: nat, r: nat, d: nat)
    requires d == 1 || d == 0x100 || d == 0x1_0000
    requires v == q * d * 0x100 + r
    ensures v / d % 0x100 == r / d % 0x100
  {
    assert v / d == q * 0x100 + r / d;
  }

  lemma LastDigit(q: nat, a: nat)
    requires a < 0x100
    ensures (q * 0x100 + a) / 0x100 == q && (q * 0x100 + a) % 0x100 == a
  {
  }

  lemma BE16Inverse(s: bytes)
    requires |s| == 2
    ensures BE16(FromBE16(s)) == s
  {
    var a: nat, b: nat := s[0], s[1];
    LastDigit(a, b);
    LastDigit(0, a);
  }

  lemma BE24Inverse(s: bytes)
    requires |s| == 3
    ensures BE24(FromBE24(s)) == s
  {
    var a: nat, b: nat, c: nat := s[0], s[1], s[2];
    LastDigit(a * 0x100 + b, c);
    LastDigit(a, b);
    LastDigit(0, a);
    var v := FromBE24(s);
    assert v / 0x1_0000 == v / 0x100 / 0x100;
  }

  lemma BE32Inverse(s: bytes)
    requires |s| == 4
    ensures BE32(FromBE32(s)) == s
  {
    var a: nat, b: nat, c: nat, d: nat := s[0], s[1], s[2], s[3];
    LastDigit(a * 0x1_0000 + b * 0x100 + c, d);
    LastDigit(a * 0x100 + b, c);
    LastDigit(a, b);
    LastDigit(0, a);
    var v := FromBE32(s);
    assert v / 0x1_0000 == v / 0x100 / 0x100 && v / 0x100_0000 == v / 0x1_0000 / 0x100;
  }

  lemma LE32Inverse(s: bytes)
    requires |s| == 4
    ensures LE32(FromLE32(s)) == s
  {
    hide BE32, FromBE32;
    BE32Inverse([s[3], s[2], s[1], s[0]]);
    Mirrored(s);
  }

  lemma Mirrored(s: bytes)
    requires |s| == 4
    ensures FromLE32(s) == FromBE32([s[3], s[2], s[1], s[0]])
    ensures forall v: nat :: LE32(v) == [BE32(v)[3], BE32(v)[2], BE32(v)[1], BE32(v)[0]]
  {
  }

  /** Concatenates a list of byte strings. */
  function Concat(parts: seq<bytes>): bytes {
    if parts == [] then [] else parts[0] + Concat(parts[1..])
  }

  lemma {:induction false} ConcatSplit(a: seq<bytes>, b: seq<bytes>)
    ensures Concat(a + b) == Concat(a) + Concat(b)
  {
    if a == [] {
      assert a + b == b;
    } else {
      assert (a + b)[1..] == a[1..] + b;
      ConcatSplit(a[1..], b);
    }
  }
}
