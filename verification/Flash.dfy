// The flash effect on a frame: the strobe's brightness over time, and BINFlashApplyToPixelBuffer for all its pixel
// formats.

module Flash {
  import opened Bytes
  import opened Reals
  import opened Pixels
  import opened Packed
  import Prefs

  // ---------------------------------------------------------------- the strobe

  /** The brightness when the flash is lit. */
  function LitBrightness(p: Prefs.Dictionary): (b: real)
    ensures 0.0 <= b <= 1.0
  {
    var b := Clamp(Prefs.DoubleForKey(p, Prefs.Brightness, 51.0) / 100.0, 0.0, 1.0);
    var r := Clamp(Prefs.DoubleForKey(p, Prefs.Region, 30.0) / 100.0, 0.1, 1.0);
    Clamp(b * (r * 0.25 + 0.90), 0.0, 1.0)
  }

  /** fmod(x, 1.0) of a non-negative number. */
  function Phase(x: real): (f: real)
    requires x >= 0.0
    ensures 0.0 <= f < 1.0
  {
    x - x.Floor as real
  }

  /** How many periods of the strobe have passed after `elapsed` seconds. */
  function Periods(p: Prefs.Dictionary, elapsed: real): (x: real)
    requires elapsed >= 0.0
    ensures x >= 0.0
  {
    var frequency := Fmax(Prefs.DoubleForKey(p, Prefs.Speed, 3.0), 0.5);
    Product(frequency, elapsed);
    frequency * elapsed
  }

  /** The part of each period in which the flash is lit; none: all of it. */
  function OffThreshold(speed: real): (t: real)
    ensures 0.0 <= t <= 0.5
  {
    if speed > 15.0 then Fmax(0.0, 0.5 - (speed - 15.0) / 30.0) else 0.5
  }

  /** BINFlashCurrentBrightness after `elapsed` seconds; no brightness stands for NaN, the flash being off. */
  function CurrentBrightness(p: Prefs.Dictionary, elapsed: real): (b: Option<real>)
    requires elapsed >= 0.0
    ensures b.Some? ==> 0.0 <= b.value <= 1.0
  {
    if !Prefs.BoolForKey(p, Prefs.Flash, false) then None
    else if Prefs.BoolForKey(p, Prefs.StaticFlash, false) then Some(LitBrightness(p))
    else
      var t := OffThreshold(Prefs.DoubleForKey(p, Prefs.Speed, 3.0));
      if t > 0.0 && Phase(Periods(p, elapsed)) >= t then Some(0.0) else Some(LitBrightness(p))
  }

  /** In the first part, of length `t`, of the `k`-th unit interval. */
  predicate InPart(x: real, t: real, k: nat) {
    k as real <= x < k as real + t
  }

  lemma PartHasPhase(x: real, t: real, k: nat)
    requires x >= 0.0 && 0.0 < t <= 1.0 && InPart(x, t, k)
    ensures Phase(x) < t
  {
    assert x.Floor == k;
  }

  lemma PhaseHasPart(x: real, t: real)
    requires x >= 0.0 && Phase(x) < t
    ensures InPart(x, t, x.Floor)
  {
  }

  /** How much of a period is lit. */
  function LitPart(p: Prefs.Dictionary): (t: real)
    ensures 0.0 < t <= 1.0
  {
    var t := OffThreshold(Prefs.DoubleForKey(p, Prefs.Speed, 3.0));
    if t > 0.0 then t else 1.0
  }

  /** The flash has had `x` periods by now and is in the lit part of one of them. */
  ghost predicate Lit(p: Prefs.Dictionary, x: real) {
    exists k: nat :: InPart(x, LitPart(p), k)
  }

  lemma LitIsPhase(p: Prefs.Dictionary, x: real)
    requires x >= 0.0
    ensures Lit(p, x) <==> Phase(x) < LitPart(p)
  {
    hide InPart, LitPart, Phase;
    if Phase(x) < LitPart(p) {
      PhaseHasPart(x, LitPart(p));
      var k: nat := x.Floor;
    }
    if Lit(p, x) {
      var k: nat :| InPart(x, LitPart(p), k);
      PartHasPhase(x, LitPart(p), k);
    }
  }

  /** A strobing flash has its brightness exactly in the lit part of its periods, and none in the rest. */
  lemma StrobesExactly(p: Prefs.Dictionary, elapsed: real)
    requires elapsed >= 0.0
    requires Prefs.BoolForKey(p, Prefs.Flash, false) && !Prefs.BoolForKey(p, Prefs.StaticFlash, false)
    ensures CurrentBrightness(p, elapsed) == Some(if Lit(p, Periods(p, elapsed)) then LitBrightness(p) else 0.0)
  {
    hide LitBrightness, OffThreshold, Periods, Phase, Lit;
    LitIsPhase(p, Periods(p, elapsed));
  }

  /** How bright a lit flash is, for settings in their ranges: 0.925 to 1.15 of the brightness setting, at most full. */
  lemma LitBrightnessIs(p: Prefs.Dictionary)
    ensures var b, r := Prefs.DoubleForKey(p, Prefs.Brightness, 51.0), Prefs.DoubleForKey(p, Prefs.Region, 30.0);
            0.0 <= b <= 100.0 && 10.0 <= r <= 100.0 ==>
              LitBrightness(p) == Fmin(1.0, b * (90.0 + 0.25 * r) / 10000.0)
  {
    var b, r := Prefs.DoubleForKey(p, Prefs.Brightness, 51.0), Prefs.DoubleForKey(p, Prefs.Region, 30.0);
    if 0.0 <= b <= 100.0 && 10.0 <= r <= 100.0 {
      Product(b / 100.0, r / 100.0 * 0.25 + 0.90);
      assert (r / 100.0 * 0.25 + 0.90) * 100.0 == 90.0 + 0.25 * r;
      assert b / 100.0 * (r / 100.0 * 0.25 + 0.90) == b * (90.0 + 0.25 * r) / 10000.0;
    }
  }

  /** The lit part of a period: half up to a speed of 15, then less, and all of it from 30 on. */
  lemma LitPartIs(p: Prefs.Dictionary)
    ensures var speed := Prefs.DoubleForKey(p, Prefs.Speed, 3.0);
            LitPart(p) == if speed <= 15.0 then 0.5 else if speed < 30.0 then (30.0 - speed) / 30.0 else 1.0
  {
  }

  /** The strobe has as many periods a second as the speed setting says, but one in two seconds at least. */
  lemma PeriodsPerSecond(p: Prefs.Dictionary, elapsed: real)
    requires elapsed >= 0.0
    ensures var speed := Prefs.DoubleForKey(p, Prefs.Speed, 3.0);
            Periods(p, elapsed) == (if speed >= 0.5 then speed else 0.5) * elapsed
  {
  }

  /** Off without the flash setting; steady if it is static. */
  lemma FlashModes(p: Prefs.Dictionary, elapsed: real)
    requires elapsed >= 0.0
    ensures CurrentBrightness(p, elapsed).None? <==> !Prefs.BoolForKey(p, Prefs.Flash, false)
    ensures Prefs.BoolForKey(p, Prefs.Flash, false) && Prefs.BoolForKey(p, Prefs.StaticFlash, false) ==>
              CurrentBrightness(p, elapsed) == Some(LitBrightness(p))
  {
    hide LitBrightness, Periods;
  }

  // ---------------------------------------------------------------- formats

  datatype Format = Biplanar | Packed422 | Packed32

  /** Both biplanar codes, both packed 4:2:2 codes; anything else is taken for 32-bit colour. */
  function FormatOf(code: uint32): Format {
    if code == 0x3432_3066 || code == 0x3432_3076 then Biplanar
    else if code == 0x7975_7673 || code == 0x7975_7373 then Packed422
    else Packed32
  }

  function LayoutOf(code: uint32, hue: real): Layout
    requires hue >= 0.0
  {
    var c := Softened(HueToRGB(hue));
    if FormatOf(code) == Packed422 then Yuv422(TargetCb(hue), TargetCr(hue))
    else if code == 32 then Rgb32(1, 2, 3, c)
    else if code == 0x4247_5241 then Rgb32(2, 1, 0, c)
    else if code == 0x5247_4241 then Rgb32(0, 1, 2, c)
    else Rgb32(3, 2, 1, c)
  }

  const MAX_PIXELS := 4_000_000

  datatype Buffer = Buffer(
    code: uint32, width: nat, height: nat, base: array<byte>, stride: nat, chroma: array<byte>, chromaStride: nat)

  /** The planes are as big as their rows say. `chroma` is there in biplanar buffers only. */
  predicate WellFormed(b: Buffer) {
    && b.width >= 2 && b.height >= 2 && b.base.Length == b.height * b.stride
    && match FormatOf(b.code)
       case Biplanar =>
         b.base != b.chroma && b.width <= b.stride && b.width / 2 * 2 <= b.chromaStride
         && b.chroma.Length == b.height / 2 * b.chromaStride
       case Packed422 => b.width % 2 == 0 && 2 * b.width <= b.stride
       case Packed32 => true
  }

  function RegionSetting(p: Prefs.Dictionary): Setting {
    Setting(Prefs.BoolForKey(p, Prefs.ManualRegion, false), Prefs.DoubleForKey(p, Prefs.Region, 30.0),
            Prefs.DoubleForKey(p, Prefs.RegionX, 0.5), Prefs.DoubleForKey(p, Prefs.RegionY, 0.42))
  }

  function HueSetting(p: Prefs.Dictionary): real {
    Prefs.DoubleForKey(p, Prefs.Hue, 0.33)
  }

  /** Region and hue are those of the packed settings, and in the upper middle, green, when there are none. */
  lemma SettingsAreRead(p: Prefs.Dictionary, f: Prefs.Fields)
    ensures var q := p + Prefs.Settings(f);
            && RegionSetting(q)
               == Setting(f.manualRegion, f.region as real, f.regionX as real / 1000.0, f.regionY as real / 1000.0)
            && HueSetting(q) == if f.hue.None? then -1.0 else f.hue.value as real / 1000.0
    ensures RegionSetting(map[]) == Setting(false, 30.0, 0.5, 0.42) && HueSetting(map[]) == 0.33
  {
    hide Prefs.Settings, Prefs.DoubleForKey, Prefs.BoolForKey;
    Prefs.Lookups(p, f);
    NothingIsRead();
  }

  lemma NothingIsRead()
    ensures RegionSetting(map[]) == Setting(false, 30.0, 0.5, 0.42) && HueSetting(map[]) == 0.33
  {
  }

  /** The face region is worked out: the flash is lit and the frame not too big. */
  predicate LooksForFace(p: Prefs.Dictionary, elapsed: real, b: Buffer)
    requires elapsed >= 0.0
  {
    CurrentBrightness(p, elapsed).Some? && CurrentBrightness(p, elapsed).value > 0.0 && b.width * b.height <= 4_000_000
  }

  /** The frame is touched at all: the flash is lit, the frame not too big, there is a colour, the format is known. */
  predicate Flashes(p: Prefs.Dictionary, elapsed: real, b: Buffer)
    requires elapsed >= 0.0
  {
    && LooksForFace(p, elapsed, b) && HueSetting(p) >= 0.0
    && (FormatOf(b.code) == Packed32 ==> 4 * b.width <= b.stride)
  }

  /** The luma bytes of a biplanar buffer, all bytes of a packed one. */
  ghost predicate BaseIs(b: Buffer, was: seq<byte>, now: seq<byte>, e: Ellipse, brightness: real, hue: real)
    requires b.width > 0 && b.height > 0 && e.rx > 0.0 && e.ry > 0.0 && hue >= 0.0
    requires Plane(was, b.stride, b.height) && Plane(now, b.stride, b.height)
  {
    forall y: nat, x: nat :: y < b.height && x < b.stride ==>
      now[Index(b.stride, y, x)] ==
      if FormatOf(b.code) == Biplanar then NewLuma(was, b.stride, b.width, b.height, e, brightness, y, x)
      else NewPacked(LayoutOf(b.code, hue), was, b.stride, b.width, b.height, e, brightness, y, x)
  }

  ghost predicate ChromaIs(b: Buffer, was: seq<byte>, now: seq<byte>, e: Ellipse, brightness: real, hue: real)
    requires b.width >= 2 && b.height >= 2 && e.rx > 0.0 && e.ry > 0.0 && hue >= 0.0
    requires Plane(was, b.chromaStride, b.height / 2) && Plane(now, b.chromaStride, b.height / 2)
  {
    forall y: nat, x: nat :: y < b.height / 2 && x < b.chromaStride ==>
      now[Index(b.chromaStride, y, x)]
      == NewChroma(was, b.chromaStride, b.width, b.height, e, brightness, TargetCb(hue), TargetCr(hue), y, x)
  }

  // ---------------------------------------------------------------- what the formats' names say

  /** The letters of a four-character code. */
  function Letters(code: uint32): (s: string)
    ensures |s| == 4
  {
    seq(4, i requires 0 <= i < 4 => BE32(code)[i] as char)
  }

  lemma FormatsByName(code: uint32)
    ensures FormatOf(code) == Biplanar <==> Letters(code) == "420f" || Letters(code) == "420v"
    ensures FormatOf(code) == Packed422 <==> Letters(code) == "yuvs" || Letters(code) == "yuss"
  {
    hide BE32;
    SpelledBy(code, "420f", [0x34, 0x32, 0x30, 0x66]);
    SpelledBy(code, "420v", [0x34, 0x32, 0x30, 0x76]);
    SpelledBy(code, "yuvs", [0x79, 0x75, 0x76, 0x73]);
    SpelledBy(code, "yuss", [0x79, 0x75, 0x73, 0x73]);
  }

  lemma SpelledBy(code: uint32, name: string, s: bytes)
    requires |name| == |s| == 4 && forall i :: 0 <= i < 4 ==> name[i] == s[i] as char
    ensures Letters(code) == name <==> code == FromBE32(s)
  {
    hide BE32, FromBE32;
    BE32Inverse(s);
    BE32RoundTrip(code);
    if Letters(code) == name {
      forall i | 0 <= i < 4 ensures BE32(code)[i] == s[i] {
        assert Letters(code)[i] == name[i];
      }
      assert BE32(code) == s;
    }
  }

  /** The channels of a 32-bit pixel, first byte first: what its code spells, or else ARGB for code 32 and ABGR. */
  function ChannelOrder(code: uint32): (order: string)
    ensures |order| == 4
  {
    if Letters(code) == "BGRA" || Letters(code) == "RGBA" then Letters(code) else if code == 32 then "ARGB" else "ABGR"
  }

  /** What a channel of a lit pixel becomes: red, green and blue are tinted with theirs of the hue, alpha stays. */
  function Channel(letter: char, v: byte, hue: real, brightness: real, d2: real): byte
    requires hue >= 0.0
  {
    var c := HueToRGB(hue);
    if letter == 'R' then Tint(v, (c.r * 0.82 + 0.18) * 255.0, brightness, d2)
    else if letter == 'G' then Tint(v, (c.g * 0.82 + 0.18) * 255.0, brightness, d2)
    else if letter == 'B' then Tint(v, (c.b * 0.82 + 0.18) * 255.0, brightness, d2)
    else v
  }

  /** Every pixel of the unit ellipse in a 32-bit buffer has its channels tinted, each where the format has it. */
  ghost predicate Coloured32(b: Buffer, was: seq<byte>, now: seq<byte>, e: Ellipse, brightness: real, hue: real)
    requires 4 * b.width <= b.stride && e.rx > 0.0 && e.ry > 0.0 && hue >= 0.0
    requires Plane(was, b.stride, b.height) && Plane(now, b.stride, b.height)
  {
    forall y: nat, px: nat, k: nat :: y < b.height && px < b.width && k < 4 && Packed.Distance(e, px, y) <= 1.0 ==>
      now[Index(b.stride, y, 4 * px + k)]
      == Channel(ChannelOrder(b.code)[k], was[Index(b.stride, y, 4 * px + k)],
                 hue, brightness, Packed.Distance(e, px, y))
  }

  /** In a 4:2:2 buffer the bytes are Y, Cb, Y, Cr for each pair of pixels, the chroma following the even pixel. */
  ghost predicate Coloured422(b: Buffer, was: seq<byte>, now: seq<byte>, e: Ellipse, brightness: real, hue: real)
    requires b.width % 2 == 0 && 2 * b.width <= b.stride && e.rx > 0.0 && e.ry > 0.0 && hue >= 0.0
    requires Plane(was, b.stride, b.height) && Plane(now, b.stride, b.height)
  {
    forall y: nat, px: nat :: y < b.height && px < b.width && Packed.Distance(e, px, y) <= 1.0 ==>
      var d2 := Packed.Distance(e, px, y);
      && now[Index(b.stride, y, 2 * px)] == Luma(was[Index(b.stride, y, 2 * px)], brightness, d2)
      && (px % 2 == 0 ==>
            && now[Index(b.stride, y, 2 * px + 1)]
               == Chroma(was[Index(b.stride, y, 2 * px + 1)], TargetCb(hue), brightness, d2)
            && now[Index(b.stride, y, 2 * px + 3)]
               == Chroma(was[Index(b.stride, y, 2 * px + 3)], TargetCr(hue), brightness, d2))
  }

  /** The byte in column `x` of a packed buffer, written by a pixel of the unit ellipse. */
  lemma WrittenByte(b: Buffer, was: seq<byte>, now: seq<byte>, e: Ellipse, brightness: real, hue: real,
                    y: nat, px: nat, x: nat)
    requires FormatOf(b.code) != Biplanar && y < b.height && px < b.width && x < b.stride
    requires e.rx > 0.0 && e.ry > 0.0 && hue >= 0.0 && Packed.Distance(e, px, y) <= 1.0
    requires Plane(was, b.stride, b.height) && Plane(now, b.stride, b.height)
    requires BaseIs(b, was, now, e, brightness, hue) && Writer(LayoutOf(b.code, hue), x) == px
    ensures now[Index(b.stride, y, x)]
         == NewByte(LayoutOf(b.code, hue), x, was[Index(b.stride, y, x)], brightness, Packed.Distance(e, px, y))
  {
    hide D2, HueToRGB, Index, NewByte, LayoutOf, Writer;
    LumaCovers(e, b.width, b.height, px, y);
  }

  lemma ColoursAre32(b: Buffer, was: seq<byte>, now: seq<byte>, e: Ellipse, brightness: real, hue: real)
    requires FormatOf(b.code) == Packed32 && b.width > 0 && b.height > 0
    requires 4 * b.width <= b.stride && e.rx > 0.0 && e.ry > 0.0 && hue >= 0.0
    requires Plane(was, b.stride, b.height) && Plane(now, b.stride, b.height)
    requires BaseIs(b, was, now, e, brightness, hue)
    ensures Coloured32(b, was, now, e, brightness, hue)
  {
    hide D2, HueToRGB, Index, NewByte, LayoutOf, BaseIs, Channel, ChannelOrder;
    var l := LayoutOf(b.code, hue);
    forall y: nat, px: nat, k: nat | y < b.height && px < b.width && k < 4 && Packed.Distance(e, px, y) <= 1.0
      ensures now[Index(b.stride, y, 4 * px + k)]
           == Channel(ChannelOrder(b.code)[k], was[Index(b.stride, y, 4 * px + k)],
                 hue, brightness, Packed.Distance(e, px, y))
    {
      var x := 4 * px + k;
      assert x / 4 == px && x % 4 == k;
      LayoutSpells(b.code, hue, x, was[Index(b.stride, y, x)], brightness, Packed.Distance(e, px, y));
      WrittenByte(b, was, now, e, brightness, hue, y, px, x);
    }
  }

  lemma LayoutSpells(code: uint32, hue: real, x: nat, v: byte, brightness: real, d2: real)
    requires FormatOf(code) == Packed32 && hue >= 0.0
    ensures LayoutOf(code, hue).Rgb32?
    ensures NewByte(LayoutOf(code, hue), x, v, brightness, d2)
         == Channel(ChannelOrder(code)[x % 4], v, hue, brightness, d2)
  {
    hide HueToRGB, Tint, BE32, FromBE32, Letters;
    LettersOf(code);
  }

  lemma LettersOf(code: uint32)
    ensures Letters(code) == "BGRA" <==> code == 0x4247_5241
    ensures Letters(code) == "RGBA" <==> code == 0x5247_4241
  {
    hide BE32, Letters;
    SpelledBy(code, "BGRA", [0x42, 0x47, 0x52, 0x41]);
    SpelledBy(code, "RGBA", [0x52, 0x47, 0x42, 0x41]);
  }

  lemma Places422(px: nat)
    ensures 2 * px % 2 == 0 && 2 * px / 2 == px
    ensures px % 2 == 0 ==> (2 * px + 1) % 2 == 1 && (2 * px + 1) % 4 == 1 && (2 * px + 1) / 4 * 2 == px
    ensures px % 2 == 0 ==> (2 * px + 3) % 2 == 1 && (2 * px + 3) % 4 == 3 && (2 * px + 3) / 4 * 2 == px
  {
    if px % 2 == 0 {
      var k := px / 2;
      InGroup(k, 1);
      InGroup(k, 3);
    }
  }

  lemma InGroup(k: nat, r: nat)
    requires r < 4
    ensures (4 * k + r) / 4 == k && (4 * k + r) % 4 == r && (4 * k + r) % 2 == r % 2
  {
  }

  lemma ColoursAre422(b: Buffer, was: seq<byte>, now: seq<byte>, e: Ellipse, brightness: real, hue: real)
    requires FormatOf(b.code) == Packed422 && b.width > 0 && b.height > 0
    requires b.width % 2 == 0 && 2 * b.width <= b.stride && e.rx > 0.0 && e.ry > 0.0 && hue >= 0.0
    requires Plane(was, b.stride, b.height) && Plane(now, b.stride, b.height)
    requires BaseIs(b, was, now, e, brightness, hue)
    ensures Coloured422(b, was, now, e, brightness, hue)
  {
    hide D2, HueToRGB, Index, Luma, Chroma, TargetCb, TargetCr, BaseIs;
    forall y: nat, px: nat | y < b.height && px < b.width && Packed.Distance(e, px, y) <= 1.0
      ensures var d2 := Packed.Distance(e, px, y);
              && now[Index(b.stride, y, 2 * px)] == Luma(was[Index(b.stride, y, 2 * px)], brightness, d2)
              && (px % 2 == 0 ==>
                    && now[Index(b.stride, y, 2 * px + 1)]
                       == Chroma(was[Index(b.stride, y, 2 * px + 1)], TargetCb(hue), brightness, d2)
                    && now[Index(b.stride, y, 2 * px + 3)]
                       == Chroma(was[Index(b.stride, y, 2 * px + 3)], TargetCr(hue), brightness, d2))
    {
      Places422(px);
      WrittenByte(b, was, now, e, brightness, hue, y, px, 2 * px);
      if px % 2 == 0 {
        WrittenByte(b, was, now, e, brightness, hue, y, px, 2 * px + 1);
        WrittenByte(b, was, now, e, brightness, hue, y, px, 2 * px + 3);
      }
    }
  }

  /** What a flash does to a buffer: by byte, and by the names of the formats. */
  ghost predicate Recoloured(b: Buffer, was: seq<byte>, now: seq<byte>, chroma: seq<byte>, chroma': seq<byte>,
                             e: Ellipse, brightness: real, hue: real)
    requires b.width >= 2 && b.height >= 2 && e.rx > 0.0 && e.ry > 0.0 && hue >= 0.0
  {
    && Plane(was, b.stride, b.height) && Plane(now, b.stride, b.height)
    && BaseIs(b, was, now, e, brightness, hue)
    && (if Letters(b.code) == "420f" || Letters(b.code) == "420v" then
          && Plane(chroma, b.chromaStride, b.height / 2) && Plane(chroma', b.chromaStride, b.height / 2)
          && ChromaIs(b, chroma, chroma', e, brightness, hue)
        else if Letters(b.code) == "yuvs" || Letters(b.code) == "yuss" then
          b.width % 2 == 0 && 2 * b.width <= b.stride && Coloured422(b, was, now, e, brightness, hue)
        else
          4 * b.width <= b.stride && Coloured32(b, was, now, e, brightness, hue))
  }

  method RecolourPlanes(b: Buffer, e: Ellipse, brightness: real, hue: real)
    requires WellFormed(b) && FormatOf(b.code) == Biplanar && e.rx > 0.0 && e.ry > 0.0 && hue >= 0.0
    modifies b.base, b.chroma
    ensures Recoloured(b, old(b.base[..]), b.base[..], old(b.chroma[..]), b.chroma[..], e, brightness, hue)
  {
    hide NewLuma, NewChroma, NewPacked, TargetCb, TargetCr, Letters, Coloured32, Coloured422;
    FormatsByName(b.code);
    PlaneIndices(b.base[..], b.stride, b.height);
    PlaneIndices(b.chroma[..], b.chromaStride, b.height / 2);
    ghost var u := b.chroma[..];
    ApplyLuma(b.base, b.stride, b.width, b.height, e, brightness);
    assert b.chroma[..] == u;
    ghost var l := b.base[..];
    ApplyChroma(b.chroma, b.chromaStride, b.width, b.height, e, brightness, hue);
    assert b.base[..] == l;
  }

  method RecolourPacked(b: Buffer, e: Ellipse, brightness: real, hue: real)
    requires WellFormed(b) && FormatOf(b.code) != Biplanar && e.rx > 0.0 && e.ry > 0.0 && hue >= 0.0
    requires FormatOf(b.code) == Packed32 ==> 4 * b.width <= b.stride
    modifies b.base
    ensures Recoloured(b, old(b.base[..]), b.base[..], old(b.chroma[..]), b.chroma[..], e, brightness, hue)
  {
    hide NewLuma, NewPacked, Letters, Coloured32, Coloured422, ChromaIs, HueToRGB, TargetCb, TargetCr;
    FormatsByName(b.code);
    ghost var was := b.base[..];
    ApplyPacked(LayoutOf(b.code, hue), b.base, b.stride, b.width, b.height, e, brightness);
    if FormatOf(b.code) == Packed32 {
      ColoursAre32(b, was, b.base[..], e, brightness, hue);
    } else {
      ColoursAre422(b, was, b.base[..], e, brightness, hue);
    }
  }

  /** The whole effect, for every format; `e` is the region that was lit. */
  method ApplyToPixelBuffer(p: Prefs.Dictionary, elapsed: real, rotation: int, tracker: FaceTracker, b: Buffer)
    returns (e: Ellipse)
    requires elapsed >= 0.0 && WellFormed(b)
    modifies tracker`lastRotation, tracker`everDetected, b.base, b.chroma
    ensures !Flashes(p, elapsed, b) ==> b.base[..] == old(b.base[..]) && b.chroma[..] == old(b.chroma[..])
    ensures Flashes(p, elapsed, b) ==>
              && Inside(e, b.width, b.height)
              && e == FaceRegion(RegionSetting(p), if tracker.everDetected then Some(tracker.face) else None, rotation,
                                 b.width, b.height)
              && Recoloured(b, old(b.base[..]), b.base[..], old(b.chroma[..]), b.chroma[..],
                            e, CurrentBrightness(p, elapsed).value, HueSetting(p))
    ensures tracker.lastRotation == if LooksForFace(p, elapsed, b) then rotation else old(tracker.lastRotation)
    ensures tracker.everDetected
         == (old(tracker.everDetected)
             && (LooksForFace(p, elapsed, b) ==> rotation == old(tracker.lastRotation)))
    ensures FormatOf(b.code) != Biplanar && b.chroma != b.base ==> b.chroma[..] == old(b.chroma[..])
  {
    hide CurrentBrightness, FaceRegion, Recoloured;
    e := Ellipse(0.0, 0.0, 1.0, 1.0);
    var brightness := CurrentBrightness(p, elapsed);
    if brightness.None? || brightness.value <= 0.0 { return; }
    if b.width * b.height > MAX_PIXELS { return; }
    e := tracker.Compute(RegionSetting(p), rotation, b.width, b.height);
    var hue := HueSetting(p);
    if hue < 0.0 { return; }
    match FormatOf(b.code)
    case Biplanar =>
      RecolourPlanes(b, e, brightness.value, hue);
    case Packed422 =>
      RecolourPacked(b, e, brightness.value, hue);
    case Packed32 =>
      if b.stride < 4 * b.width { return; }
      RecolourPacked(b, e, brightness.value, hue);
  }
}
