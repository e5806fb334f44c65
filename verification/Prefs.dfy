// The flash preferences: nine settings packed into one 64-bit notification state, property lists as backing
// store, a short read cache, and why saving and loading does not drift. Numbers are real; llround is rounding of a
// non-negative real.

module Prefs {
  import opened Bytes
  import opened Reals

  datatype Key =
    | Live | Flash | ManualRegion | Speed | Brightness | Region | Hue | RegionX | RegionY
    | AutoColor | StaticFlash
    | Other(name: string)

  /** A stored object: one that answers boolValue and doubleValue, or one that does not. */
  datatype Stored = Flag(b: bool) | Num(r: real) | Opaque

  type Dictionary = map<Key, Stored>

  const DEFAULTS: Dictionary := map[
    Live := Flag(true), Flash := Flag(false), ManualRegion := Flag(false), Speed := Num(3.0), Brightness := Num(51.0),
    Region := Num(30.0), Hue := Num(0.33), RegionX := Num(0.5), RegionY := Num(0.42),
    AutoColor := Flag(false), StaticFlash := Flag(false)]

  function BoolForKey(p: Dictionary, k: Key, default: bool): bool {
    if k !in p then default
    else match p[k]
      case Flag(b) => b
      case Num(r) => r != 0.0
      case Opaque => default
  }

  function DoubleForKey(p: Dictionary, k: Key, default: real): real {
    if k !in p then default
    else match p[k]
      case Flag(b) => if b then 1.0 else 0.0
      case Num(r) => r
      case Opaque => default
  }

  /** Numbers and flags answer both getters; anything else, and nothing, leaves the default. */
  lemma GettersAnswer(p: Dictionary, k: Key, b: bool, r: real)
    ensures k in p && p[k].Num? ==> DoubleForKey(p, k, r) == p[k].r && BoolForKey(p, k, b) == (p[k].r != 0.0)
    ensures k in p && p[k].Flag? ==>
              BoolForKey(p, k, b) == p[k].b && DoubleForKey(p, k, r) == if p[k].b then 1.0 else 0.0
    ensures k !in p || p[k].Opaque? ==> BoolForKey(p, k, b) == b && DoubleForKey(p, k, r) == r
  {
  }

  // ---------------------------------------------------------------- quantisation

  /** llround on a non-negative number: to the nearest integer, halves up. */
  function Round(x: real): (n: nat)
    requires x >= 0.0
    ensures n as real - 0.5 <= x < n as real + 0.5
  {
    (x + 0.5).Floor
  }

  /** The quantised settings. No hue stands for "no colour". */
  datatype Fields = Fields(
    live: bool, flash: bool, manualRegion: bool, speed: nat, brightness: nat, region: nat,
    hue: Option<nat>, regionX: nat, regionY: nat)

  predicate InRange(f: Fields) {
    && f.speed <= 1023 && f.brightness <= 100 && f.region <= 100
    && (f.hue.Some? ==> f.hue.value <= 1000) && f.regionX <= 1000 && f.regionY <= 1000
  }

  function Quantise(p: Dictionary): (f: Fields)
    ensures InRange(f)
  {
    var hue := DoubleForKey(p, Hue, 0.33);
    Fields(
      BoolForKey(p, Live, true), BoolForKey(p, Flash, false), BoolForKey(p, ManualRegion, false),
      Round(Clamp(DoubleForKey(p, Speed, 3.0), 0.0, 102.3) * 10.0),
      Round(Clamp(DoubleForKey(p, Brightness, 51.0), 0.0, 100.0)),
      Round(Clamp(DoubleForKey(p, Region, 30.0), 0.0, 100.0)),
      if hue < 0.0 then None else Some(Round(Clamp(hue, 0.0, 1.0) * 1000.0)),
      Round(Clamp(DoubleForKey(p, RegionX, 0.5), 0.0, 1.0) * 1000.0),
      Round(Clamp(DoubleForKey(p, RegionY, 0.42), 0.0, 1.0) * 1000.0))
  }

  /** The dictionary that unpacking makes of the fields. */
  function Settings(f: Fields): Dictionary {
    map[
      Live := Flag(f.live), Flash := Flag(f.flash), ManualRegion := Flag(f.manualRegion),
      Speed := Num(f.speed as real / 10.0),
      Brightness := Num(f.brightness as real), Region := Num(f.region as real),
      Hue := Num(if f.hue.None? then -1.0 else f.hue.value as real / 1000.0),
      RegionX := Num(f.regionX as real / 1000.0), RegionY := Num(f.regionY as real / 1000.0)]
  }

  /** Quantising what was quantised changes nothing, whatever other entries are around it. */
  lemma QuantiseIsStable(p: Dictionary, f: Fields)
    requires InRange(f)
    ensures Quantise(p + Settings(f)) == f
  {
    hide DoubleForKey, BoolForKey, Settings, Round, Clamp;
    Lookups(p, f);
    RoundOfRatio(f.speed, 10.0);
    RoundOfRatio(f.brightness, 1.0);
    RoundOfRatio(f.region, 1.0);
    RoundOfRatio(f.regionX, 1000.0);
    RoundOfRatio(f.regionY, 1000.0);
    if f.hue.Some? {
      RoundOfRatio(f.hue.value, 1000.0);
    }
  }

  /** What the typed getters find when the unpacked settings lie over any dictionary. */
  lemma Lookups(p: Dictionary, f: Fields)
    ensures var q := p + Settings(f);
            && BoolForKey(q, Live, true) == f.live && BoolForKey(q, Flash, false) == f.flash
            && BoolForKey(q, ManualRegion, false) == f.manualRegion
            && DoubleForKey(q, Speed, 3.0) == f.speed as real / 10.0
            && DoubleForKey(q, Brightness, 51.0) == f.brightness as real
            && DoubleForKey(q, Region, 30.0) == f.region as real
            && DoubleForKey(q, Hue, 0.33) == (if f.hue.None? then -1.0 else f.hue.value as real / 1000.0)
            && DoubleForKey(q, RegionX, 0.5) == f.regionX as real / 1000.0
            && DoubleForKey(q, RegionY, 0.42) == f.regionY as real / 1000.0
  {
  }

  /** A whole number of steps within the bounds is rounded to itself. */
  lemma RoundOfRatio(n: nat, step: real)
    requires step == 1.0 || step == 10.0 || step == 1000.0
    ensures step == 1.0 && n <= 100 ==> Round(Clamp(n as real, 0.0, 100.0)) == n
    ensures step == 10.0 && n <= 1023 ==> Round(Clamp(n as real / step, 0.0, 102.3) * 10.0) == n
    ensures step == 1000.0 && n <= 1000 ==>
              n as real / step >= 0.0 && Round(Clamp(n as real / step, 0.0, 1.0) * 1000.0) == n
  {
  }

  function Distance(x: real, y: real): real {
    if x < y then y - x else x - y
  }

  /** Every setting comes back clamped and within half a step; the flags and "no colour" come back exactly. */
  lemma WithinHalfAStep(p: Dictionary)
    ensures var q := Settings(Quantise(p));
            && Distance(DoubleForKey(q, Speed, 0.0), Clamp(DoubleForKey(p, Speed, 3.0), 0.0, 102.3)) <= 0.05
            && Distance(DoubleForKey(q, Brightness, 0.0), Clamp(DoubleForKey(p, Brightness, 51.0), 0.0, 100.0)) <= 0.5
            && Distance(DoubleForKey(q, Region, 0.0), Clamp(DoubleForKey(p, Region, 30.0), 0.0, 100.0)) <= 0.5
            && Distance(DoubleForKey(q, RegionX, 0.0), Clamp(DoubleForKey(p, RegionX, 0.5), 0.0, 1.0)) <= 0.0005
            && Distance(DoubleForKey(q, RegionY, 0.0), Clamp(DoubleForKey(p, RegionY, 0.42), 0.0, 1.0)) <= 0.0005
            && (DoubleForKey(p, Hue, 0.33) < 0.0 <==> DoubleForKey(q, Hue, 0.0) < 0.0)
            && (DoubleForKey(p, Hue, 0.33) < 0.0 ==> DoubleForKey(q, Hue, 0.0) == -1.0)
            && (DoubleForKey(p, Hue, 0.33) >= 0.0 ==>
                  Distance(DoubleForKey(q, Hue, 0.0), Clamp(DoubleForKey(p, Hue, 0.33), 0.0, 1.0)) <= 0.0005)
            && BoolForKey(q, Live, false) == BoolForKey(p, Live, true)
            && BoolForKey(q, Flash, false) == BoolForKey(p, Flash, false)
            && BoolForKey(q, ManualRegion, false) == BoolForKey(p, ManualRegion, false)
  {
  }

  // ---------------------------------------------------------------- the packed word

  const DIRTY := 0x8000_0000_0000_0000

  function Bit(b: bool): nat {
    if b then 1 else 0
  }

  /** The fields at their bit positions; `|` of disjoint bits is addition, and masking a value is a remainder. */
  function Pack(f: Fields): nat {
    DIRTY
    + Bit(f.live) + Bit(f.flash) * 2 + Bit(f.manualRegion) * 4
    + f.speed % 0x400 * 0x8
    + f.brightness % 0x80 * 0x2000
    + f.region % 0x80 * 0x10_0000
    + (if f.hue.None? then 0x200_0000_0000_0000 else f.hue.value % 0x400 * 0x800_0000)
    + f.regionX % 0x400 * 0x20_0000_0000
    + f.regionY % 0x400 * 0x8000_0000_0000
  }

  function Unpack(s: nat): Fields {
    Fields(
      s % 2 != 0, s / 2 % 2 != 0, s / 4 % 2 != 0,
      s / 0x8 % 0x400, s / 0x2000 % 0x80, s / 0x10_0000 % 0x80,
      if s / 0x200_0000_0000_0000 % 2 != 0 then None else Some(s / 0x800_0000 % 0x400),
      s / 0x20_0000_0000 % 0x400, s / 0x8000_0000_0000 % 0x400)
  }

  lemma Times(d: nat, k: nat)
    requires k >= 1
    ensures d * k >= d
  {
  }

  lemma Quotient(s: nat, d: nat, q: nat, r: nat)
    requires r < d && s == r + d * q
    ensures s / d == q && s % d == r
  {
    var q', r' := s / d, s % d;
    assert s == d * q' + r';
    if q' < q {
      Times(d, q - q');
      assert false;
    }
    if q < q' {
      Times(d, q' - q);
      assert false;
    }
  }

  /** A field of `width` values that starts above `base`. */
  lemma FieldAt(s: nat, low: nat, base: nat, v: nat, width: nat, high: nat)
    requires low < base && v < width && s == low + base * (v + width * high)
    ensures s / base % width == v
  {
    Quotient(s, base, v + width * high, low);
    Quotient(v + width * high, width, high, v);
  }

  lemma UnpackPack(f: Fields)
    requires InRange(f)
    ensures Unpack(Pack(f)) == f && DIRTY <= Pack(f) < 0x1_0000_0000_0000_0000
  {
    hide Pack, Word, Bit;
    var s := Pack(f);
    var live, flash, manual, nc := Bit(f.live), Bit(f.flash), Bit(f.manualRegion), Bit(f.hue.None?);
    var hue := HueBits(f);
    PackIsWord(f);
    LowFields(s, live, flash, manual, f.speed, f.brightness, f.region, hue, f.regionX, f.regionY, nc);
    HighFields(s, live, flash, manual, f.speed, f.brightness, f.region, hue, f.regionX, f.regionY, nc);
  }

  function HueBits(f: Fields): nat {
    if f.hue.None? then 0 else f.hue.value
  }

  lemma PackIsWord(f: Fields)
    requires InRange(f)
    ensures Pack(f) == Word(Bit(f.live), Bit(f.flash), Bit(f.manualRegion), f.speed, f.brightness, f.region, HueBits(f),
                            f.regionX, f.regionY, Bit(f.hue.None?))
    ensures forall b :: Bit(b) < 2 && (Bit(b) != 0 <==> b)
  {
    hide Bit;
    BitsAre();
    var speed, bright, region := f.speed % 0x400, f.brightness % 0x80, f.region % 0x80;
    var hue, x, y := HueBits(f) % 0x400, f.regionX % 0x400, f.regionY % 0x400;
    assert speed == f.speed && bright == f.brightness && region == f.region;
    assert hue == HueBits(f) && x == f.regionX && y == f.regionY;
    var nc := if f.hue.None? then 1 else 0;
    assert Bit(f.hue.None?) == nc;
    assert (if f.hue.None? then 0x200_0000_0000_0000 else hue * 0x800_0000)
        == hue * 0x800_0000 + nc * 0x200_0000_0000_0000;
  }

  lemma BitsAre()
    ensures Bit(true) == 1 && Bit(false) == 0
    ensures forall b :: Bit(b) < 2 && (Bit(b) != 0 <==> b)
  {
  }

  function Word(a: nat, b: nat, c: nat, speed: nat, bright: nat, region: nat, hue: nat, x: nat, y: nat, nc: nat): nat {
    a + b * 0x2 + c * 0x4 + speed * 0x8 + bright * 0x2000 + region * 0x10_0000 + hue * 0x800_0000
    + x * 0x20_0000_0000 + y * 0x8000_0000_0000 + nc * 0x200_0000_0000_0000 + DIRTY
  }

  lemma LowFields(s: nat, a: nat, b: nat, c: nat, speed: nat, bright: nat, region: nat, hue: nat,
                  x: nat, y: nat, nc: nat)
    requires s == Word(a, b, c, speed, bright, region, hue, x, y, nc)
    requires a < 2 && b < 2 && c < 2 && speed < 0x400 && bright < 0x80
    ensures s % 2 == a && s / 2 % 2 == b && s / 4 % 2 == c && s / 0x8 % 0x400 == speed && s / 0x2000 % 0x80 == bright
    ensures DIRTY <= s
  {
    var w20 := region + hue * 0x80 + x * 0x2_0000 + y * 0x800_0000 + nc * 0x20_0000_0000 + 0x800_0000_0000;
    var w13 := bright + 0x80 * w20;
    var w3 := speed + 0x400 * w13;
    FieldAt(s, 0, 1, a, 2, b + 2 * (c + 2 * w3));
    FieldAt(s, a, 2, b, 2, c + 2 * w3);
    FieldAt(s, a + 2 * b, 4, c, 2, w3);
    FieldAt(s, a + 2 * b + 4 * c, 0x8, speed, 0x400, w13);
    FieldAt(s, a + 2 * b + 4 * c + 8 * speed, 0x2000, bright, 0x80, w20);
  }

  lemma HighFields(s: nat, a: nat, b: nat, c: nat, speed: nat, bright: nat, region: nat, hue: nat,
                   x: nat, y: nat, nc: nat)
    requires s == Word(a, b, c, speed, bright, region, hue, x, y, nc)
    requires a < 2 && b < 2 && c < 2 && speed < 0x400 && bright < 0x80 && region < 0x80
    requires hue < 0x400 && x < 0x400 && y < 0x400 && nc < 2
    ensures s / 0x10_0000 % 0x80 == region && s / 0x800_0000 % 0x400 == hue
    ensures s / 0x20_0000_0000 % 0x400 == x && s / 0x8000_0000_0000 % 0x400 == y && s / 0x200_0000_0000_0000 % 2 == nc
    ensures s < 0x1_0000_0000_0000_0000
  {
    var low := a + 2 * b + 4 * c + 8 * speed + 0x2000 * bright;
    var w47 := y + 0x400 * (nc + 2 * 32);
    var w37 := x + 0x400 * w47;
    FieldAt(s, low, 0x10_0000, region, 0x80, hue + 0x400 * w37);
    FieldAt(s, low + 0x10_0000 * region, 0x800_0000, hue, 0x400, w37);
    var mid := low + 0x10_0000 * region + 0x800_0000 * hue;
    FieldAt(s, mid, 0x20_0000_0000, x, 0x400, w47);
    FieldAt(s, mid + 0x20_0000_0000 * x, 0x8000_0000_0000, y, 0x400, nc + 2 * 32);
    FieldAt(s, mid + 0x20_0000_0000 * x + 0x8000_0000_0000 * y, 0x200_0000_0000_0000, nc, 2, 32);
  }

  function Pow2(n: nat): (p: nat)
    ensures p > 0
  {
    if n == 0 then 1 else 2 * Pow2(n - 1)
  }

  /** The `width` bits of a word from bit `from` on. */
  function Bits(s: nat, from: nat, width: nat): nat {
    s / Pow2(from) % Pow2(width)
  }

  lemma Powers()
    ensures Pow2(0) == 1 && Pow2(1) == 2 && Pow2(2) == 4 && Pow2(3) == 8 && Pow2(7) == 0x80 && Pow2(10) == 0x400
    ensures Pow2(13) == 0x2000 && Pow2(20) == 0x10_0000 && Pow2(27) == 0x800_0000 && Pow2(37) == 0x20_0000_0000
    ensures Pow2(47) == 0x8000_0000_0000 && Pow2(57) == 0x200_0000_0000_0000 && Pow2(63) == 0x8000_0000_0000_0000
  {
    hide Pow2;
    SmallPowers();
    Doubling(10, 10);
    Doubling(20, 10);
    Doubling(20, 20);
    Doubling(40, 20);
    Doubling(10, 3);
    Doubling(20, 7);
    Doubling(27, 10);
    Doubling(37, 10);
    Doubling(47, 10);
    Doubling(60, 3);
  }

  lemma SmallPowers()
    ensures Pow2(0) == 1 && Pow2(1) == 2 && Pow2(2) == 4 && Pow2(3) == 8 && Pow2(7) == 0x80 && Pow2(10) == 0x400
  {
  }

  lemma {:induction false} Doubling(a: nat, b: nat)
    ensures Pow2(a + b) == Pow2(a) * Pow2(b)
    decreases b
  {
    if b > 0 {
      hide Pow2;
      Doubling(a, b - 1);
      PowStep(a + b);
      PowStep(b);
      Regroup(Pow2(a), Pow2(b - 1));
    } else {
      assert Pow2(0) == 1;
    }
  }

  lemma PowStep(n: nat)
    requires n > 0
    ensures Pow2(n) == 2 * Pow2(n - 1)
  {
  }

  lemma Regroup(x: nat, y: nat)
    ensures x * (2 * y) == 2 * (x * y)
  {
  }

  /** The word bit by bit: three flags, six numbers, the sign of no colour, and the dirty bit on top. */
  lemma BitLayout(f: Fields)
    requires InRange(f)
    ensures var s := Pack(f);
            && (Bits(s, 0, 1) == 1 <==> f.live) && (Bits(s, 1, 1) == 1 <==> f.flash)
            && (Bits(s, 2, 1) == 1 <==> f.manualRegion)
            && Bits(s, 3, 10) == f.speed && Bits(s, 13, 7) == f.brightness && Bits(s, 20, 7) == f.region
            && (f.hue.Some? ==> Bits(s, 27, 10) == f.hue.value) && (Bits(s, 57, 1) == 1 <==> f.hue.None?)
            && Bits(s, 37, 10) == f.regionX && Bits(s, 47, 10) == f.regionY && Bits(s, 63, 1) == 1
  {
    hide Pack, Word, Bit, Pow2;
    var s := Pack(f);
    var live, flash, manual, nc := Bit(f.live), Bit(f.flash), Bit(f.manualRegion), Bit(f.hue.None?);
    PackIsWord(f);
    LowFields(s, live, flash, manual, f.speed, f.brightness, f.region, HueBits(f), f.regionX, f.regionY, nc);
    HighFields(s, live, flash, manual, f.speed, f.brightness, f.region, HueBits(f), f.regionX, f.regionY, nc);
    Powers();
    UnpackPack(f);
  }

  /** Packing what was unpacked from a packed word gives the word back. */
  lemma PackUnpack(p: Dictionary, q: Dictionary)
    ensures var s := Pack(Quantise(p)); Pack(Quantise(q + Settings(Unpack(s)))) == s
  {
    UnpackPack(Quantise(p));
    QuantiseIsStable(q, Quantise(p));
  }

  // ---------------------------------------------------------------- loading and saving

  function FirstPresent(plists: seq<Option<Dictionary>>): Dictionary {
    if plists == [] then map[] else if plists[0].Some? then plists[0].value else FirstPresent(plists[1..])
  }

  predicate Dirty(state: nat) {
    state / DIRTY % 2 == 1
  }

  /** Defaults, overridden by the first property list there is, overridden by the notification state. */
  function Loaded(plists: seq<Option<Dictionary>>, state: nat): Dictionary {
    var p := DEFAULTS + FirstPresent(plists);
    if Dirty(state) then p + Settings(Unpack(state)) else p
  }

  /** What a save leaves for the next load: the merge, with the nine packed settings quantised. */
  function QuantisedMerge(p: Dictionary, changes: Dictionary): Dictionary {
    (p + changes) + Settings(Quantise(p + changes))
  }

  /** A 64-bit state counts when its top bit is set. */
  lemma DirtyIsTopBit(state: nat)
    requires state < 0x1_0000_0000_0000_0000
    ensures Dirty(state) <==> state >= 0x8000_0000_0000_0000
  {
  }

  /** The first file there is, is the one that is read. */
  lemma {:induction false} FirstFileIsRead(plists: seq<Option<Dictionary>>)
    ensures (forall i :: 0 <= i < |plists| ==> plists[i].None?) ==> FirstPresent(plists) == map[]
    ensures forall i :: 0 <= i < |plists| && plists[i].Some? && (forall j :: 0 <= j < i ==> plists[j].None?) ==>
              FirstPresent(plists) == plists[i].value
  {
    if plists != [] {
      FirstFileIsRead(plists[1..]);
      assert forall i :: 1 <= i < |plists| ==> plists[i] == plists[1..][i - 1];
    }
  }

  /** The notification state comes before the file, and the file before the defaults. */
  lemma LoadOrder(plists: seq<Option<Dictionary>>, state: nat, k: Key)
    ensures var p := Loaded(plists, state);
            var notified := if Dirty(state) then Settings(Unpack(state)) else map[];
            && (k in notified ==> k in p && p[k] == notified[k])
            && (k !in notified && k in FirstPresent(plists) ==> k in p && p[k] == FirstPresent(plists)[k])
            && (k !in notified && k !in FirstPresent(plists) ==>
                  (k in p <==> k in DEFAULTS) && (k in DEFAULTS ==> p[k] == DEFAULTS[k]))
  {
    hide Settings, Unpack, Dirty, FirstPresent;
  }

  /** With nothing stored: live, speed 3, brightness 51, region 30, hue 0.33, just above the middle; the rest is off. */
  lemma NothingStored(state: nat)
    requires state < 0x8000_0000_0000_0000
    ensures var p := Loaded([None, None, None, None], state);
            && BoolForKey(p, Live, false) && !BoolForKey(p, Flash, true) && !BoolForKey(p, ManualRegion, true)
            && DoubleForKey(p, Speed, 0.0) == 3.0 && DoubleForKey(p, Brightness, 0.0) == 51.0
            && DoubleForKey(p, Region, 0.0) == 30.0 && DoubleForKey(p, Hue, 0.0) == 0.33
            && DoubleForKey(p, RegionX, 0.0) == 0.5 && DoubleForKey(p, RegionY, 0.0) == 0.42
            && !BoolForKey(p, AutoColor, true) && !BoolForKey(p, StaticFlash, true)
  {
    hide FirstPresent;
    FirstFileIsRead([None, None, None, None]);
    assert DEFAULTS + map[] == DEFAULTS;
    assert !Dirty(state);
    DefaultsAre();
  }

  lemma DefaultsAre()
    ensures var p := DEFAULTS;
            && BoolForKey(p, Live, false) && !BoolForKey(p, Flash, true) && !BoolForKey(p, ManualRegion, true)
            && DoubleForKey(p, Speed, 0.0) == 3.0 && DoubleForKey(p, Brightness, 0.0) == 51.0
            && DoubleForKey(p, Region, 0.0) == 30.0 && DoubleForKey(p, Hue, 0.0) == 0.33
            && DoubleForKey(p, RegionX, 0.0) == 0.5 && DoubleForKey(p, RegionY, 0.0) == 0.42
            && !BoolForKey(p, AutoColor, true) && !BoolForKey(p, StaticFlash, true)
  {
  }

  /** The nine settings that travel in the notification state. */
  predicate IsPacked(k: Key) {
    k in {Live, Flash, ManualRegion, Speed, Brightness, Region, Hue, RegionX, RegionY}
  }

  /** After a save every change is there, quantised if it is one of the nine, and what was not changed is as it was. */
  lemma ChangesAreSaved(p: Dictionary, changes: Dictionary, k: Key)
    ensures var q := QuantisedMerge(p, changes);
            && (!IsPacked(k) && k in changes ==> k in q && q[k] == changes[k])
            && (!IsPacked(k) && k !in changes ==> (k in q <==> k in p) && (k in p ==> q[k] == p[k]))
            && (k in {Brightness, Region} && k in changes && changes[k].Num? && 0.0 <= changes[k].r <= 100.0 ==>
                  Distance(DoubleForKey(q, k, 0.0), changes[k].r) <= 0.5)
            && (k in {RegionX, RegionY} && k in changes && changes[k].Num? && 0.0 <= changes[k].r <= 1.0 ==>
                  Distance(DoubleForKey(q, k, 0.0), changes[k].r) <= 0.0005)
            && (k == Speed && k in changes && changes[k].Num? && 0.0 <= changes[k].r <= 102.3 ==>
                  Distance(DoubleForKey(q, k, 0.0), changes[k].r) <= 0.05)
            && (k == Hue && k in changes && changes[k].Num? && 0.0 <= changes[k].r <= 1.0 ==>
                  Distance(DoubleForKey(q, k, 0.0), changes[k].r) <= 0.0005)
            && (k in {Live, Flash, ManualRegion} && k in changes && changes[k].Flag? ==>
                  BoolForKey(q, k, false) == changes[k].b)
  {
    hide Quantise, Settings;
    var m := p + changes;
    WithinHalfAStep(m);
    SettingsArePacked(Quantise(m));
    OverlaidLookup(m, Settings(Quantise(m)), k);
  }

  lemma SettingsArePacked(f: Fields)
    ensures forall x :: x in Settings(f) <==> IsPacked(x)
  {
  }

  lemma OverlaidLookup(m: Dictionary, s: Dictionary, k: Key)
    requires forall x :: x in s <==> IsPacked(x)
    ensures IsPacked(k) ==> DoubleForKey(m + s, k, 0.0) == DoubleForKey(s, k, 0.0)
    ensures IsPacked(k) ==> BoolForKey(m + s, k, false) == BoolForKey(s, k, false)
    ensures !IsPacked(k) ==> (k in m + s <==> k in m) && (k in m ==> (m + s)[k] == m[k])
  {
  }

  lemma SavedIsLoaded(p: Dictionary, changes: Dictionary, plists: seq<Option<Dictionary>>)
    requires DEFAULTS.Keys <= p.Keys
    requires plists != [] && plists[0] == Some(p + changes)
    ensures Loaded(plists, Pack(Quantise(p + changes))) == QuantisedMerge(p, changes)
    ensures DEFAULTS.Keys <= QuantisedMerge(p, changes).Keys
  {
    var m := p + changes;
    UnpackPack(Quantise(m));
    var s := Pack(Quantise(m));
    assert s / DIRTY == 1;
    assert DEFAULTS + m == m;
  }

  /** Saving nothing after a save changes nothing more. */
  lemma NoDrift(p: Dictionary, changes: Dictionary)
    ensures QuantisedMerge(QuantisedMerge(p, changes), map[]) == QuantisedMerge(p, changes)
  {
    hide Quantise, Settings;
    var m := p + changes;
    var q := QuantisedMerge(p, changes);
    assert q + map[] == q;
    QuantiseIsStable(m, Quantise(m));
    assert q + Settings(Quantise(m)) == q;
  }

  // ---------------------------------------------------------------- the read cache of each process

  const CACHE_TTL := 0.033

  datatype Cache = Cache(cached: Option<Dictionary>, timestamp: real)

  const NO_CACHE := Cache(None, 0.0)

  /** A load at a time when the store holds `settings`: what it returns, and the cache it leaves. */
  function LoadThrough(c: Cache, settings: Dictionary, now: real): (Dictionary, Cache) {
    if c.cached.Some? && now - c.timestamp < CACHE_TTL then (c.cached.value, c)
    else (settings, Cache(Some(settings), now))
  }

  /** Cached settings are returned for exactly 33 ms. */
  lemma CacheLivesExactly(cached: Dictionary, settings: Dictionary, filled: real, now: real)
    requires cached != settings
    ensures LoadThrough(Cache(Some(cached), filled), settings, now).0 == cached <==> now - filled < 0.033
    ensures LoadThrough(NO_CACHE, settings, now).0 == settings
  {
  }

  // ---------------------------------------------------------------- one store, several processes

  /** What the store held, and since when. */
  datatype Version = Version(since: real, settings: Dictionary)

  datatype Phone = Phone(history: seq<Version>, caches: map<nat, Cache>) {
    function CacheOf(process: nat): Cache {
      if process in caches then caches[process] else NO_CACHE
    }
  }

  datatype Action =
    | Loads(process: nat, now: real)
    | Saves(process: nat, now: real, changes: Dictionary)

  function Held(ph: Phone): Dictionary
    requires ph.history != []
  {
    ph.history[|ph.history| - 1].settings
  }

  /** A save loads first, so every action gets some settings. */
  function Got(ph: Phone, a: Action): Dictionary
    requires ph.history != []
  {
    LoadThrough(ph.CacheOf(a.process), Held(ph), a.now).0
  }

  /** A save adds a version and clears the cache of its own process only. */
  function After(ph: Phone, a: Action): (q: Phone)
    requires ph.history != []
    ensures q.history != []
  {
    match a
    case Loads(p, now) => ph.(caches := ph.caches[p := LoadThrough(ph.CacheOf(p), Held(ph), now).1])
    case Saves(p, now, changes) =>
      Phone(ph.history + [Version(now, QuantisedMerge(Got(ph, a), changes))], ph.caches[p := NO_CACHE])
  }

  function AfterAll(ph: Phone, actions: seq<Action>): (q: Phone)
    requires ph.history != []
    ensures q.history != []
    decreases |actions|
  {
    if actions == [] then ph else AfterAll(After(ph, actions[0]), actions[1..])
  }

  /** What an action got, and what the store held at that moment. */
  datatype Reading = Reading(process: nat, now: real, got: Dictionary, held: Dictionary)

  function Readings(ph: Phone, actions: seq<Action>): seq<Reading>
    requires ph.history != []
    decreases |actions|
  {
    if actions == [] then [] else
    [Reading(actions[0].process, actions[0].now, Got(ph, actions[0]), Held(ph))]
    + Readings(After(ph, actions[0]), actions[1..])
  }

  /** The actions happen one after the other, from `start` on. */
  predicate InOrder(start: real, actions: seq<Action>)
    decreases |actions|
  {
    actions == [] || (start <= actions[0].now && InOrder(actions[0].now, actions[1..]))
  }

  predicate IsHeld(history: seq<Version>, i: nat, time: real, p: Dictionary) {
    && i < |history| && history[i].settings == p && history[i].since <= time
    && (i + 1 < |history| ==> time <= history[i + 1].since)
  }

  ghost predicate HeldAt(history: seq<Version>, time: real, p: Dictionary) {
    exists i: nat :: IsHeld(history, i, time, p)
  }

  /** The store's versions are in order, and every cache holds what the store held when it was filled. */
  ghost predicate Sound(ph: Phone, now: real) {
    && ph.history != [] && ph.history[|ph.history| - 1].since <= now
    && (forall i, j :: 0 <= i < j < |ph.history| ==> ph.history[i].since <= ph.history[j].since)
    && (forall p :: p in ph.caches && ph.caches[p].cached.Some? ==>
          ph.caches[p].timestamp <= now && HeldAt(ph.history, ph.caches[p].timestamp, ph.caches[p].cached.value))
  }

  lemma HeldAfterSave(history: seq<Version>, v: Version, time: real, p: Dictionary)
    requires HeldAt(history, time, p) && time <= v.since
    ensures HeldAt(history + [v], time, p)
  {
    var i: nat :| IsHeld(history, i, time, p);
    assert IsHeld(history + [v], i, time, p);
  }

  lemma StepIsSound(ph: Phone, start: real, a: Action)
    requires Sound(ph, start) && start <= a.now
    ensures Sound(After(ph, a), a.now)
  {
    hide QuantisedMerge;
    var h, q := ph.history, After(ph, a);
    assert IsHeld(h, |h| - 1, a.now, Held(ph));
    forall p | p in q.caches && q.caches[p].cached.Some?
      ensures q.caches[p].timestamp <= a.now && HeldAt(q.history, q.caches[p].timestamp, q.caches[p].cached.value)
    {
      if a.Saves? {
        HeldAfterSave(h, q.history[|h|], ph.caches[p].timestamp, ph.caches[p].cached.value);
      }
    }
  }

  /** What is got was held less than the cache's lifetime ago. */
  ghost predicate Recent(history: seq<Version>, now: real, p: Dictionary) {
    exists time :: now - 0.033 < time <= now && HeldAt(history, time, p)
  }

  lemma GotIsRecent(ph: Phone, start: real, a: Action)
    requires Sound(ph, start) && start <= a.now
    ensures Recent(ph.history, a.now, Got(ph, a))
  {
    var c := ph.CacheOf(a.process);
    if c.cached.Some? && a.now - c.timestamp < CACHE_TTL {
      assert HeldAt(ph.history, c.timestamp, c.cached.value);
    } else {
      assert IsHeld(ph.history, |ph.history| - 1, a.now, Held(ph));
      assert HeldAt(ph.history, a.now, Held(ph));
    }
  }

  lemma {:induction false} RecentStays(ph: Phone, actions: seq<Action>, now: real, p: Dictionary)
    requires ph.history != [] && InOrder(now, actions) && Recent(ph.history, now, p)
    ensures Recent(AfterAll(ph, actions).history, now, p)
    decreases |actions|
  {
    hide Recent, QuantisedMerge, LoadThrough;
    if actions != [] {
      RecentAfterOne(ph, actions[0], now, p);
      StillInOrder(now, actions);
      RecentStays(After(ph, actions[0]), actions[1..], now, p);
    }
  }

  lemma StillInOrder(start: real, actions: seq<Action>)
    requires actions != [] && InOrder(start, actions)
    ensures InOrder(start, actions[1..])
  {
  }

  lemma RecentAfterOne(ph: Phone, a: Action, now: real, p: Dictionary)
    requires ph.history != [] && now <= a.now && Recent(ph.history, now, p)
    ensures Recent(After(ph, a).history, now, p)
  {
    hide QuantisedMerge, LoadThrough;
    if a.Saves? {
      var time :| now - 0.033 < time <= now && HeldAt(ph.history, time, p);
      HeldAfterSave(ph.history, After(ph, a).history[|ph.history|], time, p);
    }
  }

  /**
   In every run of loads and saves by any processes, every load returns what the store held at some moment less than
   the cache's lifetime before.
   */
  lemma {:induction false} LoadsAreRecent(ph: Phone, start: real, actions: seq<Action>)
    requires Sound(ph, start) && InOrder(start, actions)
    ensures forall x :: x in Readings(ph, actions) ==> Recent(AfterAll(ph, actions).history, x.now, x.got)
    decreases |actions|
  {
    hide Recent, Got, After, Held;
    if actions != [] {
      var a := actions[0];
      GotIsRecent(ph, start, a);
      StepIsSound(ph, start, a);
      RecentAfterOwn(ph, a);
      RecentStays(After(ph, a), actions[1..], a.now, Got(ph, a));
      LoadsAreRecent(After(ph, a), a.now, actions[1..]);
    }
  }

  lemma RecentAfterOwn(ph: Phone, a: Action)
    requires ph.history != [] && Recent(ph.history, a.now, Got(ph, a))
    ensures Recent(After(ph, a).history, a.now, Got(ph, a))
  {
    hide Recent, Got, After;
    RecentAfterOne(ph, a, a.now, Got(ph, a));
  }

  lemma LastIsLatest(ph: Phone, start: real)
    requires Sound(ph, start)
    ensures forall k :: 0 <= k < |ph.history| ==> ph.history[k].since <= ph.history[|ph.history| - 1].since
  {
  }

  /** A save is seen by every process once the cache's lifetime has passed, if no other save came in between. */
  lemma SavesAreSeen(ph: Phone, start: real, a: Action)
    requires Sound(ph, start) && start <= a.now
    requires a.now - ph.history[|ph.history| - 1].since >= 0.033
    ensures Got(ph, a) == Held(ph)
  {
    var c, h := ph.CacheOf(a.process), ph.history;
    if c.cached.Some? && a.now - c.timestamp < CACHE_TTL {
      var i: nat :| IsHeld(h, i, c.timestamp, c.cached.value);
      LastIsLatest(ph, start);
      assert i + 1 == |h|;
    }
  }

  predicate OnlySaver(process: nat, actions: seq<Action>) {
    forall a :: a in actions && a.Saves? ==> a.process == process
  }

  /** The process that does all the saving always gets exactly what the store holds. */
  lemma {:induction false} SaverSeesItsOwn(ph: Phone, process: nat, actions: seq<Action>)
    requires ph.history != [] && OnlySaver(process, actions)
    requires ph.CacheOf(process).cached.Some? ==> ph.CacheOf(process).cached.value == Held(ph)
    ensures forall x :: x in Readings(ph, actions) && x.process == process ==> x.got == x.held
    decreases |actions|
  {
    hide QuantisedMerge;
    if actions != [] {
      assert actions[0] in actions;
      SaverSeesItsOwn(After(ph, actions[0]), process, actions[1..]);
    }
  }

  /** Any other process can get what was overwritten, for a while. */
  lemma OthersCanBeBehind(settings: Dictionary, changes: Dictionary)
    ensures var ph := Phone([Version(0.0, settings)], map[]);
            var actions := [Loads(1, 0.0), Saves(0, 0.01, changes), Loads(1, 0.02), Loads(1, 0.04)];
            var after := QuantisedMerge(settings, changes);
            && Sound(ph, 0.0) && InOrder(0.0, actions)
            && Readings(ph, actions) == [Reading(1, 0.0, settings, settings), Reading(0, 0.01, settings, settings),
                                         Reading(1, 0.02, settings, after), Reading(1, 0.04, after, after)]
  {
    hide QuantisedMerge;
    var ph := Phone([Version(0.0, settings)], map[]);
    var a, b, c, d := Loads(1, 0.0), Saves(0, 0.01, changes), Loads(1, 0.02), Loads(1, 0.04);
    assert [a, b, c, d][1..] == [b, c, d] && [b, c, d][1..] == [c, d] && [c, d][1..] == [d] && [d][1..] == [];
    assert InOrder(0.02, [d]) && InOrder(0.01, [c, d]) && InOrder(0.0, [b, c, d]);
    var p1 := After(ph, a);
    var p2 := After(p1, b);
    var p3 := After(p2, c);
    assert Readings(p3, [d]) == [Reading(1, 0.04, Got(p3, d), Held(p3))];
    assert Readings(p2, [c, d]) == [Reading(1, 0.02, Got(p2, c), Held(p2))] + Readings(p3, [d]);
    assert Readings(p1, [b, c, d]) == [Reading(0, 0.01, Got(p1, b), Held(p1))] + Readings(p2, [c, d]);
  }

  /** The property list files, in the order they are tried, and the notification state. */
  class PrefsStore {
    var plists: seq<Option<Dictionary>>
    var state: nat

    ghost predicate Valid()
      reads this
    {
      |plists| == 4
    }

    constructor (plists: seq<Option<Dictionary>>, state: nat)
      requires |plists| == 4
      ensures Valid() && this.plists == plists && this.state == state
    {
      this.plists, this.state := plists, state;
    }

    ghost function Settings(): Dictionary
      reads this
    {
      Loaded(plists, state)
    }
  }

  /** One process with its read cache. */
  class PrefsProcess {
    const store: PrefsStore
    var cached: Option<Dictionary>
    var cacheTimestamp: real

    ghost predicate Valid()
      reads this
    {
      cached.Some? ==> DEFAULTS.Keys <= cached.value.Keys
    }

    ghost function State(): Cache
      reads this
    {
      Cache(cached, cacheTimestamp)
    }

    constructor (store: PrefsStore)
      ensures Valid() && this.store == store && State() == NO_CACHE
    {
      this.store, cached, cacheTimestamp := store, None, 0.0;
    }

    method Load(now: real) returns (p: Dictionary)
      requires Valid()
      modifies this`cached, this`cacheTimestamp
      ensures Valid() && DEFAULTS.Keys <= p.Keys
      ensures (p, State()) == LoadThrough(old(State()), store.Settings(), now)
    {
      if cached.Some? && now - cacheTimestamp < CACHE_TTL {
        return cached.value;
      }
      p := DEFAULTS;
      var i := 0;
      while i < |store.plists|
        invariant 0 <= i <= |store.plists| && p == DEFAULTS
        invariant FirstPresent(store.plists[i..]) == FirstPresent(store.plists)
      {
        assert store.plists[i..][1..] == store.plists[i + 1..];
        if store.plists[i].Some? {
          p := p + store.plists[i].value;
          break;
        }
        i := i + 1;
      }
      assert p == DEFAULTS + FirstPresent(store.plists);
      if Dirty(store.state) {
        p := p + Settings(Unpack(store.state));
      }
      cached, cacheTimestamp := Some(p), now;
    }

    /** Every file gets the merge, the state gets the quantised merge; the process forgets its cache. */
    method Save(changes: Option<Dictionary>, now: real)
      requires Valid() && store.Valid()
      modifies this`cached, this`cacheTimestamp, store
      ensures Valid() && store.Valid() && State() == NO_CACHE
      ensures store.Settings()
           == QuantisedMerge(LoadThrough(old(State()), old(store.Settings()), now).0,
                             if changes.Some? then changes.value else map[])
    {
      hide Quantise, LoadThrough, Pack;
      var merged := Load(now);
      ghost var before := merged;
      if changes.Some? {
        merged := merged + changes.value;
      }
      assert before + map[] == before;
      var i := 0;
      while i < |store.plists|
        invariant 0 <= i <= |store.plists| == 4
        invariant forall k :: 0 <= k < i ==> store.plists[k] == Some(merged)
      {
        store.plists := store.plists[i := Some(merged)];
        i := i + 1;
      }
      store.state := Pack(Quantise(merged));
      cached, cacheTimestamp := None, 0.0;
      SavedIsLoaded(before, if changes.Some? then changes.value else map[], store.plists);
    }
  }
}
