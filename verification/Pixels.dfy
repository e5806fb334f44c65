// The flash effect's elliptic face region, its colours, what it does to one pixel, and the in-place loops over the
// luma and chroma planes of a biplanar YUV buffer. Doubles are real numbers; converting one to a byte or an index
// truncates, which is rounding down here.

module Pixels {
  import opened Bytes
  import opened Reals

  // ---------------------------------------------------------------- the face region

  datatype Ellipse = Ellipse(cx: real, cy: real, rx: real, ry: real)

  /** The frame's smaller side. */
  function MinDim(width: nat, height: nat): (m: real)
    ensures m >= 1.0
  {
    Fmax(Fmin(width as real, height as real), 1.0)
  }

  /** Between 14 and 66 hundredths of the smaller side, but at least eight pixels. */
  ghost predicate RadiusOk(r: real, minDim: real) {
    Fmax(minDim * 0.14, 8.0) <= r <= Fmax(minDim * 0.66, 8.0)
  }

  /** The centre lies in the frame, away from its edges, and both radii are in proportion to the frame. */
  ghost predicate Inside(e: Ellipse, width: nat, height: nat) {
    && 0.08 * width as real <= e.cx <= 0.92 * width as real
    && 0.08 * height as real <= e.cy <= 0.92 * height as real
    && RadiusOk(e.rx, MinDim(width, height)) && RadiusOk(e.ry, MinDim(width, height))
  }

  datatype Face = Face(cx: real, cy: real, rx: real, ry: real)

  datatype Setting = Setting(manualRegion: bool, region: real, regionX: real, regionY: real)

  lemma Product(a: real, b: real)
    requires a >= 0.0 && b >= 0.0
    ensures a * b >= 0.0
  {
  }

  /** A relative coordinate, kept away from the edges, in pixels. */
  function Coordinate(c: real, n: nat): (x: real)
    ensures 0.08 * n as real <= x <= 0.92 * n as real
    ensures 0.08 <= c <= 0.92 ==> x == c * n as real
    ensures c < 0.08 ==> x == 0.08 * n as real
    ensures c > 0.92 ==> x == 0.92 * n as real
  {
    var k := Clamp(c, 0.08, 0.92);
    Product(k - 0.08, n as real);
    Product(0.92 - k, n as real);
    k * n as real
  }

  function BoundedRadius(r: real, minDim: real): (x: real)
    requires minDim >= 0.0
    ensures RadiusOk(x, minDim) && (RadiusOk(r, minDim) ==> x == r)
    ensures r < Fmax(minDim * 0.14, 8.0) ==> x == Fmax(minDim * 0.14, 8.0)
  {
    Clamp(r, Fmax(minDim * 0.14, 8.0), minDim * 0.66)
  }

  /** The radii without a face, across and along it, and half the size of a face that was found. */
  function Across(minDim: real, r: real): real {
    minDim * (r * 0.25 + 0.15)
  }

  function Along(minDim: real, r: real): real {
    minDim * (r * 0.36 + 0.24)
  }

  function FaceHalf(r: real, size: real, side: real): real {
    (r * 0.2 + 0.84) * (size * side * 0.5)
  }

  /** BINFlashComputeFaceRegion, given the sticky face position if there is one. */
  function FaceRegion(p: Setting, face: Option<Face>, rotation: int, width: nat, height: nat): (e: Ellipse)
    ensures Inside(e, width, height)
  {
    var w, h := width as real, height as real;
    var centre := if p.manualRegion then (p.regionX, p.regionY)
                  else if face.Some? then (face.value.cx, face.value.cy) else (0.5, 0.5);
    var r := Clamp(p.region / 100.0, 0.1, 1.0);
    var minDim := MinDim(width, height);
    var smaller, larger := Across(minDim, r), Along(minDim, r);
    var sideways := rotation == 90 || rotation == 270;
    var baseX, baseY := if sideways then larger else smaller, if sideways then smaller else larger;
    var useFace := !p.manualRegion && face.Some?;
    var rx := if useFace then Fmax(baseX, FaceHalf(r, face.value.rx, w)) else baseX;
    var ry := if useFace then Fmax(baseY, FaceHalf(r, face.value.ry, h)) else baseY;
    Ellipse(Coordinate(centre.0, width), Coordinate(centre.1, height),
            BoundedRadius(rx, minDim), BoundedRadius(ry, minDim))
  }

  /** The globals around the computation: a change of rotation forgets the face that was found before it. */
  class FaceTracker {
    var lastRotation: int
    var everDetected: bool
    var face: Face

    constructor ()
      ensures lastRotation == -1 && !everDetected && face == Face(0.5, 0.5, 0.3, 0.35)
    {
      lastRotation, everDetected, face := -1, false, Face(0.5, 0.5, 0.3, 0.35);
    }

    method Compute(p: Setting, rotation: int, width: nat, height: nat) returns (e: Ellipse)
      modifies this`lastRotation, this`everDetected
      ensures lastRotation == rotation && everDetected == (old(everDetected) && rotation == old(lastRotation))
      ensures e == FaceRegion(p, if everDetected then Some(face) else None, rotation, width, height)
      ensures Inside(e, width, height)
    {
      if rotation != lastRotation {
        lastRotation, everDetected := rotation, false;
      }
      e := FaceRegion(p, if everDetected then Some(face) else None, rotation, width, height);
    }
  }

  /** Where the region is centred: where it was put by hand, on the face found, or in the middle. */
  lemma FaceCentre(p: Setting, face: Option<Face>, rotation: int, width: nat, height: nat)
    ensures var e := FaceRegion(p, face, rotation, width, height);
            && (p.manualRegion ==>
                  (0.08 <= p.regionX <= 0.92 ==> e.cx == p.regionX * width as real)
                  && (0.08 <= p.regionY <= 0.92 ==> e.cy == p.regionY * height as real))
            && (!p.manualRegion && face.None? ==> e.cx == 0.5 * width as real && e.cy == 0.5 * height as real)
            && (!p.manualRegion && face.Some? ==>
                  (0.08 <= face.value.cx <= 0.92 ==> e.cx == face.value.cx * width as real)
                  && (0.08 <= face.value.cy <= 0.92 ==> e.cy == face.value.cy * height as real))
  {
    hide BoundedRadius, MinDim;
  }

  /**
   How big it is without a face: for a region setting of 10 to 100 per cent, 17.5 to 40 hundredths of the smaller side
   across the face and 27.6 to 60 along it, in proportion; along the width when the picture lies on its side.
   */
  lemma FaceRadii(p: Setting, rotation: int, width: nat, height: nat)
    requires width >= 58 && height >= 58 && 10.0 <= p.region <= 100.0
    ensures var e, m := FaceRegion(p, None, rotation, width, height), MinDim(width, height);
            var across, along := m * (15.0 + 0.25 * p.region) / 100.0, m * (24.0 + 0.36 * p.region) / 100.0;
            if rotation == 90 || rotation == 270 then e.rx == along && e.ry == across
            else e.rx == across && e.ry == along
  {
    hide Across, Along, Coordinate, BoundedRadius, MinDim, FaceHalf;
    var m, r := MinDim(width, height), p.region / 100.0;
    assert Clamp(r, 0.1, 1.0) == r;
    MinDimIs(width, height);
    BaseRadii(m, p.region);
    RadiusInside(Across(m, r), m);
    RadiusInside(Along(m, r), m);
  }

  lemma MinDimIs(width: nat, height: nat)
    requires width >= 58 && height >= 58
    ensures MinDim(width, height) >= 58.0
  {
  }

  lemma BaseRadii(m: real, region: real)
    requires m >= 58.0 && 10.0 <= region <= 100.0
    ensures Across(m, region / 100.0) == m * (15.0 + 0.25 * region) / 100.0
    ensures Along(m, region / 100.0) == m * (24.0 + 0.36 * region) / 100.0
    ensures 0.14 * m <= Across(m, region / 100.0) <= 0.66 * m && 0.14 * m <= Along(m, region / 100.0) <= 0.66 * m
  {
    var r := region / 100.0;
    Percent(m, region, 0.25, 0.15);
    Percent(m, region, 0.36, 0.24);
    InShare(m, r * 0.25 + 0.15);
    InShare(m, r * 0.36 + 0.24);
  }

  lemma InShare(m: real, share: real)
    requires m >= 0.0 && 0.14 <= share <= 0.66
    ensures 0.14 * m <= m * share <= 0.66 * m
  {
    Product(m, share - 0.14);
    Product(m, 0.66 - share);
  }

  lemma RadiusInside(r: real, m: real)
    requires m >= 58.0 && 0.14 * m <= r <= 0.66 * m
    ensures BoundedRadius(r, m) == r
  {
  }

  lemma Percent(m: real, region: real, a: real, b: real)
    ensures m * (region / 100.0 * a + b) == m * (100.0 * b + a * region) / 100.0
  {
    assert (region / 100.0 * a + b) * 100.0 == 100.0 * b + a * region;
    assert m * ((region / 100.0 * a + b) * 100.0) == m * (region / 100.0 * a + b) * 100.0;
  }

  /** A face that was found only makes it bigger: half its size, times 0.86 to 1.04, if that is more. */
  lemma FaceEnlarges(p: Setting, face: Face, rotation: int, width: nat, height: nat)
    requires !p.manualRegion && 10.0 <= p.region <= 100.0
    ensures var e := FaceRegion(p, Some(face), rotation, width, height);
            var base := FaceRegion(p, None, rotation, width, height);
            var scale, m := 0.84 + 0.002 * p.region, MinDim(width, height);
            && e.rx == Fmax(base.rx, BoundedRadius(scale * (face.rx * width as real * 0.5), m))
            && e.ry == Fmax(base.ry, BoundedRadius(scale * (face.ry * height as real * 0.5), m))
  {
    hide Coordinate, Across, Along, BoundedRadius, MinDim, FaceHalf;
    HalfIs(p.region, face.rx, width as real);
    HalfIs(p.region, face.ry, height as real);
    var r, m := p.region / 100.0, MinDim(width, height);
    assert Clamp(r, 0.1, 1.0) == r && r * 0.2 + 0.84 == 0.84 + 0.002 * p.region;
    var sideways := rotation == 90 || rotation == 270;
    var baseX, baseY := if sideways then Along(m, r) else Across(m, r), if sideways then Across(m, r) else Along(m, r);
    LargerStays(baseX, FaceHalf(r, face.rx, width as real), m);
    LargerStays(baseY, FaceHalf(r, face.ry, height as real), m);
  }

  lemma HalfIs(region: real, size: real, side: real)
    ensures FaceHalf(region / 100.0, size, side) == (0.84 + 0.002 * region) * (size * side * 0.5)
  {
    assert region / 100.0 * 0.2 + 0.84 == 0.84 + 0.002 * region;
  }

  lemma LargerStays(a: real, b: real, m: real)
    requires m >= 0.0
    ensures BoundedRadius(Fmax(a, b), m) == Fmax(BoundedRadius(a, m), BoundedRadius(b, m))
  {
  }

  // ---------------------------------------------------------------- colours

  datatype Rgb = Rgb(r: real, g: real, b: real)

  function HueToRGB(hue: real): Rgb
    requires hue >= 0.0
  {
    var h := hue * 6.0;
    var i := h.Floor;
    var f := h - i as real;
    var q := 1.0 - f;
    match i % 6
    case 0 => Rgb(1.0, f, 0.0)
    case 1 => Rgb(q, 1.0, 0.0)
    case 2 => Rgb(0.0, 1.0, f)
    case 3 => Rgb(0.0, q, 1.0)
    case 4 => Rgb(f, 0.0, 1.0)
    case _ => Rgb(1.0, 0.0, q)
  }

  function Soften(c: real): real {
    c * 0.82 + 0.18
  }

  function TargetCb(hue: real): real
    requires hue >= 0.0
  {
    var c := HueToRGB(hue);
    (-0.168736 * Soften(c.r) - 0.331264 * Soften(c.g) + 0.5 * Soften(c.b)) * 255.0 + 128.0
  }

  function TargetCr(hue: real): real
    requires hue >= 0.0
  {
    var c := HueToRGB(hue);
    (0.5 * Soften(c.r) - 0.418688 * Soften(c.g) - 0.081312 * Soften(c.b)) * 255.0 + 128.0
  }

  /** A hue's colour is saturated: one channel is full and one is empty. The chroma targets are bytes. */
  lemma HueIsSaturated(hue: real)
    requires hue >= 0.0
    ensures var c := HueToRGB(hue);
            && 0.0 <= c.r <= 1.0 && 0.0 <= c.g <= 1.0 && 0.0 <= c.b <= 1.0
            && (c.r == 1.0 || c.g == 1.0 || c.b == 1.0) && (c.r == 0.0 || c.g == 0.0 || c.b == 0.0)
    ensures 0.0 <= TargetCb(hue) <= 255.0 && 0.0 <= TargetCr(hue) <= 255.0
  {
  }

  function Greatest(c: Rgb): real {
    if c.r > c.g then (if c.r > c.b then c.r else c.b) else (if c.g > c.b then c.g else c.b)
  }

  function Smallest(c: Rgb): real {
    if c.r < c.g then (if c.r < c.b then c.r else c.b) else (if c.g < c.b then c.g else c.b)
  }

  function Sector(c: Rgb, most: real, delta: real): real
    requires delta > 0.0
  {
    if most == c.r then (c.g - c.b) / delta
    else if most == c.g then (c.b - c.r) / delta + 2.0
    else (c.r - c.g) / delta + 4.0
  }

  /** The chroma targets are the softened colour's, after ITU-R BT.601, to within a hundredth of a step. */
  lemma TargetsAreBT601(hue: real)
    requires hue >= 0.0
    ensures var c := HueToRGB(hue);
            var r, g, b := 0.18 + 0.82 * c.r, 0.18 + 0.82 * c.g, 0.18 + 0.82 * c.b;
            var y := 0.299 * r + 0.587 * g + 0.114 * b;
            && -0.01 < TargetCb(hue) - (128.0 + 255.0 * (b - y) / 1.772) < 0.01
            && -0.01 < TargetCr(hue) - (128.0 + 255.0 * (r - y) / 1.402) < 0.01
  {
    HueIsSaturated(hue);
    hide HueToRGB;
  }

  /** The pure hues in their order: red, yellow, green, cyan, blue, magenta. */
  lemma PureHues()
    ensures HueToRGB(0.0) == Rgb(1.0, 0.0, 0.0) && HueToRGB(1.0 / 6.0) == Rgb(1.0, 1.0, 0.0)
    ensures HueToRGB(2.0 / 6.0) == Rgb(0.0, 1.0, 0.0) && HueToRGB(3.0 / 6.0) == Rgb(0.0, 1.0, 1.0)
    ensures HueToRGB(4.0 / 6.0) == Rgb(0.0, 0.0, 1.0) && HueToRGB(5.0 / 6.0) == Rgb(1.0, 0.0, 1.0)
  {
  }

  /** The hue of an averaged colour as the colour picker derives it; -1 when there is hardly any colour. */
  function HueOf(c: Rgb): real {
    var most, least := Greatest(c), Smallest(c);
    var delta := most - least;
    if delta < 0.05 || most < 0.04 || least > 0.97 then -1.0 else
    var hue := Sector(c, most, delta) / 6.0;
    if hue < 0.0 then hue + 1.0 else hue
  }

  /** A colour has no hue exactly when its channels differ by less than 0.05, or it is nearly black or nearly white. */
  lemma GreyHasNoHue(c: Rgb)
    ensures var most, least := Fmax(Fmax(c.r, c.g), c.b), Fmin(Fmin(c.r, c.g), c.b);
            && (HueOf(c) < 0.0 <==> most - least < 0.05 || most < 0.04 || least > 0.97)
            && (HueOf(c) < 0.0 ==> HueOf(c) == -1.0)
  {
    var most, least := Greatest(c), Smallest(c);
    if most - least >= 0.05 {
      SectorBounds(c, most, least);
    }
  }

  lemma SectorBounds(c: Rgb, most: real, least: real)
    requires most == Greatest(c) && least == Smallest(c) && most - least >= 0.05
    ensures Sector(c, most, most - least) >= -1.0
  {
    var d := most - least;
    AtLeastMinusOne(c.g - c.b, d);
    AtLeastMinusOne(c.b - c.r, d);
    AtLeastMinusOne(c.r - c.g, d);
  }

  lemma AtLeastMinusOne(a: real, d: real)
    requires d > 0.0 && a >= -d
    ensures a / d >= -1.0
  {
  }

  function Softened(c: Rgb): Rgb {
    Rgb(Soften(c.r), Soften(c.g), Soften(c.b))
  }

  /** The picker reads back the hue the effect was given, from the pure colour and from the softened one. */
  lemma HueRoundTrip(hue: real)
    requires 0.0 <= hue < 1.0
    ensures HueOf(HueToRGB(hue)) == hue && HueOf(Softened(HueToRGB(hue))) == hue
  {
    hide HueToRGB, HueOf;
    var i, g := HueInSector(hue);
    HueOfSector(HueToRGB(hue), 0.0, g, 1.0, i);
    Ratio(g, 1.0, g);
    HueOfSector(Softened(HueToRGB(hue)), 0.18, g * 0.82 + 0.18, 1.0, i);
    Ratio(g * 0.82, 0.82, g);
  }

  /** The colour of a hue: its sector, and how far its middle channel is. */
  function SectorColour(least: real, mid: real, most: real, i: int): Rgb {
    match i
    case 0 => Rgb(most, mid, least)
    case 1 => Rgb(mid, most, least)
    case 2 => Rgb(least, most, mid)
    case 3 => Rgb(least, mid, most)
    case 4 => Rgb(mid, least, most)
    case _ => Rgb(most, least, mid)
  }

  lemma HueInSector(hue: real) returns (i: int, g: real)
    requires 0.0 <= hue < 1.0
    ensures 0 <= i <= 5 && 0.0 <= g <= 1.0 && (i % 2 == 0 ==> g < 1.0) && (i == 5 ==> g > 0.0)
    ensures HueToRGB(hue) == SectorColour(0.0, g, 1.0, i)
    ensures hue == (i as real + if i % 2 == 0 then g else 1.0 - g) / 6.0
    ensures Softened(HueToRGB(hue)) == SectorColour(0.18, g * 0.82 + 0.18, 1.0, i)
  {
    i := (hue * 6.0).Floor;
    var f := hue * 6.0 - i as real;
    g := if i % 2 == 0 then f else 1.0 - f;
  }

  lemma Ratio(a: real, d: real, q: real)
    requires d > 0.0 && a == q * d
    ensures a / d == q
  {
  }

  /** A colour in sector `i`: one channel `most`, one `least`, and one on its way up or, in odd sectors, down. */
  lemma HueOfSector(c: Rgb, least: real, mid: real, most: real, i: int)
    requires 0 <= i <= 5 && least <= mid <= most && most - least >= 0.05 && most >= 0.04 && least <= 0.97
    requires i % 2 == 0 ==> mid < most
    requires c == SectorColour(least, mid, most, i)
    requires i == 5 ==> mid > least
    ensures var q := (mid - least) / (most - least);
            HueOf(c) == (i as real + if i % 2 == 0 then q else 1.0 - q) / 6.0
  {
    hide Greatest, Smallest, Sector, SectorColour;
    var q := (mid - least) / (most - least);
    Extremes(least, mid, most, i);
    SectorIs(least, mid, most, i);
    RatioBounds(mid - least, most - least);
    if i < 5 {
      assert i as real + (if i % 2 == 0 then q else 1.0 - q) >= 0.0;
    }
  }

  lemma Extremes(least: real, mid: real, most: real, i: int)
    requires 0 <= i <= 5 && least <= mid <= most
    ensures var c := SectorColour(least, mid, most, i); Greatest(c) == most && Smallest(c) == least
  {
  }

  /** In the last sector the formula counts down from zero instead of from six. */
  lemma SectorIs(least: real, mid: real, most: real, i: int)
    requires 0 <= i <= 5 && least <= mid <= most && least < most && (i % 2 == 0 ==> mid < most)
    ensures var q := (mid - least) / (most - least);
            Sector(SectorColour(least, mid, most, i), most, most - least) ==
            if i == 5 then -q else i as real + if i % 2 == 0 then q else 1.0 - q
  {
    var d := most - least;
    var up, down := (mid - least) / d, (least - mid) / d;
    Negated(mid - least, d);
    assert down == -up;
    if mid == most {
      Ratio(d, d, 1.0);
    }
  }

  lemma Negated(a: real, d: real)
    requires d > 0.0
    ensures (-a) / d == -(a / d)
  {
    var q := a / d;
    assert q * d == a;
    Ratio(-a, d, -q);
  }

  lemma RatioBounds(a: real, d: real)
    requires 0.0 <= a <= d && d > 0.0
    ensures 0.0 <= a / d <= 1.0 && (a > 0.0 ==> a / d > 0.0)
  {
  }

  // ---------------------------------------------------------------- one pixel

  function D2(e: Ellipse, x: real, y: real): real
    requires e.rx > 0.0 && e.ry > 0.0
  {
    (x - e.cx) / e.rx * ((x - e.cx) / e.rx) + (y - e.cy) / e.ry * ((y - e.cy) / e.ry)
  }

  /** The ellipse's own coordinates: so many radii to the side and up. */
  lemma EllipseCoordinates(e: Ellipse, k: real, l: real)
    requires e.rx > 0.0 && e.ry > 0.0
    ensures D2(e, e.cx + k * e.rx, e.cy + l * e.ry) == k * k + l * l
  {
    Ratio(k * e.rx, e.rx, k);
    Ratio(l * e.ry, e.ry, l);
  }

  /** The smooth fade from the centre to the rim. */
  function Weight(d2: real): (w: real)
    ensures 0.0 <= w <= 1.0
    ensures d2 <= 0.3 ==> w == 1.0
    ensures d2 >= 1.18 ==> w == 0.0
  {
    var inv := 1.0 - Clamp((d2 - 0.30) / 0.88, 0.0, 1.0);
    WeightBounds(inv);
    inv * inv * (3.0 - 2.0 * inv)
  }

  lemma WeightBounds(v: real)
    requires 0.0 <= v <= 1.0
    ensures 0.0 <= v * v * (3.0 - 2.0 * v) <= 1.0
  {
    Product(v, v);
    Product(v * v, 3.0 - 2.0 * v);
    assert 1.0 - v * v * (3.0 - 2.0 * v) == (1.0 - v) * (1.0 - v) * (1.0 + 2.0 * v);
    Product(1.0 - v, 1.0 - v);
    Product((1.0 - v) * (1.0 - v), 1.0 + 2.0 * v);
  }

  function PartWay(from: real, to: real, alpha: real): real {
    alpha * (to - from) + from
  }

  /** Moving a byte by the fraction `alpha` of the way to `target`. */
  function Blend(v: byte, target: real, alpha: real): (b: byte) {
    Clamp(PartWay(v as real, target, alpha), 0.0, 255.0).Floor
  }

  /** A blended byte lies between the old one and the whole part of the target, ends included. */
  lemma BlendMovesTowards(v: byte, target: real, alpha: real)
    requires 0.0 <= alpha <= 1.0 && 0.0 <= target <= 255.0
    ensures v as int <= target.Floor ==> v <= Blend(v, target, alpha) <= target.Floor
    ensures v as int >= target.Floor ==> target.Floor <= Blend(v, target, alpha) <= v
    ensures alpha == 0.0 ==> Blend(v, target, alpha) == v
  {
    hide PartWay;
    PartOfTheWay(v as real, target, alpha);
    BetweenFloors(v, target, PartWay(v as real, target, alpha));
  }

  lemma BetweenFloors(v: byte, target: real, x: real)
    requires 0.0 <= target <= 255.0
    requires (v as real <= target ==> v as real <= x <= target) && (target <= v as real ==> target <= x <= v as real)
    ensures var b := Clamp(x, 0.0, 255.0).Floor;
            && (v as int <= target.Floor ==> v <= b <= target.Floor)
            && (v as int >= target.Floor ==> target.Floor <= b <= v)
            && (x == v as real ==> b == v)
  {
  }

  lemma PartOfTheWay(from: real, to: real, alpha: real)
    requires 0.0 <= alpha <= 1.0
    ensures var x := PartWay(from, to, alpha); (from <= to ==> from <= x <= to) && (to <= from ==> to <= x <= from)
    ensures alpha == 0.0 ==> PartWay(from, to, alpha) == from
  {
    if from <= to {
      Product(alpha, to - from);
      Product(1.0 - alpha, to - from);
    } else {
      Product(alpha, from - to);
      Product(1.0 - alpha, from - to);
    }
  }

  function Factor(brightness: real, gain: real, limit: real): real {
    Clamp(brightness * gain, 0.0, limit)
  }

  function Alpha(brightness: real, gain: real, limit: real, d2: real): real {
    Factor(brightness, gain, limit) * Weight(d2)
  }

  lemma AlphaIsFraction(brightness: real, gain: real, limit: real, d2: real)
    requires 0.0 <= limit <= 1.0
    ensures 0.0 <= Alpha(brightness, gain, limit, d2) <= 1.0
    ensures d2 >= 1.18 ==> Alpha(brightness, gain, limit, d2) == 0.0
  {
    Product(Factor(brightness, gain, limit), Weight(d2));
    Product(1.0 - Factor(brightness, gain, limit), Weight(d2));
  }

  const LUMA_GAIN := 0.72
  const LUMA_LIMIT := 0.82
  const CHROMA_GAIN := 1.02
  const CHROMA_LIMIT := 0.98
  const RIM := 1.18

  /** The new luma of a pixel. */
  function Luma(v: byte, brightness: real, d2: real): byte {
    if d2 > RIM then v else Blend(v, 255.0, Alpha(brightness, LUMA_GAIN, LUMA_LIMIT, d2))
  }

  function Chroma(v: byte, target: real, brightness: real, d2: real): byte {
    if d2 > RIM then v else Blend(v, target, Alpha(brightness, CHROMA_GAIN, CHROMA_LIMIT, d2))
  }

  /** Luma never decreases; chroma moves towards the whole part of its target and not past it. */
  lemma PixelMoves(v: byte, target: real, brightness: real, d2: real)
    requires 0.0 <= target <= 255.0
    ensures v <= Luma(v, brightness, d2)
    ensures var c := Chroma(v, target, brightness, d2);
            && (v as int <= target.Floor ==> v <= c <= target.Floor)
            && (v as int >= target.Floor ==> target.Floor <= c <= v)
  {
    AlphaIsFraction(brightness, LUMA_GAIN, LUMA_LIMIT, d2);
    AlphaIsFraction(brightness, CHROMA_GAIN, CHROMA_LIMIT, d2);
    BlendMovesTowards(v, 255.0, Alpha(brightness, LUMA_GAIN, LUMA_LIMIT, d2));
    BlendMovesTowards(v, target, Alpha(brightness, CHROMA_GAIN, CHROMA_LIMIT, d2));
  }

  /** The fade is one minus the smooth step from 0.30 to 1.18. */
  lemma WeightFades(d2: real)
    requires 0.30 <= d2 <= 1.18
    ensures var t := (d2 - 0.30) / 0.88; 0.0 <= t <= 1.0 && Weight(d2) == 1.0 - t * t * (3.0 - 2.0 * t)
  {
    var t := (d2 - 0.30) / 0.88;
    assert 0.0 <= t <= 1.0;
    var v := 1.0 - t;
    assert v * v == 1.0 - 2.0 * t + t * t;
    assert 3.0 - 2.0 * v == 1.0 + 2.0 * t;
    assert (1.0 - 2.0 * t + t * t) * (1.0 + 2.0 * t) == 1.0 - 3.0 * (t * t) + 2.0 * (t * t * t);
    assert t * t * (3.0 - 2.0 * t) == 3.0 * (t * t) - 2.0 * (t * t * t);
  }

  /** How far a byte is moved: luma by 0.72, chroma by 1.02 of the brightness, but by no more than 0.82 and 0.98. */
  lemma BlendShares(v: byte, target: real, brightness: real, d2: real)
    requires 0.0 <= target <= 255.0 && brightness >= 0.0 && d2 <= 1.18
    ensures var a := (if brightness * 0.72 < 0.82 then brightness * 0.72 else 0.82) * Weight(d2);
            Luma(v, brightness, d2) == (a * 255.0 + (1.0 - a) * v as real).Floor
    ensures var a := (if brightness * 1.02 < 0.98 then brightness * 1.02 else 0.98) * Weight(d2);
            Chroma(v, target, brightness, d2) == (a * target + (1.0 - a) * v as real).Floor
  {
    hide Weight, Blend, Alpha;
    SharesAre(v, 255.0, brightness, 0.72, 0.82, d2);
    SharesAre(v, target, brightness, 1.02, 0.98, d2);
  }

  lemma SharesAre(v: byte, target: real, brightness: real, gain: real, limit: real, d2: real)
    requires 0.0 <= target <= 255.0 && brightness >= 0.0 && gain > 0.0 && 0.0 <= limit <= 1.0
    ensures var a := (if brightness * gain < limit then brightness * gain else limit) * Weight(d2);
            Blend(v, target, Alpha(brightness, gain, limit, d2)) == (a * target + (1.0 - a) * v as real).Floor
  {
    hide Weight;
    Product(brightness, gain);
    AlphaIsFraction(brightness, gain, limit, d2);
    var a := Alpha(brightness, gain, limit, d2);
    PartOfTheWay(v as real, target, a);
    assert a * (target - v as real) == a * target - a * v as real;
    assert (1.0 - a) * v as real == v as real - a * v as real;
  }

  // ---------------------------------------------------------------- the visited box

  function BoxMin(c: real, r: real): (k: int)
    ensures k >= 0
  {
    Fmax(0.0, c - r - 1.0).Floor
  }

  function BoxMax(c: real, r: real, n: nat): (k: int)
    requires n > 0
    ensures k <= n - 1
  {
    Fmin((n - 1) as real, c + r + 1.0).Floor
  }

  /** The visited columns, or rows, of a frame: from two before the ellipse to one behind it. */
  lemma BoxIs(c: real, r: real, n: nat, k: nat)
    requires k < n
    ensures BoxMin(c, r) <= k <= BoxMax(c, r, n) <==> c - r - 2.0 < k as real <= c + r + 1.0
    ensures 2 * k + 1 < n ==>
              (BoxMin(c, r) / 2 <= k <= BoxMax(c, r, n) / 2
               <==> c - r - 2.0 < (2 * k + 1) as real && (2 * k) as real <= c + r + 1.0)
  {
  }

  /** Squares of quotients at most one bound the numerator. */
  lemma QuotientBound(a: real, r: real)
    requires r > 0.0 && a / r * (a / r) <= 1.0
    ensures -r <= a <= r
  {
    var q := a / r;
    assert q * r == a;
    if q > 1.0 || q < -1.0 {
      SquareAboveOne(q);
      assert false;
    }
    Product(1.0 - q, r);
    Product(1.0 + q, r);
  }

  lemma SquareAboveOne(q: real)
    requires q > 1.0 || q < -1.0
    ensures q * q > 1.0
  {
  }

  lemma EllipseBound(e: Ellipse, x: real, y: real)
    requires e.rx > 0.0 && e.ry > 0.0 && D2(e, x, y) <= 1.0
    ensures e.cx - e.rx <= x <= e.cx + e.rx && e.cy - e.ry <= y <= e.cy + e.ry
  {
    var u, v := (x - e.cx) / e.rx, (y - e.cy) / e.ry;
    assert u * u >= 0.0 && v * v >= 0.0;
    QuotientBound(x - e.cx, e.rx);
    QuotientBound(y - e.cy, e.ry);
  }

  predicate InBox(e: Ellipse, width: nat, height: nat, px: int, py: int)
    requires width > 0 && height > 0
  {
    && BoxMin(e.cx, e.rx) <= px <= BoxMax(e.cx, e.rx, width)
    && BoxMin(e.cy, e.ry) <= py <= BoxMax(e.cy, e.ry, height)
  }

  /** Every pixel of the frame whose centre is in the unit ellipse is visited. */
  lemma LumaCovers(e: Ellipse, width: nat, height: nat, px: nat, py: nat)
    requires e.rx > 0.0 && e.ry > 0.0 && px < width && py < height
    requires D2(e, px as real + 0.5, py as real + 0.5) <= 1.0
    ensures InBox(e, width, height, px, py)
  {
    EllipseBound(e, px as real + 0.5, py as real + 0.5);
  }

  predicate InChromaBox(e: Ellipse, width: nat, height: nat, vx: int, vy: int)
    requires width >= 2 && height >= 2
  {
    && BoxMin(e.cx, e.rx) / 2 <= vx <= width / 2 - 1 && vx <= BoxMax(e.cx, e.rx, width) / 2
    && BoxMin(e.cy, e.ry) / 2 <= vy <= height / 2 - 1 && vy <= BoxMax(e.cy, e.ry, height) / 2
  }

  /** And so is every chroma sample whose centre is. */
  lemma ChromaCovers(e: Ellipse, width: nat, height: nat, vx: nat, vy: nat)
    requires e.rx > 0.0 && e.ry > 0.0 && width >= 2 && height >= 2 && vx < width / 2 && vy < height / 2
    requires D2(e, (2 * vx + 1) as real, (2 * vy + 1) as real) <= 1.0
    ensures InChromaBox(e, width, height, vx, vy)
  {
    EllipseBound(e, (2 * vx + 1) as real, (2 * vy + 1) as real);
    assert BoxMin(e.cx, e.rx) <= 2 * vx && BoxMin(e.cy, e.ry) <= 2 * vy;
    assert BoxMax(e.cx, e.rx, width) >= 2 * vx + 1 && BoxMax(e.cy, e.ry, height) >= 2 * vy + 1;
  }

  // ---------------------------------------------------------------- the loops

  function Index(stride: nat, y: nat, x: nat): nat {
    y * stride + x
  }

  /** Rows lie one after the other. */
  lemma RowMajor(stride: nat, y: nat, x: nat)
    ensures Index(stride, 0, 0) == 0 && Index(stride, y, x + 1) == Index(stride, y, x) + 1
    ensures Index(stride, y + 1, x) == Index(stride, y, x) + stride
  {
  }

  lemma IndexInBounds(stride: nat, rows: nat, y: nat, x: nat)
    requires y < rows && x < stride
    ensures Index(stride, y, x) < rows * stride
  {
    assert (rows - 1 - y) * stride >= 0;
    assert rows * stride == y * stride + (rows - 1 - y) * stride + stride;
  }

  lemma IndexIsInjective(stride: nat, y: nat, x: nat, y': nat, x': nat)
    requires x < stride && x' < stride && (y != y' || x != x')
    ensures Index(stride, y, x) != Index(stride, y', x')
  {
    if y < y' {
      RowsApart(stride, y, y');
    } else if y' < y {
      RowsApart(stride, y', y);
    }
  }

  lemma RowsApart(stride: nat, y: nat, y': nat)
    requires y < y'
    ensures y * stride + stride <= y' * stride
  {
    Rows(stride, y + 1, y');
  }

  lemma Rows(stride: nat, y: nat, y': nat)
    requires y <= y'
    ensures y * stride <= y' * stride
  {
  }

  /** The luma byte of row `y`, column `x`, after the effect on a plane whose bytes were `s`. */
  function NewLuma(s: seq<byte>, stride: nat, width: nat, height: nat, e: Ellipse, brightness: real,
                   y: nat, x: nat): byte
    requires width > 0 && height > 0 && e.rx > 0.0 && e.ry > 0.0 && Index(stride, y, x) < |s|
  {
    var v := s[Index(stride, y, x)];
    if InBox(e, width, height, x, y) then Luma(v, brightness, D2(e, x as real + 0.5, y as real + 0.5)) else v
  }

  ghost predicate Plane(s: seq<byte>, stride: nat, height: nat) {
    |s| == height * stride
    && forall y: nat, x: nat :: y < height && x < stride ==> Index(stride, y, x) < |s|
  }

  lemma PlaneIndices(s: seq<byte>, stride: nat, height: nat)
    requires |s| == height * stride
    ensures Plane(s, stride, height)
  {
    forall y: nat, x: nat | y < height && x < stride ensures Index(stride, y, x) < |s| {
      IndexInBounds(stride, height, y, x);
    }
  }

  /** Writing one cell leaves the others. */
  lemma OtherCells(s: seq<byte>, stride: nat, height: nat, y: nat, x: nat, v: byte)
    requires Plane(s, stride, height) && y < height && x < stride
    ensures var t := s[Index(stride, y, x) := v];
            Plane(t, stride, height)
            && forall y': nat, x': nat :: y' < height && x' < stride ==>
                 t[Index(stride, y', x')] == if y' == y && x' == x then v else s[Index(stride, y', x')]
  {
    var t := s[Index(stride, y, x) := v];
    forall y': nat, x': nat | y' < height && x' < stride
      ensures t[Index(stride, y', x')] == if y' == y && x' == x then v else s[Index(stride, y', x')]
    {
      if y' != y || x' != x {
        IndexIsInjective(stride, y, x, y', x');
      }
    }
  }

  /** Writes one cell. */
  method SetCell(plane: array<byte>, stride: nat, rows: nat, y: nat, x: nat, v: byte)
    requires Plane(plane[..], stride, rows) && y < rows && x < stride
    modifies plane
    ensures Plane(plane[..], stride, rows)
    ensures forall y': nat, x': nat :: y' < rows && x' < stride ==>
              plane[..][Index(stride, y', x')] ==
              if y' == y && x' == x then v else old(plane[..])[Index(stride, y', x')]
  {
    hide Index;
    ghost var t := plane[..];
    var k := Index(stride, y, x);
    assert k < |t|;
    plane[k] := v;
    assert plane[..] == t[k := v];
    OtherCells(t, stride, rows, y, x, v);
  }

  /** One row of the luma loop. */
  method LumaRow(plane: array<byte>, stride: nat, width: nat, height: nat, e: Ellipse, brightness: real, py: nat)
    requires width > 0 && height > 0 && width <= stride && Plane(plane[..], stride, height)
    requires e.rx > 0.0 && e.ry > 0.0 && BoxMin(e.cy, e.ry) <= py <= BoxMax(e.cy, e.ry, height)
    modifies plane
    ensures Plane(plane[..], stride, height)
    ensures forall y: nat, x: nat :: y < height && x < stride ==>
              plane[..][Index(stride, y, x)] ==
              if y == py then NewLuma(old(plane[..]), stride, width, height, e, brightness, y, x)
              else old(plane[..])[Index(stride, y, x)]
  {
    hide Luma, D2;
    ghost var s := plane[..];
    var minX, maxX := BoxMin(e.cx, e.rx), BoxMax(e.cx, e.rx, width);
    var px := minX;
    while px <= maxX
      invariant minX <= px
      invariant Plane(plane[..], stride, height)
      invariant forall y: nat, x: nat :: y < height && x < stride ==>
                  plane[..][Index(stride, y, x)] ==
                  if y == py && x < px then NewLuma(s, stride, width, height, e, brightness, y, x)
                  else s[Index(stride, y, x)]
      decreases maxX - px
    {
      hide Index;
      var d2 := D2(e, px as real + 0.5, py as real + 0.5);
      assert Index(stride, py, px) < |plane[..]|;
      SetCell(plane, stride, height, py, px, Luma(plane[Index(stride, py, px)], brightness, d2));
      px := px + 1;
    }
  }

  /**
   Every access is in bounds. Exactly the pixels of the box get their new luma, computed from their own old value;
   padding and everything else stays.
   */
  method ApplyLuma(plane: array<byte>, stride: nat, width: nat, height: nat, e: Ellipse, brightness: real)
    requires width > 0 && height > 0 && width <= stride && plane.Length == height * stride
    requires e.rx > 0.0 && e.ry > 0.0
    modifies plane
    ensures Plane(plane[..], stride, height)
    ensures forall y: nat, x: nat :: y < height && x < stride ==>
              plane[..][Index(stride, y, x)] == NewLuma(old(plane[..]), stride, width, height, e, brightness, y, x)
  {
    hide Luma, D2;
    ghost var s := plane[..];
    PlaneIndices(s, stride, height);
    var py := BoxMin(e.cy, e.ry);
    var maxY := BoxMax(e.cy, e.ry, height);
    while py <= maxY
      invariant BoxMin(e.cy, e.ry) <= py
      invariant Plane(plane[..], stride, height)
      invariant forall y: nat, x: nat :: y < height && x < stride ==>
                  plane[..][Index(stride, y, x)] ==
                  if y < py then NewLuma(s, stride, width, height, e, brightness, y, x)
                  else s[Index(stride, y, x)]
      decreases maxY - py
    {
      LumaRow(plane, stride, width, height, e, brightness, py);
      py := py + 1;
    }
  }

  /** The chroma byte of row `y`, byte column `x`: pairs of one Cb and one Cr byte. */
  function NewChroma(s: seq<byte>, stride: nat, width: nat, height: nat, e: Ellipse, brightness: real,
                     cb: real, cr: real, y: nat, x: nat): byte
    requires width >= 2 && height >= 2 && e.rx > 0.0 && e.ry > 0.0 && Index(stride, y, x) < |s|
  {
    var v := s[Index(stride, y, x)];
    if InChromaBox(e, width, height, x / 2, y) then
      Chroma(v, if x % 2 == 0 then cb else cr, brightness, D2(e, (2 * (x / 2) + 1) as real, (2 * y + 1) as real))
    else v
  }

  method ChromaRow(plane: array<byte>, stride: nat, width: nat, height: nat, e: Ellipse, brightness: real,
                   cb: real, cr: real, vy: nat)
    requires width >= 2 && height >= 2 && width / 2 * 2 <= stride && Plane(plane[..], stride, height / 2)
    requires e.rx > 0.0 && e.ry > 0.0
    requires BoxMin(e.cy, e.ry) / 2 <= vy <= height / 2 - 1 && vy <= BoxMax(e.cy, e.ry, height) / 2
    modifies plane
    ensures Plane(plane[..], stride, height / 2)
    ensures forall y: nat, x: nat :: y < height / 2 && x < stride ==>
              plane[..][Index(stride, y, x)] ==
              if y == vy then NewChroma(old(plane[..]), stride, width, height, e, brightness, cb, cr, y, x)
              else old(plane[..])[Index(stride, y, x)]
  {
    hide Chroma, D2;
    ghost var s := plane[..];
    var minX := BoxMin(e.cx, e.rx) / 2;
    var maxX := BoxMax(e.cx, e.rx, width) / 2;
    if width / 2 - 1 < maxX { maxX := width / 2 - 1; }
    var vx := minX;
    while vx <= maxX
      invariant minX <= vx
      invariant Plane(plane[..], stride, height / 2)
      invariant forall y: nat, x: nat :: y < height / 2 && x < stride ==>
                  plane[..][Index(stride, y, x)] ==
                  if y == vy && x < 2 * vx then NewChroma(s, stride, width, height, e, brightness, cb, cr, y, x)
                  else s[Index(stride, y, x)]
      decreases maxX - vx
    {
      hide Index;
      var d2 := D2(e, (2 * vx + 1) as real, (2 * vy + 1) as real);
      ChromaSample(plane, stride, height / 2, vy, vx, cb, cr, brightness, d2);
      vx := vx + 1;
    }
  }

  /** The two bytes of one sample. */
  method ChromaSample(plane: array<byte>, stride: nat, rows: nat, vy: nat, vx: nat, cb: real, cr: real,
                      brightness: real, d2: real)
    requires Plane(plane[..], stride, rows) && vy < rows && 2 * vx + 1 < stride
    modifies plane
    ensures Plane(plane[..], stride, rows)
    ensures forall y: nat, x: nat :: y < rows && x < stride ==>
              var v := old(plane[..])[Index(stride, y, x)];
              plane[..][Index(stride, y, x)] ==
              if y == vy && x / 2 == vx then Chroma(v, if x % 2 == 0 then cb else cr, brightness, d2) else v
  {
    hide Index, Chroma;
    var k, l := Index(stride, vy, 2 * vx), Index(stride, vy, 2 * vx + 1);
    assert k < |plane[..]| && l < |plane[..]|;
    SetCell(plane, stride, rows, vy, 2 * vx, Chroma(plane[k], cb, brightness, d2));
    SetCell(plane, stride, rows, vy, 2 * vx + 1, Chroma(plane[l], cr, brightness, d2));
  }

  /** The same for the chroma plane, two bytes a sample. */
  method ApplyChroma(plane: array<byte>, stride: nat, width: nat, height: nat, e: Ellipse, brightness: real, hue: real)
    requires width >= 2 && height >= 2 && width / 2 * 2 <= stride && plane.Length == height / 2 * stride
    requires e.rx > 0.0 && e.ry > 0.0 && hue >= 0.0
    modifies plane
    ensures Plane(plane[..], stride, height / 2)
    ensures forall y: nat, x: nat :: y < height / 2 && x < stride ==>
              plane[..][Index(stride, y, x)]
              == NewChroma(old(plane[..]), stride, width, height, e, brightness, TargetCb(hue), TargetCr(hue), y, x)
  {
    hide Chroma, D2, TargetCb, TargetCr;
    ghost var s := plane[..];
    PlaneIndices(s, stride, height / 2);
    var vy := BoxMin(e.cy, e.ry) / 2;
    var maxY := BoxMax(e.cy, e.ry, height) / 2;
    if height / 2 - 1 < maxY { maxY := height / 2 - 1; }
    while vy <= maxY
      invariant BoxMin(e.cy, e.ry) / 2 <= vy
      invariant Plane(plane[..], stride, height / 2)
      invariant forall y: nat, x: nat :: y < height / 2 && x < stride ==>
                  plane[..][Index(stride, y, x)] ==
                  if y < vy then NewChroma(s, stride, width, height, e, brightness, TargetCb(hue), TargetCr(hue), y, x)
                  else s[Index(stride, y, x)]
      decreases maxY - vy
    {
      ChromaRow(plane, stride, width, height, e, brightness, TargetCb(hue), TargetCr(hue), vy);
      vy := vy + 1;
    }
  }

  // ---------------------------------------------------------------- the effect on a frame

  /** On the whole luma plane nothing gets darker, nothing beyond the rim changes, the unit ellipse is all blended. */
  lemma LumaEffect(s: seq<byte>, stride: nat, width: nat, height: nat, e: Ellipse, brightness: real, y: nat, x: nat)
    requires Plane(s, stride, height) && 0 < width <= stride && x < stride && y < height && e.rx > 0.0 && e.ry > 0.0
    ensures var v, w, d2 := s[Index(stride, y, x)], NewLuma(s, stride, width, height, e, brightness, y, x),
                            D2(e, x as real + 0.5, y as real + 0.5);
            && v <= w
            && (d2 > RIM || x >= width ==> w == v)
            && (d2 <= 1.0 && x < width ==> w == Blend(v, 255.0, Alpha(brightness, LUMA_GAIN, LUMA_LIMIT, d2)))
  {
    hide D2, Weight;
    var d2 := D2(e, x as real + 0.5, y as real + 0.5);
    PixelMoves(s[Index(stride, y, x)], 0.0, brightness, d2);
    if d2 <= 1.0 && x < width {
      LumaCovers(e, width, height, x, y);
    }
  }

  /** Over the whole chroma plane: every byte moves towards its target, none beyond the rim, all in the unit ellipse. */
  lemma ChromaEffect(s: seq<byte>, stride: nat, width: nat, height: nat, e: Ellipse, brightness: real, hue: real,
                     y: nat, x: nat)
    requires Plane(s, stride, height / 2) && width >= 2 && width / 2 * 2 <= stride && x < stride && y < height / 2
    requires e.rx > 0.0 && e.ry > 0.0 && hue >= 0.0
    ensures var target := if x % 2 == 0 then TargetCb(hue) else TargetCr(hue);
            var v, w := s[Index(stride, y, x)],
                        NewChroma(s, stride, width, height, e, brightness, TargetCb(hue), TargetCr(hue), y, x);
            var d2 := D2(e, (2 * (x / 2) + 1) as real, (2 * y + 1) as real);
            && (v as int <= target.Floor ==> v <= w <= target.Floor)
            && (v as int >= target.Floor ==> target.Floor <= w <= v)
            && (d2 > RIM || x >= width / 2 * 2 ==> w == v)
            && (d2 <= 1.0 && x < width / 2 * 2 ==>
                  w == Blend(v, target, Alpha(brightness, CHROMA_GAIN, CHROMA_LIMIT, d2)))
  {
    hide D2, Weight;
    HueIsSaturated(hue);
    hide TargetCb, TargetCr;
    var target := if x % 2 == 0 then TargetCb(hue) else TargetCr(hue);
    var d2 := D2(e, (2 * (x / 2) + 1) as real, (2 * y + 1) as real);
    PixelMoves(s[Index(stride, y, x)], target, brightness, d2);
    if d2 <= 1.0 && x < width / 2 * 2 {
      ChromaCovers(e, width, height, x / 2, y);
    }
  }
}
