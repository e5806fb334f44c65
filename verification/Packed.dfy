// The flash effect on packed buffers: 4:2:2 YUV, where two pixels share their chroma bytes, and 32-bit colour, where
// every channel is first lightened and then tinted. Both branches run the same loops around different pixel writes.

module Packed {
  import opened Bytes
  import opened Reals
  import opened Pixels

  /** How the bytes of a row belong to its pixels, and what colour the effect goes for. */
  datatype Layout =
    | Yuv422(cb: real, cr: real)
    | Rgb32(rOff: nat, gOff: nat, bOff: nat, colour: Rgb)

  /** Pairs of pixels are whole in a 4:2:2 row; a 32-bit row may be padded. */
  predicate Fits(l: Layout, width: nat, stride: nat) {
    match l
    case Yuv422(_, _) => width % 2 == 0 && 2 * width <= stride
    case Rgb32(r, g, b, _) => 4 * width <= stride && r < 4 && g < 4 && b < 4 && r != g && g != b && r != b
  }

  /** The pixel that writes byte column `x`: a pair's chroma bytes are written by its even pixel. */
  function Writer(l: Layout, x: nat): nat {
    if l.Rgb32? then x / 4 else if x % 2 == 0 then x / 2 else x / 4 * 2
  }

  const LIGHT_GAIN := 0.70
  const LIGHT_LIMIT := 0.78
  const TINT_GAIN := 0.90
  const TINT_LIMIT := 0.96

  function Mix(from: real, target: real, share: real): real {
    target * share + (1.0 - share) * from
  }

  /** A colour channel: lightened, then mixed with the target. */
  function Tint(v: byte, target: real, brightness: real, d2: real): byte {
    if d2 > RIM then v else
    var lit := PartWay(v as real, 255.0, Alpha(brightness, LIGHT_GAIN, LIGHT_LIMIT, d2));
    var ca := Alpha(brightness, TINT_GAIN, TINT_LIMIT, d2);
    Clamp(Mix(lit, target, ca), 0.0, 255.0).Floor
  }

  /** The new value of the byte in column `x`; a 32-bit pixel's fourth byte stays. */
  function NewByte(l: Layout, x: nat, v: byte, brightness: real, d2: real): byte {
    match l
    case Yuv422(cb, cr) =>
      if x % 2 == 0 then Luma(v, brightness, d2) else Chroma(v, if x % 4 == 1 then cb else cr, brightness, d2)
    case Rgb32(r, g, b, c) =>
      if x % 4 == r then Tint(v, c.r * 255.0, brightness, d2)
      else if x % 4 == g then Tint(v, c.g * 255.0, brightness, d2)
      else if x % 4 == b then Tint(v, c.b * 255.0, brightness, d2)
      else v
  }

  /** The byte of row `y`, column `x`, after the effect on a plane whose bytes were `s`. */
  function NewPacked(l: Layout, s: seq<byte>, stride: nat, width: nat, height: nat, e: Ellipse, brightness: real,
                     y: nat, x: nat): byte
    requires width > 0 && height > 0 && e.rx > 0.0 && e.ry > 0.0 && Index(stride, y, x) < |s|
  {
    var v, px := s[Index(stride, y, x)], Writer(l, x);
    if InBox(e, width, height, px, y) then NewByte(l, x, v, brightness, Distance(e, px, y)) else v
  }

  function Distance(e: Ellipse, px: nat, py: nat): real
    requires e.rx > 0.0 && e.ry > 0.0
  {
    D2(e, px as real + 0.5, py as real + 0.5)
  }

  /** A pixel is where its middle is: `k` radii to the side and `l` up. */
  lemma PixelPlace(e: Ellipse, px: nat, py: nat, k: real, l: real)
    requires e.rx > 0.0 && e.ry > 0.0
    requires 2.0 * (e.cx + k * e.rx) == (2 * px + 1) as real && 2.0 * (e.cy + l * e.ry) == (2 * py + 1) as real
    ensures Distance(e, px, py) == k * k + l * l
  {
    hide D2;
    assert e.cx + k * e.rx == px as real + 0.5 && e.cy + l * e.ry == py as real + 0.5;
    EllipseCoordinates(e, k, l);
  }

  // ---------------------------------------------------------------- what a channel becomes

  /** Between where it was and full on the one side, and its target on the other: never below both. */
  lemma TintMoves(v: byte, target: real, brightness: real, d2: real)
    requires 0.0 <= target <= 255.0
    ensures var t := Tint(v, target, brightness, d2);
            && (v as int <= target.Floor ==> v <= t) && (v as int >= target.Floor ==> target.Floor <= t)
            && (d2 >= RIM ==> t == v)
  {
    hide Alpha, PartWay, Mix, Clamp;
    var a := Alpha(brightness, LIGHT_GAIN, LIGHT_LIMIT, d2);
    var ca := Alpha(brightness, TINT_GAIN, TINT_LIMIT, d2);
    AlphaIsFraction(brightness, LIGHT_GAIN, LIGHT_LIMIT, d2);
    AlphaIsFraction(brightness, TINT_GAIN, TINT_LIMIT, d2);
    var lit := PartWay(v as real, 255.0, a);
    PartOfTheWay(v as real, 255.0, a);
    PartOfTheWay(lit, target, ca);
    MixIsPartWay(lit, target, ca);
    NotBelowBoth(v, target, lit, PartWay(lit, target, ca));
  }

  lemma NotBelowBoth(v: byte, target: real, lit: real, x: real)
    requires 0.0 <= target <= 255.0 && v as real <= lit <= 255.0
    requires (lit <= target ==> lit <= x <= target) && (target <= lit ==> target <= x <= lit)
    ensures var t := Clamp(x, 0.0, 255.0).Floor;
            && 0 <= t <= 255
            && (v as int <= target.Floor ==> v <= t) && (v as int >= target.Floor ==> target.Floor <= t)
            && (x == v as real ==> t == v)
  {
  }

  lemma MixIsPartWay(from: real, target: real, ca: real)
    ensures Mix(from, target, ca) == PartWay(from, target, ca)
  {
    assert (1.0 - ca) * from == from - ca * from && ca * (target - from) == ca * target - ca * from;
  }

  /** How far: first 0.70 of the brightness towards white, at most 0.78, then 0.90 towards the target, at most 0.96. */
  lemma TintShares(v: byte, target: real, brightness: real, d2: real)
    requires 0.0 <= target <= 255.0 && brightness >= 0.0 && d2 <= 1.18
    ensures var a := (if brightness * 0.70 < 0.78 then brightness * 0.70 else 0.78) * Weight(d2);
            var c := (if brightness * 0.90 < 0.96 then brightness * 0.90 else 0.96) * Weight(d2);
            Tint(v, target, brightness, d2) == (c * target + (1.0 - c) * (a * 255.0 + (1.0 - a) * v as real)).Floor
  {
    hide Weight, PartWay, Mix;
    Product(brightness, 0.70);
    Product(brightness, 0.90);
    var a := Alpha(brightness, LIGHT_GAIN, LIGHT_LIMIT, d2);
    var c := Alpha(brightness, TINT_GAIN, TINT_LIMIT, d2);
    AlphaIsFraction(brightness, LIGHT_GAIN, LIGHT_LIMIT, d2);
    AlphaIsFraction(brightness, TINT_GAIN, TINT_LIMIT, d2);
    PartOfTheWay(v as real, 255.0, a);
    var lit := PartWay(v as real, 255.0, a);
    PartOfTheWay(lit, target, c);
    MixIsPartWay(lit, target, c);
    ShareForm(v as real, 255.0, a);
    ShareForm(lit, target, c);
  }

  lemma ShareForm(from: real, to: real, a: real)
    ensures PartWay(from, to, a) == a * to + (1.0 - a) * from
  {
    assert a * (to - from) == a * to - a * from && (1.0 - a) * from == from - a * from;
  }

  /** In the middle of a full flash a channel is within a tenth of its target. */
  lemma TintNears(v: byte, target: real, d2: real)
    requires 0.0 <= target <= 255.0 && d2 <= 0.3
    ensures target - 26.5 <= Tint(v, target, 1.0, d2) as real <= target + 25.5
  {
    var a := Alpha(1.0, LIGHT_GAIN, LIGHT_LIMIT, d2);
    assert a == 0.7 && Alpha(1.0, TINT_GAIN, TINT_LIMIT, d2) == 0.9;
    PartOfTheWay(v as real, 255.0, a);
    var x := target * 0.9 + 0.1 * PartWay(v as real, 255.0, a);
    assert target - 25.5 <= x <= target + 25.5;
  }

  /** The colour of a hue: targets within a byte. */
  lemma TargetsAreBytes(l: Layout, hue: real)
    requires hue >= 0.0
    requires l == Yuv422(TargetCb(hue), TargetCr(hue)) || (l.Rgb32? && l.colour == Softened(HueToRGB(hue)))
    ensures match l
            case Yuv422(cb, cr) => 0.0 <= cb <= 255.0 && 0.0 <= cr <= 255.0
            case Rgb32(_, _, _, c) =>
              0.0 <= c.r * 255.0 <= 255.0 && 0.0 <= c.g * 255.0 <= 255.0 && 0.0 <= c.b * 255.0 <= 255.0
  {
    HueIsSaturated(hue);
  }

  /** What byte column `x` is drawn to; luma to full. */
  function Target(l: Layout, x: nat): real {
    match l
    case Yuv422(cb, cr) => if x % 2 == 0 then 255.0 else if x % 4 == 1 then cb else cr
    case Rgb32(r, g, b, c) =>
      (if x % 4 == r then c.r else if x % 4 == g then c.g else c.b) * 255.0
  }

  /**
   YUV bytes move towards their target and not past it, colour channels never end below both it and where they were;
   nothing changes beyond the rim, in the padding or in an alpha byte.
   */
  lemma PackedEffect(l: Layout, s: seq<byte>, stride: nat, width: nat, height: nat, e: Ellipse, brightness: real,
                     hue: real, y: nat, x: nat)
    requires Plane(s, stride, height) && width > 0 && Fits(l, width, stride) && x < stride && y < height
    requires e.rx > 0.0 && e.ry > 0.0 && hue >= 0.0
    requires l == Yuv422(TargetCb(hue), TargetCr(hue)) || (l.Rgb32? && l.colour == Softened(HueToRGB(hue)))
    ensures var v, w := s[Index(stride, y, x)], NewPacked(l, s, stride, width, height, e, brightness, y, x);
            var px, target := Writer(l, x), Target(l, x);
            && (v as int <= target.Floor ==> v <= w) && (v as int >= target.Floor ==> target.Floor <= w)
            && (l.Yuv422? ==> w as int <= target.Floor || w <= v)
            && (Distance(e, px, y) > RIM || px >= width ==> w == v)
            && (l.Rgb32? && x % 4 != l.rOff && x % 4 != l.gOff && x % 4 != l.bOff ==> w == v)
            && (Distance(e, px, y) <= 1.0 && px < width ==> w == NewByte(l, x, v, brightness, Distance(e, px, y)))
  {
    hide D2, Weight, TargetCb, TargetCr, HueToRGB, Tint, Luma, Chroma, Softened;
    var px := Writer(l, x);
    var v, d2 := s[Index(stride, y, x)], Distance(e, px, y);
    TargetsAreBytes(l, hue);
    if d2 <= 1.0 && px < width {
      LumaCovers(e, width, height, px, y);
    }
    BeyondTheRim(v, Target(l, x), brightness, d2);
    if l.Rgb32? {
      TintMoves(v, l.colour.r * 255.0, brightness, d2);
      TintMoves(v, l.colour.g * 255.0, brightness, d2);
      TintMoves(v, l.colour.b * 255.0, brightness, d2);
    } else {
      PixelMoves(v, if x % 4 == 1 then l.cb else l.cr, brightness, d2);
    }
  }

  lemma BeyondTheRim(v: byte, target: real, brightness: real, d2: real)
    ensures d2 > RIM ==> Luma(v, brightness, d2) == v && Chroma(v, target, brightness, d2) == v
                         && Tint(v, target, brightness, d2) == v
  {
  }

  // ---------------------------------------------------------------- the loops

  /** What one pixel writes: the columns it is the writer of. */
  method WritePixel(l: Layout, plane: array<byte>, stride: nat, width: nat, rows: nat, py: nat, px: nat,
                    brightness: real, d2: real)
    requires Plane(plane[..], stride, rows) && Fits(l, width, stride) && py < rows && px < width
    modifies plane
    ensures Plane(plane[..], stride, rows)
    ensures forall y: nat, x: nat :: y < rows && x < stride ==>
              var v := old(plane[..])[Index(stride, y, x)];
              plane[..][Index(stride, y, x)] ==
              if y == py && Writer(l, x) == px then NewByte(l, x, v, brightness, d2) else v
  {
    if l.Yuv422? {
      WriteYuv(l, plane, stride, width, rows, py, px, brightness, d2);
    } else {
      WriteRgb(l, plane, stride, width, rows, py, px, brightness, d2);
    }
  }

  method WriteYuv(l: Layout, plane: array<byte>, stride: nat, width: nat, rows: nat, py: nat, px: nat,
                  brightness: real, d2: real)
    requires l.Yuv422? && Plane(plane[..], stride, rows) && Fits(l, width, stride) && py < rows && px < width
    modifies plane
    ensures Plane(plane[..], stride, rows)
    ensures forall y: nat, x: nat :: y < rows && x < stride ==>
              var v := old(plane[..])[Index(stride, y, x)];
              plane[..][Index(stride, y, x)] ==
              if y == py && Writer(l, x) == px then NewByte(l, x, v, brightness, d2) else v
  {
    hide Index, Luma, Chroma;
    var x := 2 * px;
    UpdateCell(l, plane, stride, rows, py, x, brightness, d2);
    if px % 2 == 0 {
      UpdateCell(l, plane, stride, rows, py, x + 1, brightness, d2);
      UpdateCell(l, plane, stride, rows, py, x + 3, brightness, d2);
    }
    Columns422(l, px);
  }

  lemma Columns422(l: Layout, px: nat)
    requires l.Yuv422?
    ensures forall x: nat ::
              Writer(l, x) == px <==> x == 2 * px || (px % 2 == 0 && (x == 2 * px + 1 || x == 2 * px + 3))
  {
    forall x: nat
      ensures Writer(l, x) == px <==> x == 2 * px || (px % 2 == 0 && (x == 2 * px + 1 || x == 2 * px + 3))
    {
      Column422(l, px, x);
    }
  }

  lemma Column422(l: Layout, px: nat, x: nat)
    requires l.Yuv422?
    ensures Writer(l, x) == px <==> x == 2 * px || (px % 2 == 0 && (x == 2 * px + 1 || x == 2 * px + 3))
  {
    var group, place := x / 4, x % 4;
    assert x == 4 * group + place && x % 2 == place % 2 && x / 2 == 2 * group + place / 2;
  }

  method WriteRgb(l: Layout, plane: array<byte>, stride: nat, width: nat, rows: nat, py: nat, px: nat,
                  brightness: real, d2: real)
    requires l.Rgb32? && Plane(plane[..], stride, rows) && Fits(l, width, stride) && py < rows && px < width
    modifies plane
    ensures Plane(plane[..], stride, rows)
    ensures forall y: nat, x: nat :: y < rows && x < stride ==>
              var v := old(plane[..])[Index(stride, y, x)];
              plane[..][Index(stride, y, x)] ==
              if y == py && Writer(l, x) == px then NewByte(l, x, v, brightness, d2) else v
  {
    hide Index, Tint;
    UpdateCell(l, plane, stride, rows, py, px * 4 + l.rOff, brightness, d2);
    UpdateCell(l, plane, stride, rows, py, px * 4 + l.gOff, brightness, d2);
    UpdateCell(l, plane, stride, rows, py, px * 4 + l.bOff, brightness, d2);
    Columns32(l, px);
  }

  lemma Columns32(l: Layout, px: nat)
    requires l.Rgb32?
    ensures forall x: nat :: Writer(l, x) == px <==> 4 * px <= x < 4 * px + 4
    ensures forall x: nat :: 4 * px <= x < 4 * px + 4 ==> x % 4 == x - 4 * px
  {
  }

  /** Gives one byte its new value. */
  method UpdateCell(l: Layout, plane: array<byte>, stride: nat, rows: nat, y: nat, x: nat, brightness: real, d2: real)
    requires Plane(plane[..], stride, rows) && y < rows && x < stride
    modifies plane
    ensures Plane(plane[..], stride, rows)
    ensures forall y': nat, x': nat :: y' < rows && x' < stride ==>
              var v := old(plane[..])[Index(stride, y', x')];
              plane[..][Index(stride, y', x')] == if y' == y && x' == x then NewByte(l, x, v, brightness, d2) else v
  {
    hide Index, NewByte;
    assert Index(stride, y, x) < |plane[..]|;
    SetCell(plane, stride, rows, y, x, NewByte(l, x, plane[Index(stride, y, x)], brightness, d2));
  }

  /** One row of the loop. */
  method PackedRow(l: Layout, plane: array<byte>, stride: nat, width: nat, height: nat, e: Ellipse, brightness: real,
                   py: nat)
    requires width > 0 && height > 0 && Fits(l, width, stride) && Plane(plane[..], stride, height)
    requires e.rx > 0.0 && e.ry > 0.0 && BoxMin(e.cy, e.ry) <= py <= BoxMax(e.cy, e.ry, height)
    modifies plane
    ensures Plane(plane[..], stride, height)
    ensures forall y: nat, x: nat :: y < height && x < stride ==>
              plane[..][Index(stride, y, x)] ==
              if y == py then NewPacked(l, old(plane[..]), stride, width, height, e, brightness, y, x)
              else old(plane[..])[Index(stride, y, x)]
  {
    hide NewByte, Writer, D2;
    ghost var s := plane[..];
    var minX, maxX := BoxMin(e.cx, e.rx), BoxMax(e.cx, e.rx, width);
    var px := minX;
    while px <= maxX
      invariant minX <= px
      invariant Plane(plane[..], stride, height)
      invariant forall y: nat, x: nat :: y < height && x < stride ==>
                  plane[..][Index(stride, y, x)] ==
                  if y == py && Writer(l, x) < px then NewPacked(l, s, stride, width, height, e, brightness, y, x)
                  else s[Index(stride, y, x)]
      decreases maxX - px
    {
      hide Index, Plane, Fits;
      WritePixel(l, plane, stride, width, height, py, px, brightness, Distance(e, px, py));
      px := px + 1;
    }
  }

  /** Every access is in bounds, and exactly the bytes written by the pixels of the box get their new value. */
  method ApplyPacked(l: Layout, plane: array<byte>, stride: nat, width: nat, height: nat, e: Ellipse, brightness: real)
    requires width > 0 && height > 0 && Fits(l, width, stride) && plane.Length == height * stride
    requires e.rx > 0.0 && e.ry > 0.0
    modifies plane
    ensures Plane(plane[..], stride, height) && Plane(old(plane[..]), stride, height)
    ensures forall y: nat, x: nat :: y < height && x < stride ==>
              plane[..][Index(stride, y, x)]
              == NewPacked(l, old(plane[..]), stride, width, height, e, brightness, y, x)
  {
    hide NewByte, Writer, D2;
    ghost var s := plane[..];
    PlaneIndices(s, stride, height);
    var py := BoxMin(e.cy, e.ry);
    var maxY := BoxMax(e.cy, e.ry, height);
    while py <= maxY
      invariant BoxMin(e.cy, e.ry) <= py
      invariant Plane(plane[..], stride, height)
      invariant forall y: nat, x: nat :: y < height && x < stride ==>
                  plane[..][Index(stride, y, x)] ==
                  if y < py then NewPacked(l, s, stride, width, height, e, brightness, y, x)
                  else s[Index(stride, y, x)]
      decreases maxY - py
    {
      PackedRow(l, plane, stride, width, height, e, brightness, py);
      py := py + 1;
    }
  }
}
