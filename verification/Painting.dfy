/** Rectangles, colours and drawing lists, pixel by pixel. */
module Painting {
  import opened Common
  import Bits

  const I32_MAX: int := 0x7fff_ffff

  type I32 = v: int | -0x8000_0000 <= v <= 0x7fff_ffff
  type U32 = v: int | 0 <= v < 0x1_0000_0000

  /** The cast of an unsigned width to a signed number, which makes large ones negative. */
  function AsI32(v: U32): I32
  {
    if v <= I32_MAX then v else v - 0x1_0000_0000
  }

  function SaturatingAdd(a: I32, b: I32): I32
  {
    if a + b > I32_MAX then I32_MAX else if a + b < -0x8000_0000 then -0x8000_0000 else a + b
  }

  datatype Rect = Rect(x: I32, y: I32, width: U32, height: U32)
  {
    function Right(): I32 { SaturatingAdd(x, AsI32(width)) }
    function Bottom(): I32 { SaturatingAdd(y, AsI32(height)) }
    predicate Contains(px: int, py: int) { x <= px < Right() && y <= py < Bottom() }
  }

  const ZERO: Rect := Rect(0, 0, 0, 0)

  /** The points of a rectangle: none if a side is too long for a signed number, else those of
      the plain rectangle, without the last column or row a coordinate can name. */
  lemma ContainsExactly(r: Rect, px: int, py: int)
    ensures r.Contains(px, py) <==>
              && r.width <= I32_MAX && r.height <= I32_MAX
              && r.x <= px < r.x + r.width && px < I32_MAX
              && r.y <= py < r.y + r.height && py < I32_MAX
  {
  }

  function Max(a: int, b: int): int { if a > b then a else b }
  function Min(a: int, b: int): int { if a < b then a else b }

  function Intersection(a: Rect, b: Rect): Option<Rect>
  {
    var x1, y1 := Max(a.x, b.x), Max(a.y, b.y);
    var x2, y2 := Min(a.Right(), b.Right()), Min(a.Bottom(), b.Bottom());
    if x2 > x1 && y2 > y1 then Some(Rect(x1, y1, x2 - x1, y2 - y1)) else None
  }

  /** `c` contains exactly the points both rectangles contain. */
  ghost predicate IsIntersection(c: Rect, a: Rect, b: Rect)
  {
    forall x, y :: c.Contains(x, y) <==> a.Contains(x, y) && b.Contains(x, y)
  }

  /** The intersection is the common points, and none where there are none. A rectangle never
      spans more than a signed number holds, so its size survives the cast. */
  lemma IntersectionIs(a: Rect, b: Rect)
    ensures var c := Intersection(a, b);
            && IsIntersection(if c.Some? then c.value else ZERO, a, b)
            && (c.Some? ==> c.value.width <= I32_MAX && c.value.height <= I32_MAX)
  {
    var c := Intersection(a, b);
    forall x, y
      ensures (c.Some? && c.value.Contains(x, y)) <==> a.Contains(x, y) && b.Contains(x, y)
    {
      IntersectionContains(a, b, x, y);
    }
  }

  lemma IntersectionContains(a: Rect, b: Rect, x: int, y: int)
    ensures var c := Intersection(a, b); (c.Some? && c.value.Contains(x, y)) <==> a.Contains(x, y) && b.Contains(x, y)
  {
  }

  // ------------------------------------------------------------ colours

  type Channel = c: int | 0 <= c < 256

  datatype Color = Color(r: Channel, g: Channel, b: Channel, a: Channel)

  function Argb(c: Color): nat
  {
    c.a * 0x100_0000 + c.r * 0x1_0000 + c.g * 0x100 + c.b
  }

  function Weighted(v: nat, weight: nat): nat
  {
    v * weight
  }

  function Mix(fore: Channel, back: nat, alpha: Channel): nat
  {
    (Weighted(fore, alpha) + Weighted(back % 256, 255 - alpha)) / 255
  }

  /** The pixel after drawing `c` over `pixel`, which counts as opaque. */
  function Over(c: Color, pixel: nat): nat
  {
    if c.a == 255 then Argb(c)
    else if c.a == 0 then 0xff00_0000 + pixel % 0x100_0000
    else 0xff00_0000 + Mix(c.r, pixel / 0x1_0000, c.a) * 0x1_0000 + Mix(c.g, pixel / 0x100, c.a) * 0x100 + Mix(c.b, pixel, c.a)
  }

  /** The channels of a pixel. */
  function Blue(pixel: nat): Channel { pixel % 256 }
  function Green(pixel: nat): Channel { pixel / 0x100 % 256 }
  function Red(pixel: nat): Channel { pixel / 0x1_0000 % 256 }
  function Alpha(pixel: nat): nat { pixel / 0x100_0000 }

  lemma Channels(a: Channel, r: Channel, g: Channel, b: Channel)
    ensures var pixel := a * 0x100_0000 + r * 0x1_0000 + g * 0x100 + b;
            Alpha(pixel) == a && Red(pixel) == r && Green(pixel) == g && Blue(pixel) == b
  {
    var pixel := a * 0x100_0000 + r * 0x1_0000 + g * 0x100 + b;
    Bits.DivUnique(pixel, 0x100_0000, a, r * 0x1_0000 + g * 0x100 + b);
    Bits.DivUnique(pixel, 0x1_0000, a * 256 + r, g * 0x100 + b);
    Bits.DivUnique(a * 256 + r, 256, a, r);
    Bits.DivUnique(pixel, 0x100, a * 0x1_0000 + r * 256 + g, b);
    Bits.DivUnique(a * 0x1_0000 + r * 256 + g, 256, a * 256 + r, g);
  }

  /** `v` is the mean of the two channels, weighted by the opacity of the upper one and
      rounded down. */
  predicate IsMean(v: Channel, fore: Channel, back: Channel, alpha: Channel)
  {
    255 * v <= Weighted(fore, alpha) + Weighted(back, 255 - alpha) < 255 * (v + 1)
  }

  lemma MixIsMean(fore: Channel, back: nat, alpha: Channel)
    ensures 0 <= Mix(fore, back, alpha) < 256 && IsMean(Mix(fore, back, alpha), fore, back % 256, alpha)
  {
    var sum := Weighted(fore, alpha) + Weighted(back % 256, 255 - alpha);
    WeightBound(fore, alpha);
    WeightBound(back % 256, 255 - alpha);
    assert 0 <= sum <= 255 * 255;
  }

  lemma WeightBound(v: Channel, weight: nat)
    ensures 0 <= Weighted(v, weight) <= 255 * weight
  {
    Bits.MulLe(weight, v, 255);
  }

  /** Drawing makes the pixel opaque and mixes each channel by the colour's opacity: an opaque
      colour replaces it, a transparent one leaves it. */
  lemma OverMixes(c: Color, pixel: nat)
    ensures var p := Over(c, pixel);
            && Alpha(p) == 255
            && IsMean(Red(p), c.r, Red(pixel), c.a) && IsMean(Green(p), c.g, Green(pixel), c.a) && IsMean(Blue(p), c.b, Blue(pixel), c.a)
    ensures c.a == 255 ==> Red(Over(c, pixel)) == c.r && Green(Over(c, pixel)) == c.g && Blue(Over(c, pixel)) == c.b
    ensures c.a == 0 ==> Red(Over(c, pixel)) == Red(pixel) && Green(Over(c, pixel)) == Green(pixel) && Blue(Over(c, pixel)) == Blue(pixel)
  {
    if c.a == 255 {
      Channels(255, c.r, c.g, c.b);
    } else if c.a == 0 {
      Opaque(pixel);
    } else {
      var r, g, b := Mix(c.r, pixel / 0x1_0000, c.a), Mix(c.g, pixel / 0x100, c.a), Mix(c.b, pixel, c.a);
      MixIsMean(c.r, pixel / 0x1_0000, c.a);
      MixIsMean(c.g, pixel / 0x100, c.a);
      MixIsMean(c.b, pixel, c.a);
      Channels(255, r, g, b);
    }
  }

  lemma Opaque(pixel: nat)
    ensures var p := 0xff00_0000 + pixel % 0x100_0000;
            Alpha(p) == 255 && Red(p) == Red(pixel) && Green(p) == Green(pixel) && Blue(p) == Blue(pixel)
  {
    var low, high := pixel % 0x100_0000, pixel / 0x100_0000;
    var r: int, g: int, b: int := Red(low), Green(low), Blue(low);
    assert low == r * 0x1_0000 + g * 0x100 + b;
    Channels(255, r, g, b);
    LowChannels(pixel, high, r, g, b);
  }

  lemma LowChannels(pixel: nat, high: nat, r: Channel, g: Channel, b: Channel)
    requires pixel == high * 0x100_0000 + r * 0x1_0000 + g * 0x100 + b
    ensures Red(pixel) == r && Green(pixel) == g && Blue(pixel) == b
  {
    Bits.DivUnique(pixel, 0x1_0000, high * 256 + r, g * 0x100 + b);
    Bits.DivUnique(high * 256 + r, 256, high, r);
    Bits.DivUnique(pixel, 0x100, high * 0x1_0000 + r * 256 + g, b);
    Bits.DivUnique(high * 0x1_0000 + r * 256 + g, 256, high * 256 + r, g);
    Bits.DivUnique(pixel, 256, high * 0x1_0000 + r * 256 + g, b);
  }

  // ------------------------------------------------------------ drawing lists

  /** The two primitives every drawing operation comes down to. */
  datatype Draw = Fill(rect: Rect, color: Color) | Dot(x: int, y: int, color: Color)

  predicate Covers(d: Draw, x: int, y: int)
  {
    match d
    case Fill(rect, _) => rect.Contains(x, y)
    case Dot(dx, dy, _) => x == dx && y == dy
  }

  function PaintOne(d: Draw, x: int, y: int, pixel: nat): nat
  {
    if Covers(d, x, y) then Over(d.color, pixel) else pixel
  }

  /** What a drawing list makes of one pixel. */
  function Paint(draws: seq<Draw>, x: int, y: int, pixel: nat): nat
    decreases draws
  {
    if draws == [] then pixel else Paint(draws[1..], x, y, PaintOne(draws[0], x, y, pixel))
  }

  lemma {:induction false} PaintConcat(a: seq<Draw>, b: seq<Draw>, x: int, y: int, pixel: nat)
    ensures Paint(a + b, x, y, pixel) == Paint(b, x, y, Paint(a, x, y, pixel))
    decreases a
  {
    if a == [] {
      assert a + b == b;
    } else {
      assert (a + b)[0] == a[0] && (a + b)[1..] == a[1..] + b;
      PaintConcat(a[1..], b, x, y, PaintOne(a[0], x, y, pixel));
    }
  }

  ghost predicate Avoids(draws: seq<Draw>, x: int, y: int)
  {
    forall i | 0 <= i < |draws| :: !Covers(draws[i], x, y)
  }

  lemma {:induction false} PaintAvoided(draws: seq<Draw>, x: int, y: int, pixel: nat)
    requires Avoids(draws, x, y)
    ensures Paint(draws, x, y, pixel) == pixel
    decreases draws
  {
    if draws != [] {
      assert !Covers(draws[0], x, y);
      assert forall i | 0 <= i < |draws[1..]| :: draws[1..][i] == draws[i + 1];
      PaintAvoided(draws[1..], x, y, pixel);
    }
  }

  /** A list that starts with an opaque fill does not depend on what was there before. */
  lemma PaintFresh(draws: seq<Draw>, x: int, y: int, p: nat, q: nat)
    requires draws != [] && draws[0].Fill? && draws[0].color.a == 255 && Covers(draws[0], x, y)
    ensures Paint(draws, x, y, p) == Paint(draws, x, y, q)
  {
  }

  /** The last opaque drawing that covers a pixel decides it, whatever lies below. */
  lemma {:induction false} LastWins(draws: seq<Draw>, k: nat, x: int, y: int, pixel: nat)
    requires k < |draws| && Covers(draws[k], x, y) && draws[k].color.a == 255
    requires forall i | k < i < |draws| :: !Covers(draws[i], x, y)
    ensures Paint(draws, x, y, pixel) == Argb(draws[k].color)
    decreases draws
  {
    if k > 0 {
      LastWins(draws[1..], k - 1, x, y, PaintOne(draws[0], x, y, pixel));
    } else {
      PaintAvoided(draws[1..], x, y, Argb(draws[0].color));
    }
  }
}
