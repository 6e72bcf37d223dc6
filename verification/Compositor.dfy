/** The desktop compositor: full repaints, and the repaint of changed row bands only. */
module Compositors {
  import opened Painting
  import opened Surfaces

  const STATUS_HEIGHT: nat := 28
  const CURSOR_WIDTH: nat := 12
  const CURSOR_HEIGHT: nat := 18
  const STATUS_TICKS: nat := 25
  const U64: nat := 0x1_0000_0000_0000_0000

  // ------------------------------------------------------------ the picture

  /** One coloured pixel of the cursor sprite, relative to its hot spot. */
  datatype SpritePixel = SpritePixel(dx: nat, dy: nat, color: Color)

  /** What is on the desktop: everything below the status bar layer, and the cursor. */
  datatype Scene = Scene(base: seq<Draw>, sprite: seq<SpritePixel>, x: I32, y: I32)
  {
    function Bounds(): Rect { Rect(x, y, CURSOR_WIDTH, CURSOR_HEIGHT) }
  }

  function SpriteAt(sprite: seq<SpritePixel>, x: int, y: int): seq<Draw>
  {
    seq(|sprite|, i requires 0 <= i < |sprite| => Dot(x + sprite[i].dx, y + sprite[i].dy, sprite[i].color))
  }

  /** Background, windows, status bar and cursor, in drawing order. */
  function Layers(scene: Scene, status: seq<Draw>): seq<Draw>
  {
    scene.base + (status + SpriteAt(scene.sprite, scene.x, scene.y))
  }

  /** The pixel of a full render. */
  function Full(scene: Scene, status: seq<Draw>, x: int, y: int): nat
  {
    Paint(Layers(scene, status), x, y, 0)
  }

  ghost predicate WellFormed(scene: Scene, width: U32, height: U32)
  {
    && scene.base != [] && scene.base[0].Fill?
    && scene.base[0].rect == Rect(0, 0, width, height) && scene.base[0].color.a == 255
    && scene.x >= 0 && scene.y >= 0
    && (forall i | 0 <= i < |scene.sprite| :: scene.sprite[i].dx < CURSOR_WIDTH && scene.sprite[i].dy < CURSOR_HEIGHT)
  }

  /** The status bar stays inside its band. */
  ghost predicate InStatusBand(status: seq<Draw>)
  {
    forall x, y | y >= STATUS_HEIGHT :: Avoids(status, x, y)
  }

  predicate BoundsRow(scene: Scene, row: int)
  {
    scene.y <= row < scene.y + CURSOR_HEIGHT
  }

  lemma SpriteAvoids(scene: Scene, width: U32, height: U32, x: int, y: int)
    requires WellFormed(scene, width, height) && !BoundsRow(scene, y)
    ensures Avoids(SpriteAt(scene.sprite, scene.x, scene.y), x, y)
  {
  }

  /** Below the status bar and outside the cursor's rows only the base layers show. */
  lemma BaseShows(scene: Scene, status: seq<Draw>, width: U32, height: U32, x: int, y: int)
    requires WellFormed(scene, width, height) && InStatusBand(status)
    requires y >= STATUS_HEIGHT && !BoundsRow(scene, y)
    ensures Full(scene, status, x, y) == Paint(scene.base, x, y, 0)
  {
    var sprite := SpriteAt(scene.sprite, scene.x, scene.y);
    var below := Paint(scene.base, x, y, 0);
    PaintConcat(scene.base, status + sprite, x, y, 0);
    PaintConcat(status, sprite, x, y, below);
    assert Avoids(status, x, y);
    PaintAvoided(status, x, y, below);
    SpriteAvoids(scene, width, height, x, y);
    PaintAvoided(sprite, x, y, below);
  }

  /** The cursor is on top: an opaque pixel of the sprite shows its colour, whatever lies
      below, unless a later one lies on the same spot. */
  lemma {:induction false} CursorOnTop(scene: Scene, status: seq<Draw>, i: nat, x: int, y: int)
    requires i < |scene.sprite| && scene.sprite[i].color.a == 255
    requires x == scene.x + scene.sprite[i].dx && y == scene.y + scene.sprite[i].dy
    requires forall j | i < j < |scene.sprite| :: !(scene.sprite[j].dx == scene.sprite[i].dx && scene.sprite[j].dy == scene.sprite[i].dy)
    ensures Full(scene, status, x, y) == Argb(scene.sprite[i].color)
  {
    var below, sprite := scene.base + status, SpriteAt(scene.sprite, scene.x, scene.y);
    assert Layers(scene, status) == below + sprite;
    PaintConcat(below, sprite, x, y, 0);
    LastWins(sprite, i, x, y, Paint(below, x, y, 0));
  }

  /** The status bar lies above the windows: where the cursor is not, its last opaque drawing
      shows. */
  lemma {:induction false} StatusAboveWindows(scene: Scene, status: seq<Draw>, k: nat, x: int, y: int)
    requires k < |status| && Covers(status[k], x, y) && status[k].color.a == 255
    requires forall i | k < i < |status| :: !Covers(status[i], x, y)
    requires Avoids(SpriteAt(scene.sprite, scene.x, scene.y), x, y)
    ensures Full(scene, status, x, y) == Argb(status[k].color)
  {
    var sprite := SpriteAt(scene.sprite, scene.x, scene.y);
    PaintConcat(scene.base, status + sprite, x, y, 0);
    PaintConcat(status, sprite, x, y, Paint(scene.base, x, y, 0));
    LastWins(status, k, x, y, Paint(scene.base, x, y, 0));
    PaintAvoided(sprite, x, y, Argb(status[k].color));
  }

  /** A scene that differs in its cursor position only differs in the cursor's rows only. */
  lemma MotionDamage(before: Scene, after: Scene, s: seq<Draw>, t: seq<Draw>, width: U32, height: U32, x: int, y: int)
    requires WellFormed(before, width, height) && WellFormed(after, width, height)
    requires InStatusBand(s) && InStatusBand(t) && before.base == after.base
    requires y >= STATUS_HEIGHT && !BoundsRow(before, y) && !BoundsRow(after, y)
    ensures Full(before, s, x, y) == Full(after, t, x, y)
  {
    BaseShows(before, s, width, height, x, y);
    BaseShows(after, t, width, height, x, y);
  }

  /** A repaint does not depend on what the back buffer held. */
  lemma RepaintIsFull(scene: Scene, status: seq<Draw>, width: U32, height: U32, x: int, y: int, pixel: nat)
    requires WellFormed(scene, width, height) && width < I32_MAX && height < I32_MAX
    requires 0 <= x < width && 0 <= y < height
    ensures Paint(Layers(scene, status), x, y, pixel) == Full(scene, status, x, y)
  {
    assert Layers(scene, status)[0] == scene.base[0];
    PaintFresh(Layers(scene, status), x, y, pixel, 0);
  }

  // ------------------------------------------------------------ row bands

  /** The rows `from` (included) to `to` (excluded). */
  datatype Band = Band(from: nat, to: nat)

  predicate In(b: Band, row: nat)
  {
    b.from <= row < b.to
  }

  ghost predicate Covered(bands: seq<Band>, row: nat)
  {
    exists k | 0 <= k < |bands| :: In(bands[k], row)
  }

  function RowBand(r: Rect, height: nat): Band
    requires r.Bottom() >= -3
  {
    Band(Max(r.y - 3, 0), Min(r.Bottom() + 3, height))
  }

  predicate Ordered(bands: seq<Band>)
  {
    forall i, j | 0 <= i < j < |bands| :: bands[i].from <= bands[j].from
  }

  /** `s` lists the three bands in some order. */
  predicate Reorders(s: seq<Band>, a: Band, b: Band, c: Band)
  {
    || s == [a, b, c] || s == [a, c, b] || s == [b, a, c]
    || s == [b, c, a] || s == [c, a, b] || s == [c, b, a]
  }

  method SortBands(a: Band, b: Band, c: Band) returns (s: seq<Band>)
    ensures Reorders(s, a, b, c) && Ordered(s)
  {
    var x, y, z := a, b, c;
    if y.from < x.from { x, y := y, x; }
    if z.from < y.from { y, z := z, y; }
    if y.from < x.from { x, y := y, x; }
    s := [x, y, z];
  }

  lemma ReordersCovers(s: seq<Band>, a: Band, b: Band, c: Band, row: nat)
    requires Reorders(s, a, b, c)
    ensures Covered(s, row) <==> In(a, row) || In(b, row) || In(c, row)
  {
    assert Covered(s, row) <==> In(s[0], row) || In(s[1], row) || In(s[2], row);
  }

  /** Merges overlapping or nearly adjacent bands; no row of any band is lost. */
  method MergeBands(bands: seq<Band>, ghost limit: nat) returns (merged: seq<Band>)
    requires Ordered(bands) && forall k | 0 <= k < |bands| :: bands[k].to <= limit
    ensures forall row: nat | Covered(bands, row) :: Covered(merged, row)
    ensures forall k | 0 <= k < |merged| :: merged[k].from < merged[k].to <= limit
    ensures forall i, j | 0 <= i < j < |merged| :: merged[i].to + 2 < merged[j].from
    ensures |merged| <= |bands|
  {
    merged := [];
    for i := 0 to |bands|
      invariant |merged| <= i
      invariant forall row: nat | Covered(bands[..i], row) :: Covered(merged, row)
      invariant forall k | 0 <= k < |merged| :: merged[k].from < merged[k].to <= limit
      invariant forall k, l | 0 <= k < l < |merged| :: merged[k].to + 2 < merged[l].from
      invariant merged != [] ==> forall k | i <= k < |bands| :: merged[|merged| - 1].from <= bands[k].from
    {
      merged := AddBand(merged, bands[i], limit);
      forall row: nat | Covered(bands[..i + 1], row)
        ensures Covered(merged, row)
      {
        TakeCovered(bands, i, row);
      }
    }
    assert bands[..|bands|] == bands;
  }

  lemma TakeCovered(bands: seq<Band>, i: nat, row: nat)
    requires i < |bands|
    ensures Covered(bands[..i + 1], row) <==> Covered(bands[..i], row) || In(bands[i], row)
  {
    var init, next := bands[..i], bands[..i + 1];
    assert forall k | 0 <= k < i :: init[k] == next[k];
    assert next[i] == bands[i];
  }

  method AddBand(merged: seq<Band>, b: Band, ghost limit: nat) returns (r: seq<Band>)
    requires b.to <= limit && forall k | 0 <= k < |merged| :: merged[k].from < merged[k].to <= limit
    requires forall k, l | 0 <= k < l < |merged| :: merged[k].to + 2 < merged[l].from
    requires merged != [] ==> merged[|merged| - 1].from <= b.from
    ensures forall row: nat | Covered(merged, row) || In(b, row) :: Covered(r, row)
    ensures forall k | 0 <= k < |r| :: r[k].from < r[k].to <= limit
    ensures forall k, l | 0 <= k < l < |r| :: r[k].to + 2 < r[l].from
    ensures |r| <= |merged| + 1
    ensures r != [] ==> r[|r| - 1].from <= b.from
  {
    if b.to <= b.from {
      return merged;
    }
    var n := |merged|;
    if n > 0 && b.from <= merged[n - 1].to + 2 {
      r := merged[n - 1 := merged[n - 1].(to := Max(merged[n - 1].to, b.to))];
      forall row: nat | Covered(merged, row) || In(b, row)
        ensures Covered(r, row)
      {
        if Covered(merged, row) {
          var k :| 0 <= k < n && In(merged[k], row);
          assert In(r[k], row);
        } else {
          assert In(merged[n - 1], row) || In(r[n - 1], row);
        }
      }
    } else {
      r := merged + [b];
      forall row: nat | Covered(merged, row) || In(b, row)
        ensures Covered(r, row)
      {
        if Covered(merged, row) {
          var k :| 0 <= k < n && In(merged[k], row);
          assert In(r[k], row);
        } else {
          assert In(r[n], row);
        }
      }
    }
  }

  /** Sorts and merges three bands. */
  method CollectBands(a: Band, b: Band, c: Band, ghost limit: nat) returns (merged: seq<Band>)
    requires a.to <= limit && b.to <= limit && c.to <= limit
    ensures forall k | 0 <= k < |merged| :: merged[k].from < merged[k].to <= limit
    ensures forall row: nat | In(a, row) || In(b, row) || In(c, row) :: Covered(merged, row)
  {
    var bands := SortBands(a, b, c);
    merged := MergeBands(bands, limit);
    forall row: nat | In(a, row) || In(b, row) || In(c, row)
      ensures Covered(merged, row)
    {
      ReordersCovers(bands, a, b, c, row);
    }
  }

  function Touched(bands: seq<Band>): int
  {
    if bands == [] then 0 else bands[0].to - bands[0].from + Touched(bands[1..])
  }

  method SumTouched(bands: seq<Band>) returns (rows: int)
    ensures rows == Touched(bands)
  {
    rows := 0;
    for i := 0 to |bands|
      invariant rows + Touched(bands[i..]) == Touched(bands)
    {
      assert bands[i..][0] == bands[i] && bands[i..][1..] == bands[i + 1..];
      rows := rows + (bands[i].to - bands[i].from);
    }
  }

  // ------------------------------------------------------------ the compositor

  datatype Event =
    | MouseMove(dx: int, dy: int)           // after the acceleration curve
    | MouseAbsolute(x: nat, y: nat)
    | Other(base: seq<Draw>, sprite: seq<SpritePixel>) // keys, buttons, scroll: the new windows and cursor colour

  /** The nearest number between `low` and `high`. */
  function Clamp(v: int, low: int, high: int): (r: int)
    ensures low <= high ==> low <= r <= high
    ensures low <= v <= high ==> r == v
    ensures low <= high ==> (v <= low ==> r == low) && (v >= high ==> r == high)
  {
    if v < low then low else if v > high then high else v
  }

  class Compositor {
    var scene: Scene
    var fullRedrawPending: bool
    var lastCursorBounds: Rect
    var lastStatusTicks: nat
    const fb: array2<nat> // the framebuffer, rows by columns
    const width: U32      // the part of it the surface covers
    const height: U32

    ghost var shown: Scene // the scene of the last present
    ghost var shownStatus: seq<Draw>

    ghost predicate Valid()
      reads this
    {
      && fb.Length0 < I32_MAX && fb.Length1 < I32_MAX
      && width == Min(fb.Length1, 1920) && height == Min(fb.Length0, 1080)
      && WellFormed(scene, width, height) && WellFormed(shown, width, height)
      && InStatusBand(shownStatus)
      && lastCursorBounds == shown.Bounds()
    }

    /** From row `top` down the screen is what a full render of `s` shows. */
    ghost predicate Shows(s: Scene, status: seq<Draw>, top: nat)
      reads this, fb
    {
      forall x, y | 0 <= x < width && top <= y < height && x < fb.Length1 && y < fb.Length0 ::
        fb[y, x] == Full(s, status, x, y)
    }

    /**
      * Unless a full repaint is due, the screen below the status bar is the last
      * presented scene, and at most the cursor has moved since.
      */
    ghost predicate InSync()
      reads this, fb
    {
      || fullRedrawPending
      || (shown.base == scene.base && shown.sprite == scene.sprite && Shows(shown, shownStatus, STATUS_HEIGHT))
    }

    /** Starts with a full repaint due, the cursor in the middle of the screen. */
    constructor (fb: array2<nat>, base: seq<Draw>, sprite: seq<SpritePixel>)
      requires fb.Length0 < I32_MAX && fb.Length1 < I32_MAX
      requires WellFormed(Scene(base, sprite, fb.Length1 / 2, fb.Length0 / 2), Min(fb.Length1, 1920), Min(fb.Length0, 1080))
      ensures Valid() && InSync() && fullRedrawPending && this.fb == fb
      ensures scene == Scene(base, sprite, fb.Length1 / 2, fb.Length0 / 2) && lastStatusTicks == 0
    {
      this.fb := fb;
      width, height := Min(fb.Length1, 1920), Min(fb.Length0, 1080);
      scene := Scene(base, sprite, fb.Length1 / 2, fb.Length0 / 2);
      fullRedrawPending := true;
      lastCursorBounds := Rect(fb.Length1 / 2, fb.Length0 / 2, CURSOR_WIDTH, CURSOR_HEIGHT);
      lastStatusTicks := 0;
      shown := Scene(base, sprite, fb.Length1 / 2, fb.Length0 / 2);
      shownStatus := [];
    }

    method HandleEvent(event: Event)
      requires Valid() && InSync()
      requires event.Other? ==> WellFormed(scene.(base := event.base, sprite := event.sprite), width, height)
      modifies this
      ensures Valid() && InSync()
      ensures event.Other? ==> fullRedrawPending && scene == old(scene).(base := event.base, sprite := event.sprite)
      ensures !event.Other? ==> scene.base == old(scene.base) && scene.sprite == old(scene.sprite)
      ensures !event.Other? ==> fullRedrawPending == old(fullRedrawPending)
      ensures event.MouseMove? ==>
                && scene.x == Clamp(old(scene.x) + event.dx, 0, Max(fb.Length1 - 1, 0))
                && scene.y == Clamp(old(scene.y) + event.dy, 0, Max(fb.Length0 - 1, 0))
      ensures event.MouseAbsolute? && fb.Length1 > 0 && fb.Length0 > 0 ==>
                && scene.x == Min(event.x * fb.Length1 / 32768, fb.Length1 - 1)
                && scene.y == Min(event.y * fb.Length0 / 32768, fb.Length0 - 1)
      ensures event.MouseAbsolute? && (fb.Length1 == 0 || fb.Length0 == 0) ==> scene == old(scene)
      ensures !event.Other? && fb.Length0 > 0 && fb.Length1 > 0 ==> scene.x < fb.Length1 && scene.y < fb.Length0
      ensures shown == old(shown) && shownStatus == old(shownStatus)
    {
      if event.Other? {
        fullRedrawPending := true;
      }
      match event
      case MouseMove(dx, dy) =>
        scene := scene.(x := Clamp(scene.x + dx, 0, Max(fb.Length1 - 1, 0)), y := Clamp(scene.y + dy, 0, Max(fb.Length0 - 1, 0)));
      case MouseAbsolute(x, y) =>
        if fb.Length1 > 0 && fb.Length0 > 0 {
          var sx, sy := x * fb.Length1 / 32768, y * fb.Length0 / 32768;
          scene := scene.(x := Clamp(sx, 0, fb.Length1 - 1), y := Clamp(sy, 0, fb.Length0 - 1));
        }
      case Other(base, sprite) =>
        scene := scene.(base := base, sprite := sprite);
    }

    /** Draws the scene into the surface: inside the clip it is the full render. */
    method Render(surface: Surface, status: seq<Draw>)
      requires Valid() && surface.Valid()
      requires surface.buffer.Length0 == height && surface.buffer.Length1 == width
      modifies surface.buffer
      ensures forall x, y | 0 <= x < width && 0 <= y < height && surface.clip.Contains(x, y) ::
                surface.buffer[y, x] == Full(scene, status, x, y)
    {
      surface.Render(Layers(scene, status));
      forall x, y | 0 <= x < width && 0 <= y < height && surface.clip.Contains(x, y)
        ensures surface.buffer[y, x] == Full(scene, status, x, y)
      {
        RepaintIsFull(scene, status, width, height, x, y, old(surface.buffer[y, x]));
      }
    }

    /** A full repaint shows the current scene everywhere. */
    method RenderToFramebuffer(status: seq<Draw>, ticks: nat)
      requires Valid() && InStatusBand(status)
      modifies this, fb
      ensures Valid() && InSync() && !fullRedrawPending
      ensures scene == old(scene) && shown == scene && shownStatus == status && lastStatusTicks == ticks
      ensures Shows(scene, status, 0)
    {
      var surface := new Surface(width, height);
      Render(surface, status);
      surface.Present(fb);
      fullRedrawPending := false;
      lastCursorBounds := scene.Bounds();
      lastStatusTicks := ticks;
      shown, shownStatus := scene, status;
    }

    /** Terminal output changes the windows and repaints at once, whatever is pending. */
    method WriteTerminal(base: seq<Draw>, status: seq<Draw>, ticks: nat)
      requires Valid() && InStatusBand(status) && WellFormed(scene.(base := base), width, height)
      modifies this, fb
      ensures Valid() && InSync() && !fullRedrawPending
      ensures scene == old(scene).(base := base) && Shows(scene, status, 0)
    {
      scene := scene.(base := base);
      RenderToFramebuffer(status, ticks);
    }

    /** Repaints and presents one band of rows and touches no other pixel. */
    method PresentBand(surface: Surface, band: Band, status: seq<Draw>, raw: bool)
      requires Valid() && surface.Valid() && surface.buffer != fb && band.from <= band.to <= I32_MAX
      requires surface.buffer.Length0 == height && surface.buffer.Length1 == width
      modifies surface, surface.buffer, fb
      ensures surface.Valid()
      ensures forall x, y | 0 <= x < width && 0 <= y < height ::
                fb[y, x] == if In(band, y) then Full(scene, status, x, y) else old(fb[y, x])
    {
      var area := Rect(0, band.from, fb.Length1, band.to - band.from);
      surface.SetClip(area);
      Render(surface, status);
      surface.ResetClip();
      if raw {
        surface.PresentRows(fb, band.from, band.to);
      } else {
        surface.PresentRect(fb, area);
      }
    }

    /** Every row in some band shows the scene, every other row is as it was. */
    method PresentBands(bands: seq<Band>, status: seq<Draw>, raw: bool)
      requires Valid()
      requires forall k | 0 <= k < |bands| :: bands[k].from <= bands[k].to <= I32_MAX
      modifies fb
      ensures forall x, y | 0 <= x < width && 0 <= y < height ::
                fb[y, x] == if Covered(bands, y) then Full(scene, status, x, y) else old(fb[y, x])
    {
      var surface := new Surface(width, height);
      for i := 0 to |bands|
        invariant surface.Valid() && fresh(surface) && fresh(surface.buffer)
        invariant surface.buffer.Length0 == height && surface.buffer.Length1 == width
        invariant forall x, y | 0 <= x < width && 0 <= y < height ::
                    fb[y, x] == if Covered(bands[..i], y) then Full(scene, status, x, y) else old(fb[y, x])
      {
        PresentBand(surface, bands[i], status, raw);
        forall y: nat
          ensures Covered(bands[..i + 1], y) <==> Covered(bands[..i], y) || In(bands[i], y)
        {
          TakeCovered(bands, i, y);
        }
      }
      assert bands[..|bands|] == bands;
    }

    /** The cursor's old and new rows, and every second or so the status bar. */
    method ChangedBands(refresh: bool) returns (merged: seq<Band>)
      requires Valid()
      ensures forall k | 0 <= k < |merged| :: merged[k].from < merged[k].to <= I32_MAX
      ensures forall row: nat | row < height && (BoundsRow(shown, row) || BoundsRow(scene, row)) :: Covered(merged, row)
      ensures refresh ==> forall row: nat | row < STATUS_HEIGHT :: Covered(merged, row)
    {
      var status := if refresh then Band(0, STATUS_HEIGHT) else Band(0, 0);
      var was, now := RowBand(lastCursorBounds, fb.Length0), RowBand(scene.Bounds(), fb.Length0);
      merged := CollectBands(status, was, now, I32_MAX);
      assert refresh ==> forall row: nat | row < STATUS_HEIGHT :: In(status, row);
    }

    /** However little is repainted, the screen ends up as a full repaint would leave it. */
    method PresentBest(status: seq<Draw>, ticks: nat, raw: bool)
      requires Valid() && InSync() && InStatusBand(status) && ticks < U64 && lastStatusTicks < U64
      modifies this, fb
      ensures Valid() && InSync() && !fullRedrawPending
      ensures scene == old(scene) && shown == scene && shownStatus == status
      ensures Shows(scene, status, STATUS_HEIGHT)
      ensures old(fullRedrawPending) || (ticks - old(lastStatusTicks)) % U64 >= STATUS_TICKS ==> Shows(scene, status, 0)
      ensures lastStatusTicks == ticks || (lastStatusTicks == old(lastStatusTicks) && (ticks - lastStatusTicks) % U64 < STATUS_TICKS)
    {
      if fullRedrawPending {
        RenderToFramebuffer(status, ticks);
        return;
      }
      var refresh := (ticks - lastStatusTicks) % U64 >= STATUS_TICKS;
      if refresh {
        lastStatusTicks := ticks;
      }
      var bands := ChangedBands(refresh);
      var touched := SumTouched(bands);
      if touched * 3 >= Max(fb.Length0, 1) * 2 {
        RenderToFramebuffer(status, ticks);
        return;
      }
      PresentBands(bands, status, raw);
      forall x, y | 0 <= x < width && STATUS_HEIGHT <= y < height && !Covered(bands, y)
        ensures fb[y, x] == Full(scene, status, x, y)
      {
        MotionDamage(shown, scene, shownStatus, status, width, height, x, y);
      }
      lastCursorBounds := scene.Bounds();
      shown, shownStatus := scene, status;
    }
  }
}
