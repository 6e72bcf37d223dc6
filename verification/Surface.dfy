/** The off-screen surface: clipping, the drawing primitives and presentation. */
module Surfaces {
  import opened Painting

  class Surface {
    const buffer: array2<nat> // rows by columns
    var clip: Rect

    ghost predicate Valid()
      reads this
    {
      && buffer.Length0 < I32_MAX && buffer.Length1 < I32_MAX
      && clip.x >= 0 && clip.y >= 0 && clip.Right() <= buffer.Length1 && clip.Bottom() <= buffer.Length0
    }

    /** The pixels are whatever the shared back buffer holds: nothing is cleared. */
    constructor (width: U32, height: U32)
      requires width < I32_MAX && height < I32_MAX
      ensures Valid() && buffer.Length0 == height && buffer.Length1 == width && fresh(buffer)
      ensures clip == Rect(0, 0, width, height)
    {
      buffer := new nat[height, width];
      clip := Rect(0, 0, width, height);
    }

    method SetClip(r: Rect)
      requires buffer.Length0 < I32_MAX && buffer.Length1 < I32_MAX
      modifies this
      ensures Valid()
      ensures IsIntersection(clip, Rect(0, 0, buffer.Length1, buffer.Length0), r)
    {
      var screen := Rect(0, 0, buffer.Length1, buffer.Length0);
      var area := Intersection(screen, r);
      clip := if area.Some? then area.value else ZERO;
      IntersectionIs(screen, r);
    }

    method ResetClip()
      requires buffer.Length0 < I32_MAX && buffer.Length1 < I32_MAX
      modifies this
      ensures Valid() && clip == Rect(0, 0, buffer.Length1, buffer.Length0)
    {
      clip := Rect(0, 0, buffer.Length1, buffer.Length0);
    }

    /** Every pixel inside the clip has been painted, no other has changed. */
    twostate predicate Painted(draws: seq<Draw>)
      reads this, buffer
    {
      forall x, y | 0 <= x < buffer.Length1 && 0 <= y < buffer.Length0 ::
        buffer[y, x] == if clip.Contains(x, y) then Paint(draws, x, y, old(buffer[y, x])) else old(buffer[y, x])
    }

    method PutPixel(x: int, y: int, color: Color)
      requires Valid()
      modifies buffer
      ensures forall i, j | 0 <= i < buffer.Length1 && 0 <= j < buffer.Length0 ::
                buffer[j, i] == if clip.Contains(i, j) && i == x && j == y then Over(color, old(buffer[j, i])) else old(buffer[j, i])
    {
      if x < clip.x || x >= clip.Right() || y < clip.y || y >= clip.Bottom() {
        return;
      }
      buffer[y, x] := Over(color, buffer[y, x]);
    }

    /** Fills the columns `from` to `to` of one row: a slice fill if opaque, else pixel by pixel. */
    method FillRow(y: int, from: int, to: int, color: Color)
      requires Valid() && 0 <= y < buffer.Length0 && 0 <= from <= to <= buffer.Length1
      requires forall x | from <= x < to :: clip.Contains(x, y)
      modifies buffer
      ensures forall i, j | 0 <= i < buffer.Length1 && 0 <= j < buffer.Length0 ::
                buffer[j, i] == if j == y && from <= i < to then Over(color, old(buffer[j, i])) else old(buffer[j, i])
    {
      for x := from to to
        invariant forall i, j | 0 <= i < buffer.Length1 && 0 <= j < buffer.Length0 ::
                    buffer[j, i] == if j == y && from <= i < x then Over(color, old(buffer[j, i])) else old(buffer[j, i])
      {
        if color.a == 255 {
          buffer[y, x] := Argb(color);
        } else {
          PutPixel(x, y, color);
        }
      }
    }

    method FillRect(rect: Rect, color: Color)
      requires Valid()
      modifies buffer
      ensures forall i, j | 0 <= i < buffer.Length1 && 0 <= j < buffer.Length0 ::
                buffer[j, i] == if clip.Contains(i, j) && rect.Contains(i, j) then Over(color, old(buffer[j, i])) else old(buffer[j, i])
    {
      var area := Intersection(clip, rect);
      IntersectionIs(clip, rect);
      if area.None? {
        return;
      }
      var a := area.value;
      for y := a.y to a.Bottom()
        invariant forall i, j | 0 <= i < buffer.Length1 && 0 <= j < buffer.Length0 ::
                    buffer[j, i] == if j < y && a.Contains(i, j) then Over(color, old(buffer[j, i])) else old(buffer[j, i])
      {
        assert forall x | a.x <= x < a.Right() :: a.Contains(x, y);
        FillRow(y, a.x, a.Right(), color);
      }
    }

    method Apply(d: Draw)
      requires Valid()
      modifies buffer
      ensures forall i, j | 0 <= i < buffer.Length1 && 0 <= j < buffer.Length0 ::
                buffer[j, i] == if clip.Contains(i, j) then PaintOne(d, i, j, old(buffer[j, i])) else old(buffer[j, i])
    {
      match d
      case Fill(rect, color) => FillRect(rect, color);
      case Dot(x, y, color) => PutPixel(x, y, color);
    }

    /** Clipped drawing is full drawing restricted to the clip. */
    method Render(draws: seq<Draw>)
      requires Valid()
      modifies buffer
      ensures Painted(draws)
    {
      for n := 0 to |draws|
        invariant forall x, y | 0 <= x < buffer.Length1 && 0 <= y < buffer.Length0 ::
                    if clip.Contains(x, y) then Paint(draws[n..], x, y, buffer[y, x]) == Paint(draws, x, y, old(buffer[y, x]))
                    else buffer[y, x] == old(buffer[y, x])
      {
        assert draws[n..][0] == draws[n] && draws[n..][1..] == draws[n + 1..];
        Apply(draws[n]);
      }
    }

    /** Copies everything drawn to the framebuffer, as far as it reaches. */
    method Present(fb: array2<nat>)
      requires fb != buffer
      modifies fb
      ensures forall x, y | 0 <= x < fb.Length1 && 0 <= y < fb.Length0 ::
                fb[y, x] == if x < buffer.Length1 && y < buffer.Length0 then buffer[y, x] else old(fb[y, x])
    {
      var copyWidth, copyHeight := Min(buffer.Length1, fb.Length1), Min(buffer.Length0, fb.Length0);
      for row := 0 to copyHeight
        invariant forall x, y | 0 <= x < fb.Length1 && 0 <= y < fb.Length0 ::
                    fb[y, x] == if x < buffer.Length1 && y < row then buffer[y, x] else old(fb[y, x])
      {
        BlitSpan(fb, row, 0, copyWidth);
      }
    }

    /** Copies the rows from `y0` to `y1` to the framebuffer, as far as both reach. */
    method PresentRows(fb: array2<nat>, y0: nat, y1: nat)
      requires fb != buffer
      modifies fb
      ensures forall x, y | 0 <= x < fb.Length1 && 0 <= y < fb.Length0 ::
                fb[y, x] == if x < buffer.Length1 && y < buffer.Length0 && y0 <= y < y1 then buffer[y, x] else old(fb[y, x])
    {
      var copyWidth := Min(buffer.Length1, fb.Length1);
      var last := Min(Min(y1, buffer.Length0), fb.Length0);
      var row := y0;
      while row < last
        invariant forall x, y | 0 <= x < fb.Length1 && 0 <= y < fb.Length0 ::
                    fb[y, x] == if x < buffer.Length1 && y < last && y0 <= y < row then buffer[y, x] else old(fb[y, x])
        invariant y0 <= row && (row <= last || row == y0)
      {
        BlitSpan(fb, row, 0, copyWidth);
        row := row + 1;
      }
    }

    /** Copies the pixels inside `rect`, as far as both buffers reach. */
    method PresentRect(fb: array2<nat>, rect: Rect)
      requires fb != buffer && buffer.Length0 < I32_MAX && buffer.Length1 < I32_MAX
      modifies fb
      ensures forall x, y | 0 <= x < fb.Length1 && 0 <= y < fb.Length0 ::
                fb[y, x] == if x < buffer.Length1 && y < buffer.Length0 && rect.Contains(x, y) then buffer[y, x] else old(fb[y, x])
    {
      var screen := Rect(0, 0, Min(buffer.Length1, fb.Length1), Min(buffer.Length0, fb.Length0));
      var area := Intersection(screen, rect);
      IntersectionIs(screen, rect);
      if area.None? {
        return;
      }
      var a := area.value;
      for row := a.y to a.y + a.height
        invariant forall x, y | 0 <= x < fb.Length1 && 0 <= y < fb.Length0 ::
                    fb[y, x] == if y < row && a.Contains(x, y) then buffer[y, x] else old(fb[y, x])
      {
        BlitSpan(fb, row, a.x, a.x + a.width);
      }
    }

    method BlitSpan(fb: array2<nat>, row: nat, from: nat, to: nat)
      requires fb != buffer && row < buffer.Length0 && row < fb.Length0
      requires from <= to <= buffer.Length1 && to <= fb.Length1
      modifies fb
      ensures forall x, y | 0 <= x < fb.Length1 && 0 <= y < fb.Length0 ::
                fb[y, x] == if y == row && from <= x < to then buffer[y, x] else old(fb[y, x])
    {
      for c := from to to
        invariant forall x, y | 0 <= x < fb.Length1 && 0 <= y < fb.Length0 ::
                    fb[y, x] == if y == row && from <= x < c then buffer[y, x] else old(fb[y, x])
      {
        fb[row, c] := buffer[row, c];
      }
    }
  }
}
