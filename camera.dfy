/** The camera: the top-left corner of a fixed-size viewport in world pixels, kept inside
    the map once the map's size is known. */
module Viewport {
  import opened JavaTypes

  /** One axis of `clampToBounds` on a map whose size is positive on both axes: pull a
      negative position to 0, pull a viewport that runs past the map's end back inside it,
      and centre a viewport wider than the map. Every sum is an int. */
  function ClampAxis(pos: int32, view: int32, extent: int32): int32
  {
    var p := if pos < 0 then 0 else if Wrap(pos as int + view) > extent then Wrap(extent as int - view) else pos;
    if view > extent then JDiv(Wrap(extent as int - view), 2) else p
  }

  /** The position `clampToBounds` leaves: unchanged until both map sizes are positive. */
  function Clamped(x: int32, y: int32, viewWidth: int32, viewHeight: int32, mapWidth: int32, mapHeight: int32): (int32, int32)
  {
    if mapWidth > 0 && mapHeight > 0 then (ClampAxis(x, viewWidth, mapWidth), ClampAxis(y, viewHeight, mapHeight))
    else (x, y)
  }

  /** A viewport no wider than the map ends up inside it, provided the position plus the
      viewport width does not overflow. */
  lemma ClampAxisBounds(pos: int32, view: int32, extent: int32)
    requires 0 < extent && 0 <= view <= extent && pos as int + view <= MAX
    ensures 0 <= ClampAxis(pos, view, extent) <= extent - view
  {
  }

  /** Without that proviso the bound fails: at `Integer.MAX_VALUE - 10` the sum with a
      viewport of 50 wraps negative, so a camera on a 100-pixel map is left where it was. */
  lemma ClampAxisOverflow()
    ensures ClampAxis(MAX - 10, 50, 100) == MAX - 10
  {
    assert Wrap(MAX - 10 + 50) < 0;
  }

  /** A viewport wider than the map is centred on it, the odd pixel of margin going to the
      right since `/` truncates toward zero. */
  lemma ClampAxisCentres(pos: int32, view: int32, extent: int32)
    requires 0 < extent < view
    ensures ClampAxis(pos, view, extent) == -((view - extent) / 2)
    ensures 2 * -ClampAxis(pos, view, extent) <= view - extent <= 2 * -ClampAxis(pos, view, extent) + 1
  {
  }

  /** Clamping a clamped position changes nothing, for any viewport size and any position. */
  lemma ClampAxisIdempotent(pos: int32, view: int32, extent: int32)
    requires extent > 0
    ensures ClampAxis(ClampAxis(pos, view, extent), view, extent) == ClampAxis(pos, view, extent)
  {
    if view <= extent && pos >= 0 && Wrap(pos as int + view) > extent {
      assert pos as int + view > extent;
      assert Wrap(extent as int - view) == extent - view;
    }
  }

  lemma ClampedIdempotent(x: int32, y: int32, viewWidth: int32, viewHeight: int32, mapWidth: int32, mapHeight: int32)
    ensures var (cx, cy) := Clamped(x, y, viewWidth, viewHeight, mapWidth, mapHeight);
      Clamped(cx, cy, viewWidth, viewHeight, mapWidth, mapHeight) == (cx, cy)
  {
    if mapWidth > 0 && mapHeight > 0 {
      ClampAxisIdempotent(x, viewWidth, mapWidth);
      ClampAxisIdempotent(y, viewHeight, mapHeight);
    }
  }

  /** Centring on a point and reading the centre back gives the point, wrap-around
      included, whenever clamping leaves the position alone. */
  lemma CentreRoundTrip(c: int32, view: int32)
    ensures Wrap(Wrap(c as int - JDiv(view, 2)) as int + JDiv(view, 2)) == c
  {
    WrapAdd(c as int - JDiv(view, 2), JDiv(view, 2));
  }

  /** Subtracting and adding the same int, in either order, is the identity on ints. */
  lemma ShiftInverse(a: int32, offset: int32)
    ensures Wrap(Wrap(a as int - offset) as int + offset) == a
    ensures Wrap(Wrap(a as int + offset) as int - offset) == a
  {
    WrapAdd(a as int - offset, offset);
    WrapAdd(a as int + offset, -(offset as int));
  }

  /** `p` lies in the closed span from `start` to `start + length`. */
  predicate InSpan(p: int, start: int, length: int)
  {
    start <= p <= start + length
  }

  class Camera {
    var x: int32
    var y: int32
    const viewWidth: int32
    const viewHeight: int32
    var mapWidth: int32
    var mapHeight: int32

    /** At the origin, with no map bounds yet. */
    constructor(viewWidth: int32, viewHeight: int32)
      ensures this.viewWidth == viewWidth && this.viewHeight == viewHeight
      ensures x == 0 && y == 0 && mapWidth == 0 && mapHeight == 0
    {
      this.viewWidth := viewWidth;
      this.viewHeight := viewHeight;
      x := 0;
      y := 0;
      mapWidth := 0;
      mapHeight := 0;
    }

    /** `clampToBounds`. */
    method ClampToBounds()
      modifies this
      ensures (x, y) == Clamped(old(x), old(y), viewWidth, viewHeight, mapWidth, mapHeight)
      ensures mapWidth == old(mapWidth) && mapHeight == old(mapHeight)
    {
      if mapWidth > 0 && mapHeight > 0 {
        if x < 0 {
          x := 0;
        } else if Wrap(x as int + viewWidth) > mapWidth {
          x := Wrap(mapWidth as int - viewWidth);
        }
        if y < 0 {
          y := 0;
        } else if Wrap(y as int + viewHeight) > mapHeight {
          y := Wrap(mapHeight as int - viewHeight);
        }
        if viewWidth > mapWidth {
          x := JDiv(Wrap(mapWidth as int - viewWidth), 2);
        }
        if viewHeight > mapHeight {
          y := JDiv(Wrap(mapHeight as int - viewHeight), 2);
        }
      }
    }

    /** `setPosition`. */
    method SetPosition(newX: int32, newY: int32)
      modifies this
      ensures (x, y) == Clamped(newX, newY, viewWidth, viewHeight, mapWidth, mapHeight)
      ensures mapWidth == old(mapWidth) && mapHeight == old(mapHeight)
    {
      x := newX;
      y := newY;
      ClampToBounds();
    }

    /** `setCenter`: the top-left corner half a viewport up and left of the point. */
    method SetCenter(centerX: int32, centerY: int32)
      modifies this
      ensures (x, y) == Clamped(Wrap(centerX as int - JDiv(viewWidth, 2)), Wrap(centerY as int - JDiv(viewHeight, 2)),
                                viewWidth, viewHeight, mapWidth, mapHeight)
      ensures mapWidth == old(mapWidth) && mapHeight == old(mapHeight)
    {
      x := Wrap(centerX as int - JDiv(viewWidth, 2));
      y := Wrap(centerY as int - JDiv(viewHeight, 2));
      ClampToBounds();
    }

    /** `follow` with smooth following off: `setCenter` and one more clamp, which changes
        nothing. */
    method Follow(targetX: int32, targetY: int32)
      modifies this
      ensures (x, y) == Clamped(Wrap(targetX as int - JDiv(viewWidth, 2)), Wrap(targetY as int - JDiv(viewHeight, 2)),
                                viewWidth, viewHeight, mapWidth, mapHeight)
      ensures mapWidth == old(mapWidth) && mapHeight == old(mapHeight)
    {
      SetCenter(targetX, targetY);
      ClampedIdempotent(Wrap(targetX as int - JDiv(viewWidth, 2)), Wrap(targetY as int - JDiv(viewHeight, 2)),
                        viewWidth, viewHeight, mapWidth, mapHeight);
      ClampToBounds();
    }

    /** `update`: only clamps again. */
    method Update()
      modifies this
      ensures (x, y) == Clamped(old(x), old(y), viewWidth, viewHeight, mapWidth, mapHeight)
      ensures mapWidth == old(mapWidth) && mapHeight == old(mapHeight)
    {
      ClampToBounds();
    }

    /** `setMapBounds`: new bounds, then a clamp against them. */
    method SetMapBounds(newMapWidth: int32, newMapHeight: int32)
      modifies this
      ensures mapWidth == newMapWidth && mapHeight == newMapHeight
      ensures (x, y) == Clamped(old(x), old(y), viewWidth, viewHeight, newMapWidth, newMapHeight)
    {
      mapWidth := newMapWidth;
      mapHeight := newMapHeight;
      ClampToBounds();
    }

    /** `worldToScreen`: the world point relative to the camera's corner; adding the corner
        back gives the world point for every pair of ints, and without overflow the screen
        point is the exact difference. */
    function WorldToScreen(worldX: int32, worldY: int32): (r: (int32, int32))
      reads this
      ensures Wrap(r.0 as int + x) == worldX && Wrap(r.1 as int + y) == worldY
      ensures MIN <= worldX as int - x <= MAX ==> r.0 as int + x == worldX as int
      ensures MIN <= worldY as int - y <= MAX ==> r.1 as int + y == worldY as int
    {
      ShiftInverse(worldX, x);
      ShiftInverse(worldY, y);
      (Wrap(worldX as int - x), Wrap(worldY as int - y))
    }

    /** `screenToWorld`: the screen point offset by the camera's corner; taking the corner
        away again gives the screen point for every pair of ints, and without overflow the
        world point is the exact sum. */
    function ScreenToWorld(screenX: int32, screenY: int32): (r: (int32, int32))
      reads this
      ensures Wrap(r.0 as int - x) == screenX && Wrap(r.1 as int - y) == screenY
      ensures MIN <= screenX as int + x <= MAX ==> r.0 as int - x == screenX as int
      ensures MIN <= screenY as int + y <= MAX ==> r.1 as int - y == screenY as int
    {
      ShiftInverse(screenX, x);
      ShiftInverse(screenY, y);
      (Wrap(screenX as int + x), Wrap(screenY as int + y))
    }

    /** The two conversions undo each other for every pair of ints, overflow included. */
    lemma ScreenWorldInverse(a: int32, b: int32)
      ensures ScreenToWorld(WorldToScreen(a, b).0, WorldToScreen(a, b).1) == (a, b)
      ensures WorldToScreen(ScreenToWorld(a, b).0, ScreenToWorld(a, b).1) == (a, b)
    {
    }

    /** `isVisible`: the object's box, from its corner to corner plus size, against the
        viewport's, both compared through int sums; an object of non-negative size at the
        camera's own corner is visible whenever no sum overflows. */
    predicate IsVisible(worldX: int32, worldY: int32, width: int32, height: int32)
      reads this
      ensures (worldX == x && worldY == y && width >= 0 && height >= 0 && viewWidth >= 0 && viewHeight >= 0 &&
               worldX as int + width <= MAX && worldY as int + height <= MAX &&
               x as int + viewWidth <= MAX && y as int + viewHeight <= MAX) ==>
        IsVisible(worldX, worldY, width, height)
    {
      !(Wrap(worldX as int + width) < x || worldX > Wrap(x as int + viewWidth) ||
        Wrap(worldY as int + height) < y || worldY > Wrap(y as int + viewHeight))
    }

    /** For sizes that are not negative and sums that do not overflow, an object is visible
        exactly when its closed box shares a point with the closed viewport. */
    lemma IsVisibleMeansOverlap(worldX: int32, worldY: int32, width: int32, height: int32)
      requires width >= 0 && height >= 0 && viewWidth >= 0 && viewHeight >= 0
      requires worldX as int + width <= MAX && worldY as int + height <= MAX
      requires x as int + viewWidth <= MAX && y as int + viewHeight <= MAX
      ensures IsVisible(worldX, worldY, width, height) <==>
        (exists px :: InSpan(px, worldX, width) && InSpan(px, x, viewWidth)) &&
        (exists py :: InSpan(py, worldY, height) && InSpan(py, y, viewHeight))
    {
      if IsVisible(worldX, worldY, width, height) {
        var px := if worldX < x then x else worldX;
        var py := if worldY < y then y else worldY;
        assert InSpan(px, worldX, width) && InSpan(px, x, viewWidth);
        assert InSpan(py, worldY, height) && InSpan(py, y, viewHeight);
      }
    }

    /** `getCenterX`. */
    function GetCenterX(): int32
      reads this
    {
      Wrap(x as int + JDiv(viewWidth, 2))
    }

    /** `getCenterY`. */
    function GetCenterY(): int32
      reads this
    {
      Wrap(y as int + JDiv(viewHeight, 2))
    }
  }
}
