/**
 * The viewer's steppers in Phototonic.cpp: quarter-turn and one-degree rotation of the
 * viewed image (Settings::rotation, a real number of degrees), and the bounded thumbnail-size
 * zoom together with the enabled state of its two actions.
 */
module ViewerSteps {

  /** The four orientations the quarter-turn actions produce. */
  predicate QuarterTurn(r: real)
  {
    r == 0.0 || r == 90.0 || r == 180.0 || r == 270.0
  }

  /** rotateLeft (Phototonic.cpp:1660-1666): subtract 90, wrapping below 0 to 270. */
  function RotatedLeft(r: real): (s: real)
    ensures QuarterTurn(r) ==> QuarterTurn(s)
    ensures 0.0 <= s <= 270.0 || s == r - 90.0
  {
    if r - 90.0 < 0.0 then 270.0 else r - 90.0
  }

  /** rotateRight (Phototonic.cpp:1669-1676): add 90, wrapping above 270 to 0. */
  function RotatedRight(r: real): (s: real)
    ensures QuarterTurn(r) ==> QuarterTurn(s)
    ensures 0.0 <= s <= 270.0 || s == r + 90.0
  {
    if r + 90.0 > 270.0 then 0.0 else r + 90.0
  }

  /** On the four orientations the two quarter turns undo each other. */
  lemma QuarterTurnsInverse(r: real)
    requires QuarterTurn(r)
    ensures RotatedLeft(RotatedRight(r)) == r
    ensures RotatedRight(RotatedLeft(r)) == r
  {
  }

  /** Four quarter turns in one direction come back to the start. */
  lemma FourQuarterTurns(r: real)
    requires QuarterTurn(r)
    ensures RotatedRight(RotatedRight(RotatedRight(RotatedRight(r)))) == r
    ensures RotatedLeft(RotatedLeft(RotatedLeft(RotatedLeft(r)))) == r
  {
  }

  /** freeRotateLeft (Phototonic.cpp:1745-1751): subtract one degree, wrapping below 0 to 359. */
  function FreeRotatedLeft(r: real): (s: real)
    ensures 0.0 <= r <= 360.0 ==> 0.0 <= s <= 360.0
    ensures s == r - 1.0 || s == 359.0
  {
    if r - 1.0 < 0.0 then 359.0 else r - 1.0
  }

  /** freeRotateRight (Phototonic.cpp:1754-1761): add one degree, wrapping above 360 to 1. */
  function FreeRotatedRight(r: real): (s: real)
    ensures 0.0 <= r <= 360.0 ==> 0.0 <= s <= 360.0
    ensures s == r + 1.0 || s == 1.0
  {
    if r + 1.0 > 360.0 then 1.0 else r + 1.0
  }

  /** Away from the wrap the one-degree steps undo each other. */
  lemma FreeRotationInverseInside(r: real)
    ensures 0.0 <= r <= 359.0 ==> FreeRotatedLeft(FreeRotatedRight(r)) == r
    ensures 1.0 <= r <= 360.0 ==> FreeRotatedRight(FreeRotatedLeft(r)) == r
  {
  }

  /** At the wrap they do not: 0 goes left to 359 and back right to 360, 360 goes right to 1 and back left to 0. */
  lemma FreeRotationNotInverseAtWrap()
    ensures FreeRotatedLeft(0.0) == 359.0 && FreeRotatedRight(359.0) == 360.0
    ensures FreeRotatedRight(360.0) == 1.0 && FreeRotatedLeft(1.0) == 0.0
  {
  }

  /** The global rotation setting the viewer reads (Settings::rotation). */
  class RotationSetting {
    var rotation: real

    /** readSettings resets the rotation (Phototonic.cpp:2512). */
    constructor ()
      ensures rotation == 0.0
    {
      rotation := 0.0;
    }

    method RotateLeft()
      modifies this
      ensures rotation == RotatedLeft(old(rotation))
    {
      rotation := rotation - 90.0;
      if rotation < 0.0 {
        rotation := 270.0;
      }
    }

    method RotateRight()
      modifies this
      ensures rotation == RotatedRight(old(rotation))
    {
      rotation := rotation + 90.0;
      if rotation > 270.0 {
        rotation := 0.0;
      }
    }

    method FreeRotateLeft()
      modifies this
      ensures rotation == FreeRotatedLeft(old(rotation))
    {
      rotation := rotation - 1.0;
      if rotation < 0.0 {
        rotation := 359.0;
      }
    }

    method FreeRotateRight()
      modifies this
      ensures rotation == FreeRotatedRight(old(rotation))
    {
      rotation := rotation + 1.0;
      if rotation > 360.0 {
        rotation := 1.0;
      }
    }
  }

  /**
   * Thumbnail size with the enabled state of the Enlarge and Shrink actions.
   * THUMB_SIZE_MIN and THUMB_SIZE_MAX are defined in Settings.h, which is not part of this
   * model; they are the parameters `min` and `max` below.
   */
  datatype Zoom = Zoom(size: int, zoomInEnabled: bool, zoomOutEnabled: bool)

  /** `size` is a positive whole number of `step`s. */
  predicate Steps(size: int, step: int)
    requires 0 < step
    decreases size
  {
    size == step || (size > step && Steps(size - step, step))
  }

  /** The bounds step evenly: `max` is a whole number of `min` steps. */
  predicate Bounds(min: int, max: int)
  {
    0 < min && Steps(max, min)
  }

  /**
   * The zoom invariant: the size is a whole number of steps inside the bounds, Enlarge is
   * enabled exactly below the maximum and Shrink exactly above the minimum.
   */
  predicate ZoomInv(z: Zoom, min: int, max: int)
  {
    && Bounds(min, max)
    && Steps(z.size, min) && z.size <= max
    && (z.zoomInEnabled <==> z.size < max)
    && (z.zoomOutEnabled <==> z.size > min)
  }

  /**
   * What holds for every size, on the grid or not: Enlarge is disabled only at the maximum and
   * Shrink only at the minimum.
   */
  predicate ActionsSound(z: Zoom, min: int, max: int)
  {
    && (!z.zoomInEnabled ==> z.size == max)
    && (!z.zoomOutEnabled ==> z.size == min)
  }

  /**
   * The actions as createActions leaves them (Phototonic.cpp:387-402) for the size the
   * thumbnail view read from the settings, which may lie off the grid of steps.
   */
  function InitialZoom(size: int, min: int, max: int): (z: Zoom)
    ensures z.size == size && ActionsSound(z, min, max)
    ensures z.zoomInEnabled <==> size != max
    ensures z.zoomOutEnabled <==> size != min
    ensures Bounds(min, max) && Steps(size, min) && size <= max ==> ZoomInv(z, min, max)
  {
    Zoom(size, size != max, size != min)
  }

  /** thumbsZoomIn (Phototonic.cpp:1555-1564). */
  function ZoomIn(z: Zoom, min: int, max: int): (r: Zoom)
    ensures z.size < max ==> r.size == z.size + min && r.zoomOutEnabled
    ensures z.size < max ==> (r.zoomInEnabled <==> z.zoomInEnabled && r.size != max)
    ensures z.size >= max ==> r == z
    ensures ActionsSound(z, min, max) ==> ActionsSound(r, min, max)
    ensures ZoomInv(z, min, max) ==> ZoomInv(r, min, max)
  {
    if z.size < max then
      var size := z.size + min;
      assert ZoomInv(z, min, max) ==> size <= max by {
        if ZoomInv(z, min, max) {
          StepStaysInside(z.size, min, max);
        }
      }
      Zoom(size, if size == max then false else z.zoomInEnabled, true)
    else z
  }

  /** thumbsZoomOut (Phototonic.cpp:1566-1575). */
  function ZoomOut(z: Zoom, min: int, max: int): (r: Zoom)
    ensures z.size > min ==> r.size == z.size - min && r.zoomInEnabled
    ensures z.size > min ==> (r.zoomOutEnabled <==> z.zoomOutEnabled && r.size != min)
    ensures z.size <= min ==> r == z
    ensures ActionsSound(z, min, max) ==> ActionsSound(r, min, max)
    ensures ZoomInv(z, min, max) ==> ZoomInv(r, min, max)
  {
    if z.size > min then
      var size := z.size - min;
      Zoom(size, true, if size == min then false else z.zoomOutEnabled)
    else z
  }

  /** A whole number of steps below another whole number of steps is at least one step below it. */
  lemma {:induction false} StepStaysInside(size: int, step: int, max: int)
    requires 0 < step && Steps(size, step) && Steps(max, step) && size < max
    ensures size + step <= max
    decreases size
  {
    if size != step {
      StepStaysInside(size - step, step, max - step);
    }
  }

  /**
   * Enlarging and then shrinking (or the reverse) comes back to the same size whenever the
   * first step moved the size, on the grid or not.
   */
  lemma ZoomInThenOut(z: Zoom, min: int, max: int)
    requires 0 < min
    ensures 0 < z.size < max ==> ZoomOut(ZoomIn(z, min, max), min, max).size == z.size
    ensures min < z.size < max + min ==> ZoomIn(ZoomOut(z, min, max), min, max).size == z.size
  {
  }

  /**
   * A stored size off the grid of steps: from 220 with steps of 50 up to 300, Enlarge goes to
   * 270 and then past the maximum to 320, and stays enabled.
   */
  lemma OffGridPassesMaximum()
    ensures Bounds(50, 300) && !Steps(220, 50)
    ensures var z := ZoomIn(ZoomIn(InitialZoom(220, 50, 300), 50, 300), 50, 300);
      z.size == 320 && z.zoomInEnabled && z.zoomOutEnabled
  {
    assert Steps(300, 50) by {
      assert Steps(50, 50) && Steps(100, 50) && Steps(150, 50) && Steps(200, 50) && Steps(250, 50);
    }
    assert !Steps(220, 50) by {
      assert !Steps(20, 50) && !Steps(70, 50) && !Steps(120, 50) && !Steps(170, 50);
    }
  }

  /** The thumbnail size of the thumbnail view and the two zoom actions of the main window. */
  class ThumbsZoom {
    const min: int       // THUMB_SIZE_MIN
    const max: int       // THUMB_SIZE_MAX
    var thumbSize: int
    var zoomInEnabled: bool
    var zoomOutEnabled: bool

    function State(): Zoom
      reads this
    {
      Zoom(thumbSize, zoomInEnabled, zoomOutEnabled)
    }

    ghost predicate Valid()
      reads this
    {
      Bounds(min, max) && ActionsSound(State(), min, max)
    }

    /**
     * The size read from the settings by the thumbnail view (ThumbsViewer.cpp is not part of
     * this model), whatever value was stored.
     */
    constructor (min: int, max: int, size: int)
      requires Bounds(min, max)
      ensures Valid() && this.min == min && this.max == max && State() == InitialZoom(size, min, max)
    {
      this.min := min;
      this.max := max;
      thumbSize := size;
      zoomInEnabled := true;
      zoomOutEnabled := true;
      if size == max {
        zoomInEnabled := false;
      }
      if size == min {
        zoomOutEnabled := false;
      }
    }

    /** Returns whether the thumbnails are refreshed (refreshThumbs(false) is called). */
    method ThumbsZoomIn() returns (refreshed: bool)
      requires Valid()
      modifies this
      ensures Valid() && State() == ZoomIn(old(State()), min, max)
      ensures refreshed <==> old(thumbSize) < max
    {
      refreshed := false;
      if thumbSize < max {
        thumbSize := thumbSize + min;
        zoomOutEnabled := true;
        if thumbSize == max {
          zoomInEnabled := false;
        }
        refreshed := true;
      }
    }

    method ThumbsZoomOut() returns (refreshed: bool)
      requires Valid()
      modifies this
      ensures Valid() && State() == ZoomOut(old(State()), min, max)
      ensures refreshed <==> old(thumbSize) > min
    {
      refreshed := false;
      if thumbSize > min {
        thumbSize := thumbSize - min;
        zoomInEnabled := true;
        if thumbSize == min {
          zoomOutEnabled := false;
        }
        refreshed := true;
      }
    }
  }
}
