/** `GraffitiAnswer`: one answer tile with its wear mask updated in place. */
module Graffiti {
  import opened Common
  import opened Erosion

  /** Extra margin, in pixels, around a tile for the aim hit test. */
  const HitTolerance: real := 20.0

  /** `countTextPixels`: copy the alpha channel out of the rendered RGBA
      data and count the strong-ink cells, at least 1. */
  method CountTextPixels(image: seq<Byte>) returns (alpha: seq<Byte>, textPixelCount: nat)
    requires |image| == ImageBytes
    ensures alpha == AlphaChannel(image)
    ensures textPixelCount == TextPixelCount(alpha)
  {
    var graffitiAlpha := new Byte[Cells];
    var count := 0;
    var i := 0;
    while i < Cells
      invariant 0 <= i <= Cells
      invariant forall k :: 0 <= k < i ==> graffitiAlpha[k] == image[k * 4 + 3]
      invariant count == InkCount(graffitiAlpha[..i])
    {
      graffitiAlpha[i] := image[i * 4 + 3];
      assert graffitiAlpha[..i + 1][..i] == graffitiAlpha[..i];
      if image[i * 4 + 3] > StrongInk {
        count := count + 1;
      }
      i := i + 1;
    }
    if count == 0 {
      count := 1;
    }
    alpha := graffitiAlpha[..];
    assert alpha == graffitiAlpha[..Cells];
    textPixelCount := count;
  }

  /** The cell at column px, row py of the mask. */
  lemma CellIndex(px: int, py: int)
    requires 0 <= px < Width && 0 <= py < Height
    ensures 0 <= py * Width + px < Cells
    ensures (py * Width + px) % Width == px && (py * Width + px) / Width == py
  {
  }

  /** Cells of the clamped box [minX,maxX] x [minY,..] visited before (px, py) in row-major order. */
  ghost predicate Swept(i: int, minX: int, maxX: int, minY: int, py: int, px: int) {
    var cx, cy := i % Width, i / Width;
    minX <= cx <= maxX && minY <= cy && (cy < py || (cy == py && cx < px))
  }

  /** No cell outside the clamped bounding box of the circle lies in the circle. */
  lemma BoxCoversCircle(i: int, lx: real, ly: real, radius: real,
                        minX: int, maxX: int, minY: int, maxY: int)
    requires 0 <= i < Cells && radius > 0.0
    requires minX == Max(0, (lx - radius).Floor) && maxX == Min(Width - 1, Ceil(lx + radius))
    requires minY == Max(0, (ly - radius).Floor) && maxY == Min(Height - 1, Ceil(ly + radius))
    requires !Swept(i, minX, maxX, minY, maxY + 1, minX)
    ensures !InCircle(i % Width, i / Width, lx, ly, radius)
  {
    var cx, cy := i % Width, i / Width;
    if cx < minX || cx > maxX {
      FarAxis(cx, lx, radius);
    } else {
      FarAxis(cy, ly, radius);
    }
  }

  /** The nested loops of `applyWater`: erode every painted cell of the
      circle inside the clamped bounding box; `changed` tells whether any
      cell was written. */
  method ErodeCircle(mask: array<Byte>, localX: real, localY: real, radius: real) returns (changed: bool)
    requires mask.Length == Cells && radius > 0.0
    modifies mask
    ensures mask[..] == Impacted(old(mask[..]), localX, localY, radius)
    ensures changed <==> mask[..] != old(mask[..])
  {
    ghost var before := mask[..];
    var minX := Max(0, (localX - radius).Floor);
    var maxX := Min(Width - 1, Ceil(localX + radius));
    var minY := Max(0, (localY - radius).Floor);
    var maxY := Min(Height - 1, Ceil(localY + radius));
    changed := false;
    var py := minY;
    while py <= maxY
      invariant minY <= py <= Max(minY, maxY + 1)
      invariant forall i :: 0 <= i < Cells ==>
        mask[i] == (if Swept(i, minX, maxX, minY, py, minX)
                    then ImpactCell(before[i], i % Width, i / Width, localX, localY, radius)
                    else before[i])
      invariant changed <==> exists i :: 0 <= i < Cells && mask[i] != before[i]
    {
      var rowChanged := ErodeRow(mask, py, minX, maxX, localX, localY, radius);
      changed := changed || rowChanged;
      py := py + 1;
    }
    forall i | 0 <= i < Cells
      ensures mask[i] == ImpactCell(before[i], i % Width, i / Width, localX, localY, radius)
    {
      if !Swept(i, minX, maxX, minY, maxY + 1, minX) {
        BoxCoversCircle(i, localX, localY, radius, minX, maxX, minY, maxY);
      }
    }
    assert mask[..] == Impacted(before, localX, localY, radius);
  }

  /** The inner loop of `applyWater`: one row of the bounding box. */
  method ErodeRow(mask: array<Byte>, py: int, minX: int, maxX: int,
                  localX: real, localY: real, radius: real) returns (changed: bool)
    requires mask.Length == Cells && 0 <= py < Height && 0 <= minX && maxX < Width
    modifies mask
    ensures forall i :: 0 <= i < Cells ==>
      mask[i] == (if i / Width == py && minX <= i % Width <= maxX
                  then ImpactCell(old(mask[i]), i % Width, i / Width, localX, localY, radius)
                  else old(mask[i]))
    ensures changed <==> exists i :: 0 <= i < Cells && mask[i] != old(mask[i])
  {
    changed := false;
    var px := minX;
    while px <= maxX
      invariant minX <= px <= Max(minX, maxX + 1)
      invariant forall i :: 0 <= i < Cells ==>
        mask[i] == (if i / Width == py && minX <= i % Width < px
                    then ImpactCell(old(mask[i]), i % Width, i / Width, localX, localY, radius)
                    else old(mask[i]))
      invariant changed <==> exists i :: 0 <= i < Cells && mask[i] != old(mask[i])
    {
      var cellChanged := ErodeCell(mask, px, py, localX, localY, radius);
      changed := changed || cellChanged;
      px := px + 1;
    }
  }

  /** The body of the inner loop: one cell at column px, row py. */
  method ErodeCell(mask: array<Byte>, px: int, py: int, localX: real, localY: real, radius: real)
    returns (changed: bool)
    requires mask.Length == Cells && 0 <= px < Width && 0 <= py < Height
    modifies mask
    ensures var idx := py * Width + px;
      && 0 <= idx < Cells && idx % Width == px && idx / Width == py
      && mask[idx] == ImpactCell(old(mask[idx]), px, py, localX, localY, radius)
      && (changed <==> mask[idx] != old(mask[idx]))
    ensures forall i :: 0 <= i < Cells && i != py * Width + px ==> mask[i] == old(mask[i])
  {
    var r2 := radius * radius;
    var dx := px as real - localX;
    var dy := py as real - localY;
    var d2 := dx * dx + dy * dy;
    CellIndex(px, py);
    var idx := py * Width + px;
    assert d2 == SquaredDistance(px, py, localX, localY);
    changed := false;
    if d2 <= r2 {
      if mask[idx] > 0 {
        var erosion := ErosionAmount(d2, r2);
        mask[idx] := Max(0, mask[idx] - erosion);
        // Snap to zero: no faint remnants.
        if mask[idx] < SnapBelow {
          mask[idx] := 0;
        }
        changed := true;
      }
    }
  }

  class GraffitiAnswer {
    const text: string
    /** Centre of the tile on the play surface. */
    const x: real
    const y: real
    const color: string
    const isCorrect: bool
    /** Drawing only: erosion and hit testing ignore it. */
    const rotation: real
    /** `graffitiAlpha`, filled once at construction and never written again. */
    const alpha: seq<Byte>
    const textPixelCount: nat
    /** `maskData`: 255 = fully painted, 0 = washed away. */
    const mask: array<Byte>
    var washProgress: real
    var isWashed: bool
    /** Set when the mask changed and the cached picture needs recomposing. */
    var dirty: bool

    ghost function State(): Surface
      reads this, mask
    {
      Surface(mask[..], washProgress, isWashed, dirty)
    }

    ghost predicate Valid()
      reads this, mask
    {
      mask.Length == Cells && textPixelCount == TextPixelCount(alpha) && Consistent(alpha, State())
    }

    /** The tile for `text`, given the rendered RGBA picture of the text and
        the draw that sets its rotation.  The initial `updateOutput` has
        already cleared `dirty`. */
    constructor (text: string, x: real, y: real, color: string, isCorrect: bool,
                 rotationDraw: real, image: seq<Byte>)
      requires |image| == ImageBytes
      ensures Valid() && fresh(mask)
      ensures this.text == text && this.x == x && this.y == y && this.color == color
      ensures this.isCorrect == isCorrect && rotation == (rotationDraw - 0.5) * 0.15
      ensures alpha == AlphaChannel(image)
      ensures State() == Initial()
    {
      this.text := text;
      this.x := x;
      this.y := y;
      this.color := color;
      this.isCorrect := isCorrect;
      rotation := (rotationDraw - 0.5) * 0.15;
      washProgress := 0.0;
      isWashed := false;
      mask := new Byte[Cells](_ => FullWear);
      var a, count := CountTextPixels(image);
      alpha := a;
      textPixelCount := count;
      dirty := false;
      new;
      assert mask[..] == Full();
      InitialConsistent(alpha);
    }

    /** `containsPoint`: axis-aligned test against the tile grown by the
        tolerance, an open box centred on the tile. */
    function ContainsPoint(px: real, py: real): (inside: bool)
      ensures inside <==> x - (Width as real / 2.0 + HitTolerance) < px < x + (Width as real / 2.0 + HitTolerance)
                          && y - (Height as real / 2.0 + HitTolerance) < py < y + (Height as real / 2.0 + HitTolerance)
    {
      Abs(px - x) < Width as real / 2.0 + HitTolerance && Abs(py - y) < Height as real / 2.0 + HitTolerance
    }

    /** `applyWater`: erode every painted cell of the circle, and recompute the
        ratio when something changed.  Proved against Erosion.ApplyWater. */
    method ApplyWater(hitX: real, hitY: real, radius: real) returns (hit: bool)
      requires Valid() && radius > 0.0
      modifies this, mask
      ensures Valid()
      ensures Impact(hit, State()) == Erosion.ApplyWater(alpha, x, y, old(State()), hitX, hitY, radius)
    {
      var localX := hitX - (x - Width as real / 2.0);
      var localY := hitY - (y - Height as real / 2.0);
      if localX < -radius || localX > Width as real + radius ||
         localY < -radius || localY > Height as real + radius {
        return false;
      }
      ghost var before := mask[..];
      ghost var s0 := State();
      var changed := ErodeCircle(mask, localX, localY, radius);
      assert mask[..] == Impacted(before, localX, localY, radius);
      if changed {
        dirty := true;
        RecalcWash();
      }
      hit := true;
      ApplyWaterStep(alpha, x, y, s0, hitX, hitY, radius);
    }

    /** `recalcWash`: count erased ink cells, store the ratio and latch the
        wash at the threshold, wiping the whole mask. */
    method RecalcWash()
      requires mask.Length == Cells && |alpha| == Cells && textPixelCount == TextPixelCount(alpha)
      modifies this, mask
      ensures State() == Recalc(alpha, old(State()))
    {
      var erased := 0;
      var i := 0;
      while i < Cells
        invariant 0 <= i <= Cells
        invariant erased == ErasedCount(alpha[..i], mask[..i])
      {
        assert alpha[..i + 1][..i] == alpha[..i];
        assert mask[..i + 1][..i] == mask[..i];
        if alpha[i] > StrongInk && mask[i] < ErasedBelow {
          erased := erased + 1;
        }
        i := i + 1;
      }
      assert alpha[..Cells] == alpha && mask[..Cells] == mask[..];
      washProgress := erased as real / textPixelCount as real;
      if washProgress >= WashThreshold && !isWashed {
        isWashed := true;
        // Wipe the entire mask: no remnants.
        forall k | 0 <= k < mask.Length {
          mask[k] := 0;
        }
        assert mask[..] == Zeros();
        dirty := true;
      }
    }
  }

  /** With a water radius of at least the hit tolerance, every point the hit
      test accepts passes the range check of `applyWater`. */
  lemma HitImpliesInRange(t: GraffitiAnswer, px: real, py: real, radius: real)
    requires t.ContainsPoint(px, py) && radius >= HitTolerance
    ensures InRange(LocalX(t.x, px), LocalY(t.y, py), radius)
  {
  }

  /** With a smaller radius the two tests disagree: some accepted point is out of range. */
  lemma SmallRadiusMissesEdge(t: GraffitiAnswer, radius: real)
    requires 0.0 < radius < HitTolerance
    ensures exists px: real :: t.ContainsPoint(px, t.y) && !InRange(LocalX(t.x, px), LocalY(t.y, t.y), radius)
  {
    var px := t.x + Width as real / 2.0 + (radius + HitTolerance) / 2.0;
    assert t.ContainsPoint(px, t.y);
    assert !InRange(LocalX(t.x, px), LocalY(t.y, t.y), radius);
  }
}
