/** The erosion surface of one answer tile, as values: the 200x130 wear mask,
    the ink classification taken from the glyph's alpha channel, the wash
    ratio and its one-way latch.  The class in graffiti.dfy runs these
    updates in place and is proved against the functions here. */
module Erosion {
  import opened Common

  const Width: int := 200
  const Height: int := 130
  /** Width * Height cells, row-major: cell `py * Width + px`. */
  const Cells: int := 26000
  /** RGBA bytes of a rendered tile. */
  const ImageBytes: int := 104000

  /** Alpha above this is glyph ink, not faint glow. */
  const StrongInk: int := 80
  /** Wear below this counts an ink cell as erased. */
  const ErasedBelow: int := 60
  /** Wear left below this after an impact is snapped to zero. */
  const SnapBelow: int := 30
  const FullWear: Byte := 255
  const WashThreshold: real := 0.85

  /** What one tile's mutable state holds between frames. */
  datatype Surface = Surface(mask: seq<Byte>, washProgress: real, isWashed: bool, dirty: bool)

  /** The result of one impact: whether it was in range, and the new state. */
  datatype Impact = Impact(hit: bool, after: Surface)

  function Full(): (m: seq<Byte>)
    ensures |m| == Cells && forall i :: 0 <= i < Cells ==> m[i] == FullWear
  {
    seq(Cells, i => FullWear)
  }

  function Zeros(): (m: seq<Byte>)
    ensures |m| == Cells && forall i :: 0 <= i < Cells ==> m[i] == 0
  {
    seq(Cells, i => 0)
  }

  ghost predicate AllZero(m: seq<Byte>) {
    forall i :: 0 <= i < |m| ==> m[i] == 0
  }

  /** Pointwise "no cell of `after` holds more paint than in `before`". */
  ghost predicate WornDown(before: seq<Byte>, after: seq<Byte>) {
    |before| == |after| && forall i :: 0 <= i < |before| ==> after[i] <= before[i]
  }

  // ---------------------------------------------------------------- ink

  /** The alpha channel of an RGBA image: byte 3 of every pixel. */
  function AlphaChannel(image: seq<Byte>): (alpha: seq<Byte>)
    requires |image| == ImageBytes
    ensures |alpha| == Cells
  {
    seq(Cells, i requires 0 <= i < Cells => image[i * 4 + 3])
  }

  predicate IsInk(a: Byte) { a > StrongInk }

  /** Number of ink cells. */
  function InkCount(alpha: seq<Byte>): nat
  {
    if alpha == [] then 0
    else InkCount(alpha[..|alpha| - 1]) + (if IsInk(alpha[|alpha| - 1]) then 1 else 0)
  }

  /** `textPixelCount`: the ink count, forced to 1 when there is no ink. */
  function TextPixelCount(alpha: seq<Byte>): (n: nat)
    ensures n >= 1
    ensures n >= InkCount(alpha)
    ensures InkCount(alpha) > 0 ==> n == InkCount(alpha)
  {
    var ink := InkCount(alpha);
    if ink == 0 then 1 else ink
  }

  /** Ink cells whose wear has dropped below the erased level. */
  function ErasedCount(alpha: seq<Byte>, mask: seq<Byte>): nat
    requires |alpha| == |mask|
  {
    if alpha == [] then 0
    else
      var n := |alpha| - 1;
      ErasedCount(alpha[..n], mask[..n]) + (if IsInk(alpha[n]) && mask[n] < ErasedBelow then 1 else 0)
  }

  lemma {:induction false} ErasedAtMostInk(alpha: seq<Byte>, mask: seq<Byte>)
    requires |alpha| == |mask|
    ensures ErasedCount(alpha, mask) <= InkCount(alpha)
  {
    if alpha != [] {
      var n := |alpha| - 1;
      ErasedAtMostInk(alpha[..n], mask[..n]);
    }
  }

  /** Wearing cells down can only raise the erased count. */
  lemma {:induction false} ErasedMonotone(alpha: seq<Byte>, before: seq<Byte>, after: seq<Byte>)
    requires |alpha| == |before| && WornDown(before, after)
    ensures ErasedCount(alpha, before) <= ErasedCount(alpha, after)
  {
    if alpha != [] {
      var n := |alpha| - 1;
      ErasedMonotone(alpha[..n], before[..n], after[..n]);
    }
  }

  /** On a wiped mask every ink cell counts as erased. */
  lemma {:induction false} ErasedWhenWiped(alpha: seq<Byte>, mask: seq<Byte>)
    requires |alpha| == |mask| && AllZero(mask)
    ensures ErasedCount(alpha, mask) == InkCount(alpha)
  {
    if alpha != [] {
      var n := |alpha| - 1;
      ErasedWhenWiped(alpha[..n], mask[..n]);
    }
  }

  /** On an untouched mask nothing counts as erased. */
  lemma {:induction false} ErasedWhenIntact(alpha: seq<Byte>, mask: seq<Byte>)
    requires |alpha| == |mask| && forall i :: 0 <= i < |mask| ==> mask[i] >= ErasedBelow
    ensures ErasedCount(alpha, mask) == 0
  {
    if alpha != [] {
      var n := |alpha| - 1;
      ErasedWhenIntact(alpha[..n], mask[..n]);
    }
  }

  /** A glyph without ink can never count an erased cell. */
  lemma {:induction false} ErasedWithoutInk(alpha: seq<Byte>, mask: seq<Byte>)
    requires |alpha| == |mask| && InkCount(alpha) == 0
    ensures ErasedCount(alpha, mask) == 0
  {
    ErasedAtMostInk(alpha, mask);
  }

  /** `erased / textPixelCount`, the wash ratio; never outside [0,1]. */
  function Progress(alpha: seq<Byte>, mask: seq<Byte>): (p: real)
    requires |alpha| == |mask|
    ensures 0.0 <= p <= 1.0
  {
    ErasedAtMostInk(alpha, mask);
    UnitRatio(ErasedCount(alpha, mask), TextPixelCount(alpha));
    ErasedCount(alpha, mask) as real / TextPixelCount(alpha) as real
  }

  lemma UnitRatio(x: nat, d: nat)
    requires x <= d && d >= 1
    ensures 0.0 <= x as real / d as real <= 1.0
  {
    assert (x as real / d as real) * d as real == x as real;
  }

  lemma ProgressMonotone(alpha: seq<Byte>, before: seq<Byte>, after: seq<Byte>)
    requires |alpha| == |before| && WornDown(before, after)
    ensures Progress(alpha, before) <= Progress(alpha, after)
  {
    ErasedMonotone(alpha, before, after);
    DivideMonotone(ErasedCount(alpha, before) as real, ErasedCount(alpha, after) as real,
                   TextPixelCount(alpha) as real);
  }

  lemma DivideMonotone(x: real, y: real, d: real)
    requires x <= y && d > 0.0
    ensures x / d <= y / d
  {
    assert y / d - x / d == (y - x) / d;
    assert (y - x) / d >= 0.0;
  }

  // ------------------------------------------------------------ erosion

  function Square(v: real): (s: real)
    ensures s >= 0.0
  {
    v * v
  }

  /** "k <= 150 - 90 * sqrt(d2 / r2)", squared so that no root is needed. */
  predicate Fits(k: int, d2: real, r2: real) {
    var room := (150 - k) as real;
    8100.0 * d2 <= (room * room) * r2
  }

  /** The largest k in [60, from] that fits. */
  function ErosionFrom(from: int, d2: real, r2: real): (e: int)
    requires 60 <= from <= 150 && 0.0 <= d2 <= r2
    ensures 60 <= e <= from
    ensures Fits(e, d2, r2)
    ensures e == from || !Fits(e + 1, d2, r2)
    decreases from
  {
    if from == 60 || Fits(from, d2, r2) then from else ErosionFrom(from - 1, d2, r2)
  }

  /** `floor(150 * (1 - 0.6 * sqrt(d2) / radius))` for a cell at squared
      distance `d2 <= r2 = radius * radius`; see ErosionIsFloor. */
  function ErosionAmount(d2: real, r2: real): (e: int)
    requires 0.0 <= d2 <= r2
    ensures 60 <= e <= 150
  {
    ErosionFrom(150, d2, r2)
  }

  lemma SquareLeMonotone(a: real, b: real)
    requires 0.0 <= a && 0.0 <= b && a * a <= b * b
    ensures a <= b
  {
    assert (b - a) * (b + a) == b * b - a * a;
    if a + b != 0.0 {
      CancelPositive(0.0, b - a, b + a);
    }
  }

  lemma SquareLtMonotone(a: real, b: real)
    requires 0.0 <= a && 0.0 <= b && a * a < b * b
    ensures a < b
  {
    assert (b - a) * (b + a) == b * b - a * a;
  }

  lemma CancelPositive(a: real, b: real, c: real)
    requires c > 0.0 && a * c <= b * c
    ensures a <= b
  {
    assert (b - a) * c == b * c - a * c;
  }

  lemma CancelPositiveStrict(a: real, b: real, c: real)
    requires c > 0.0 && a * c < b * c
    ensures a < b
  {
    assert (b - a) * c == b * c - a * c;
  }

  lemma ReachSquared(d2: real, r2: real, dist: real)
    requires d2 == (dist * dist) * r2
    ensures ((90.0 * dist) * (90.0 * dist)) * r2 == 8100.0 * d2
  {
  }

  /** From squared distances scaled by `r2` back to distances. */
  lemma RootLe(x: real, t: real, r2: real)
    requires r2 > 0.0 && 0.0 <= x && 0.0 <= t && (x * x) * r2 <= (t * t) * r2
    ensures x <= t
  {
    CancelPositive(x * x, t * t, r2);
    SquareLeMonotone(x, t);
  }

  lemma RootLt(t: real, x: real, r2: real)
    requires r2 > 0.0 && 0.0 <= x && 0.0 <= t && (t * t) * r2 < (x * x) * r2
    ensures t < x
  {
    CancelPositiveStrict(t * t, x * x, r2);
    SquareLtMonotone(t, x);
  }

  lemma FitsScaled(k: int, d2: real, r2: real, dist: real)
    requires k <= 150 && d2 == (dist * dist) * r2
    ensures Fits(k, d2, r2) <==>
      ((90.0 * dist) * (90.0 * dist)) * r2 <= ((150 - k) as real * (150 - k) as real) * r2
  {
    ReachSquared(d2, r2, dist);
  }

  lemma ErosionBelowReach(d2: real, r2: real, dist: real)
    requires r2 > 0.0 && 0.0 <= dist && d2 == (dist * dist) * r2 && d2 <= r2
    ensures ErosionAmount(d2, r2) as real <= 150.0 - 90.0 * dist
  {
    FitBelowReach(ErosionAmount(d2, r2), d2, r2, dist);
  }

  /** Any amount that fits is at most the reach. */
  lemma FitBelowReach(e: int, d2: real, r2: real, dist: real)
    requires r2 > 0.0 && 0.0 <= dist && d2 == (dist * dist) * r2 && e <= 150 && Fits(e, d2, r2)
    ensures e as real <= 150.0 - 90.0 * dist
  {
    FitsScaled(e, d2, r2, dist);
    RootLe(90.0 * dist, (150 - e) as real, r2);
  }

  lemma ErosionAboveReach(d2: real, r2: real, dist: real)
    requires r2 > 0.0 && 0.0 <= dist && d2 == (dist * dist) * r2 && d2 <= r2
    ensures 150.0 - 90.0 * dist < ErosionAmount(d2, r2) as real + 1.0
  {
    var e := ErosionAmount(d2, r2);
    if e < 150 {
      MisfitAboveReach(e + 1, d2, r2, dist);
    }
  }

  /** An amount that does not fit is above the reach. */
  lemma MisfitAboveReach(e: int, d2: real, r2: real, dist: real)
    requires r2 > 0.0 && 0.0 <= dist && d2 == (dist * dist) * r2 && e <= 150 && !Fits(e, d2, r2)
    ensures 150.0 - 90.0 * dist < e as real
  {
    FitsScaled(e, d2, r2, dist);
    RootLt((150 - e) as real, 90.0 * dist, r2);
  }

  /** The erosion amount is exactly the floor of 150 - 90 * dist where
      `dist = sqrt(d2) / radius`, which is what the source computes. */
  lemma ErosionIsFloor(d2: real, r2: real, dist: real)
    requires r2 > 0.0 && 0.0 <= dist && d2 == (dist * dist) * r2 && d2 <= r2
    ensures var e := ErosionAmount(d2, r2);
      e as real <= 150.0 - 90.0 * dist < e as real + 1.0
  {
    ErosionBelowReach(d2, r2, dist);
    ErosionAboveReach(d2, r2, dist);
  }

  /** One cell's wear after subtracting `erosion`: clamped at 0, and snapped
      to 0 when what is left is below the snap level. */
  function Worn(v: Byte, erosion: int): (w: Byte)
    requires erosion >= 0
    ensures w <= v && (w == 0 || w >= SnapBelow)
    ensures v - erosion >= SnapBelow ==> w == v - erosion
    ensures v - erosion < SnapBelow ==> w == 0
  {
    var left := Max(0, v - erosion);
    if left < SnapBelow then 0 else left
  }

  function SquaredDistance(px: int, py: int, lx: real, ly: real): (d2: real)
    ensures d2 >= 0.0
  {
    Square(px as real - lx) + Square(py as real - ly)
  }

  predicate InCircle(px: int, py: int, lx: real, ly: real, radius: real) {
    SquaredDistance(px, py, lx, ly) <= radius * radius
  }

  /** A cell's wear after an impact centred at local (lx, ly). */
  function ImpactCell(v: Byte, px: int, py: int, lx: real, ly: real, radius: real): Byte
  {
    var d2 := SquaredDistance(px, py, lx, ly);
    if d2 <= radius * radius && v > 0 then Worn(v, ErosionAmount(d2, radius * radius)) else v
  }

  /** The whole mask after an impact: every cell inside the circle is eroded. */
  function Impacted(m: seq<Byte>, lx: real, ly: real, radius: real): (r: seq<Byte>)
    requires |m| == Cells
    ensures |r| == Cells
  {
    seq(Cells, i requires 0 <= i < Cells => ImpactCell(m[i], i % Width, i / Width, lx, ly, radius))
  }

  /** Impacts only wear cells down: a painted cell inside the circle loses
      at least 60 and ends at 0 or at 30 or above; every other cell keeps its value. */
  lemma ImpactWearsDown(m: seq<Byte>, lx: real, ly: real, radius: real, i: int)
    requires |m| == Cells && 0 <= i < Cells
    ensures Impacted(m, lx, ly, radius)[i] <= m[i]
    ensures InCircle(i % Width, i / Width, lx, ly, radius) && m[i] > 0 ==>
      var w := Impacted(m, lx, ly, radius)[i];
      w as int <= m[i] as int - 60 || w == 0
    ensures InCircle(i % Width, i / Width, lx, ly, radius) && m[i] > 0 ==>
      var w := Impacted(m, lx, ly, radius)[i];
      w < m[i] && (w == 0 || w >= SnapBelow)
    ensures !InCircle(i % Width, i / Width, lx, ly, radius) || m[i] == 0 ==>
      Impacted(m, lx, ly, radius)[i] == m[i]
  {
  }

  lemma ImpactedWornDown(m: seq<Byte>, lx: real, ly: real, radius: real)
    requires |m| == Cells
    ensures WornDown(m, Impacted(m, lx, ly, radius))
  {
    forall i | 0 <= i < Cells ensures Impacted(m, lx, ly, radius)[i] <= m[i] {
      ImpactWearsDown(m, lx, ly, radius, i);
    }
  }

  /** An impact changes the mask exactly when some painted cell lies in its circle. */
  lemma ImpactChangesIff(m: seq<Byte>, lx: real, ly: real, radius: real)
    requires |m| == Cells
    ensures Impacted(m, lx, ly, radius) != m <==>
      exists i :: 0 <= i < Cells && m[i] > 0 && InCircle(i % Width, i / Width, lx, ly, radius)
  {
    var r := Impacted(m, lx, ly, radius);
    if r != m {
      var i :| 0 <= i < Cells && r[i] != m[i];
      ImpactWearsDown(m, lx, ly, radius, i);
    }
    if exists i :: 0 <= i < Cells && m[i] > 0 && InCircle(i % Width, i / Width, lx, ly, radius) {
      var i :| 0 <= i < Cells && m[i] > 0 && InCircle(i % Width, i / Width, lx, ly, radius);
      ImpactWearsDown(m, lx, ly, radius, i);
      assert r[i] != m[i];
    }
  }

  /** Once every cell is wiped, further impacts leave the mask as it is. */
  lemma ImpactOnWiped(m: seq<Byte>, lx: real, ly: real, radius: real)
    requires |m| == Cells && AllZero(m)
    ensures Impacted(m, lx, ly, radius) == m
  {
    ImpactChangesIff(m, lx, ly, radius);
  }

  // -------------------------------------------------------- range check

  /** Tile-local coordinates: the tile's top-left corner is its centre
      minus half its size; rotation plays no part. */
  function LocalX(tileX: real, hitX: real): real { hitX - (tileX - Width as real / 2.0) }
  function LocalY(tileY: real, hitY: real): real { hitY - (tileY - Height as real / 2.0) }

  /** The tile's extent grown by `radius` on every side contains the point. */
  predicate InRange(lx: real, ly: real, radius: real) {
    !(lx < -radius || lx > Width as real + radius || ly < -radius || ly > Height as real + radius)
  }

  lemma FarAxis(p: int, l: real, radius: real)
    requires radius > 0.0
    requires p as real - l > radius || l - p as real > radius
    ensures Square(p as real - l) > radius * radius
  {
    var d := p as real - l;
    if d > radius {
      assert d * d > radius * d > radius * radius;
    } else {
      assert (-d) * (-d) > radius * (-d) > radius * radius;
    }
  }

  /** The range check never discards an impact that would have worn a
      cell: outside the expanded extent no cell is in the circle. */
  lemma OutOfRangeTouchesNothing(m: seq<Byte>, lx: real, ly: real, radius: real)
    requires |m| == Cells && radius > 0.0 && !InRange(lx, ly, radius)
    ensures Impacted(m, lx, ly, radius) == m
  {
    forall i | 0 <= i < Cells ensures !InCircle(i % Width, i / Width, lx, ly, radius) {
      var px, py := i % Width, i / Width;
      if lx < -radius || lx > Width as real + radius {
        FarAxis(px, lx, radius);
      } else {
        FarAxis(py, ly, radius);
      }
    }
    ImpactChangesIff(m, lx, ly, radius);
  }

  // ----------------------------------------------------- wash and latch

  /** `recalcWash`: recompute the ratio; the first time it reaches the
      threshold, latch `isWashed`, wipe the mask and mark for redraw. */
  function Recalc(alpha: seq<Byte>, s: Surface): (t: Surface)
    requires |alpha| == |s.mask|
    ensures t.washProgress == Progress(alpha, s.mask)
    ensures t.isWashed <==> s.isWashed || t.washProgress >= WashThreshold
    ensures t.isWashed && !s.isWashed ==> t.mask == Zeros() && t.dirty
    ensures !(t.isWashed && !s.isWashed) ==> t.mask == s.mask && t.dirty == s.dirty
  {
    var p := Progress(alpha, s.mask);
    if p >= WashThreshold && !s.isWashed then Surface(Zeros(), p, true, true)
    else s.(washProgress := p)
  }

  /** `applyWater`: out of range, nothing happens and the impact reports
      false; in range it reports true, and the ratio is recomputed only
      when some cell actually changed. */
  function ApplyWater(alpha: seq<Byte>, tileX: real, tileY: real, s: Surface,
                      hitX: real, hitY: real, radius: real): (r: Impact)
    requires |alpha| == Cells && |s.mask| == Cells
    ensures r.hit <==> InRange(LocalX(tileX, hitX), LocalY(tileY, hitY), radius)
    ensures !r.hit ==> r.after == s
    ensures Impacted(s.mask, LocalX(tileX, hitX), LocalY(tileY, hitY), radius) == s.mask ==> r.after == s
    ensures r.after != s ==> r.after.dirty
    ensures |r.after.mask| == Cells
  {
    var lx, ly := LocalX(tileX, hitX), LocalY(tileY, hitY);
    if !InRange(lx, ly, radius) then Impact(false, s)
    else
      var m := Impacted(s.mask, lx, ly, radius);
      if m == s.mask then Impact(true, s)
      else Impact(true, Recalc(alpha, s.(mask := m, dirty := true)))
  }

  /** What every reachable surface satisfies. */
  ghost predicate Consistent(alpha: seq<Byte>, s: Surface) {
    && |alpha| == Cells && |s.mask| == Cells
    && 0.0 <= s.washProgress <= Progress(alpha, s.mask)
    && (s.isWashed <==> s.washProgress >= WashThreshold)
    && (s.isWashed ==> AllZero(s.mask))
  }

  /** The state of a freshly constructed tile (the initial redraw has run). */
  function Initial(): Surface {
    Surface(Full(), 0.0, false, false)
  }

  lemma InitialConsistent(alpha: seq<Byte>)
    requires |alpha| == Cells
    ensures Consistent(alpha, Initial())
  {
    ErasedWhenIntact(alpha, Full());
  }

  /** Recomputing the ratio after the cells of an unwashed surface were
      worn down gives a consistent surface with a ratio at least as high;
      if it latches, the ratio has reached the threshold and the mask is wiped. */
  lemma RecalcStep(alpha: seq<Byte>, s: Surface, m: seq<Byte>)
    requires Consistent(alpha, s) && !s.isWashed && WornDown(s.mask, m)
    ensures var t := Recalc(alpha, s.(mask := m, dirty := true));
      && Consistent(alpha, t)
      && WornDown(s.mask, t.mask)
      && s.washProgress <= t.washProgress
      && (t.isWashed ==> t.washProgress >= WashThreshold && AllZero(t.mask))
  {
    ProgressMonotone(alpha, s.mask, m);
    if Progress(alpha, m) >= WashThreshold {
      assert WornDown(m, Zeros());
      ProgressMonotone(alpha, m, Zeros());
    }
  }

  /** One impact keeps the surface consistent, never adds paint, never
      lowers the ratio and never clears the latch; a washed surface is left
      exactly as it is; and the impact that sets the latch has reached the
      threshold and leaves the mask wiped. */
  lemma ApplyWaterStep(alpha: seq<Byte>, tileX: real, tileY: real, s: Surface,
                       hitX: real, hitY: real, radius: real)
    requires Consistent(alpha, s) && radius > 0.0
    ensures var t := ApplyWater(alpha, tileX, tileY, s, hitX, hitY, radius).after;
      && Consistent(alpha, t)
      && WornDown(s.mask, t.mask)
      && s.washProgress <= t.washProgress
      && (s.isWashed ==> t == s)
      && (!s.isWashed && t.isWashed ==> t.washProgress >= WashThreshold && AllZero(t.mask))
  {
    var lx, ly := LocalX(tileX, hitX), LocalY(tileY, hitY);
    assert WornDown(s.mask, s.mask);
    if InRange(lx, ly, radius) {
      var m := Impacted(s.mask, lx, ly, radius);
      if s.isWashed {
        ImpactOnWiped(s.mask, lx, ly, radius);
      } else if m != s.mask {
        ImpactedWornDown(s.mask, lx, ly, radius);
        RecalcStep(alpha, s, m);
      }
    }
  }

  /** Impacts one after another. */
  function ApplyAll(alpha: seq<Byte>, tileX: real, tileY: real, s: Surface,
                    hits: seq<(real, real)>, radius: real): Surface
    requires |alpha| == Cells && |s.mask| == Cells
    decreases |hits|
  {
    if hits == [] then s
    else
      var t := ApplyWater(alpha, tileX, tileY, s, hits[0].0, hits[0].1, radius).after;
      ApplyAll(alpha, tileX, tileY, t, hits[1..], radius)
  }

  /** Across any run of impacts the ratio never falls and a set latch stays set. */
  lemma {:induction false} ApplyAllMonotone(alpha: seq<Byte>, tileX: real, tileY: real, s: Surface,
                                            hits: seq<(real, real)>, radius: real)
    requires Consistent(alpha, s) && radius > 0.0
    ensures var t := ApplyAll(alpha, tileX, tileY, s, hits, radius);
      Consistent(alpha, t) && s.washProgress <= t.washProgress && (s.isWashed ==> t.isWashed)
      && WornDown(s.mask, t.mask)
    decreases |hits|
  {
    if hits != [] {
      var t := ApplyWater(alpha, tileX, tileY, s, hits[0].0, hits[0].1, radius).after;
      ApplyWaterStep(alpha, tileX, tileY, s, hits[0].0, hits[0].1, radius);
      ApplyAllMonotone(alpha, tileX, tileY, t, hits[1..], radius);
    }
  }

  /** A tile whose glyph has no strong ink can never be washed. */
  lemma NoInkNeverWashes(alpha: seq<Byte>, tileX: real, tileY: real, s: Surface,
                         hits: seq<(real, real)>, radius: real)
    requires Consistent(alpha, s) && radius > 0.0 && InkCount(alpha) == 0
    ensures !ApplyAll(alpha, tileX, tileY, s, hits, radius).isWashed
  {
    var t := ApplyAll(alpha, tileX, tileY, s, hits, radius);
    ApplyAllMonotone(alpha, tileX, tileY, s, hits, radius);
    ErasedWithoutInk(alpha, t.mask);
  }
}
