/**
 * JMEGeometry: points, sizes and rectangles over 8-bit unsigned coordinates,
 * and the rectangle algebra of JMEGeometry.h, with the zero and null
 * constants of JMEGeometry.c.
 *
 * The header computes every edge as `JMEMin(origin, origin + size)` or
 * `JMEMax(origin, origin + size)`. The sum is an `int` after integer
 * promotion, so the minimum is always the origin and the maximum is
 * `origin + size`, which wraps modulo 256 only when it is stored back into a
 * `JMEGeometryUnit`. `Fits(r)` names the rects for which nothing wraps.
 */
module JMEGeometry {
  import opened JMEBase
  import opened JMEMath

  /** `JMEPoint`; `JMEPointMake(x, y)` is the constructor `Point(x, y)`. */
  datatype Point = Point(x: uint8, y: uint8)

  /** `JMESize`; `JMESizeMake(width, height)` is the constructor `Size(width, height)`. */
  datatype Size = Size(width: uint8, height: uint8)

  /** `JMEVector`; `JMEVectorMake(dx, dy)` is the constructor `Vector(dx, dy)`. */
  datatype Vector = Vector(dx: uint8, dy: uint8)

  /** `JMERect`: an origin and a size. */
  datatype Rect = Rect(origin: Point, size: Size)

  /** `JMEEdgeInsets`: declared by the header, used by no operation. */
  datatype EdgeInsets = EdgeInsets(top: uint8, left: uint8, bottom: uint8, right: uint8)

  datatype Option<T> = None | Some(value: T)

  const PointZero: Point := Point(0, 0)
  const SizeZero: Size := Size(0, 0)
  const RectZero: Rect := Rect(Point(0, 0), Size(0, 0))
  /** Initialised exactly like `RectZero`, whatever the header's comment says. */
  const RectNull: Rect := Rect(Point(0, 0), Size(0, 0))

  /** The zero constants are all-zero, the zero rect is empty, and the null rect is the zero rect. */
  lemma ZeroConstants()
    ensures PointZero == Point(0, 0) && SizeZero == Size(0, 0)
    ensures RectZero.origin == PointZero && RectZero.size == SizeZero
    ensures IsEmpty(RectZero) && IsNull(RectNull)
    ensures RectNull == RectZero
  {
  }

  /** The right and bottom edges of `r` stay below 256: no edge computation wraps. */
  predicate Fits(r: Rect)
  {
    r.origin.x + r.size.width <= 0xFF && r.origin.y + r.size.height <= 0xFF
  }

  /** `a` lies inside `b`, edges included, measured without wrap-around. */
  predicate Within(a: Rect, b: Rect)
  {
    && b.origin.x <= a.origin.x && a.origin.x + a.size.width <= b.origin.x + b.size.width
    && b.origin.y <= a.origin.y && a.origin.y + a.size.height <= b.origin.y + b.size.height
  }

  /** The pixel `p` is one of the `width * height` pixels the rect covers. */
  predicate Covers(r: Rect, p: Point)
  {
    && r.origin.x <= p.x < r.origin.x + r.size.width
    && r.origin.y <= p.y < r.origin.y + r.size.height
  }

  /** `JMERectMake(x, y, width, height)`. */
  function RectMake(x: uint8, y: uint8, width: uint8, height: uint8): (r: Rect)
    ensures GetMinX(r) == x && GetMinY(r) == y
    ensures r.size.width == width && r.size.height == height
  {
    Rect(Point(x, y), Size(width, height))
  }

  /** `JMERectGetMinX`: under integer promotion the minimum is the origin. */
  function GetMinX(rect: Rect): (v: uint8)
    ensures v == rect.origin.x
  {
    U8(Min(rect.origin.x, rect.origin.x + rect.size.width))
  }

  /** `JMERectGetMidX`: halfway along the width, rounded down. */
  function GetMidX(rect: Rect): (v: uint8)
    ensures Fits(rect) ==> GetMinX(rect) <= v <= GetMaxX(rect)
    ensures Fits(rect) ==> 2 * (v - GetMinX(rect)) + rect.size.width % 2 == rect.size.width
  {
    U8(rect.origin.x + rect.size.width / 2)
  }

  /** `JMERectGetMaxX`: `origin.x + width`, truncated to 8 bits. */
  function GetMaxX(rect: Rect): (v: uint8)
    ensures rect.origin.x + rect.size.width <= 0xFF ==> v == rect.origin.x + rect.size.width
    ensures rect.origin.x + rect.size.width > 0xFF ==> v == rect.origin.x + rect.size.width - 0x100
  {
    U8(Max(rect.origin.x, rect.origin.x + rect.size.width))
  }

  /** `JMERectGetMinY`. */
  function GetMinY(rect: Rect): (v: uint8)
    ensures v == rect.origin.y
  {
    U8(Min(rect.origin.y, rect.origin.y + rect.size.height))
  }

  /** `JMERectGetMidY`. */
  function GetMidY(rect: Rect): (v: uint8)
    ensures Fits(rect) ==> GetMinY(rect) <= v <= GetMaxY(rect)
    ensures Fits(rect) ==> 2 * (v - GetMinY(rect)) + rect.size.height % 2 == rect.size.height
  {
    U8(rect.origin.y + rect.size.height / 2)
  }

  /** `JMERectGetMaxY`. */
  function GetMaxY(rect: Rect): (v: uint8)
    ensures rect.origin.y + rect.size.height <= 0xFF ==> v == rect.origin.y + rect.size.height
    ensures rect.origin.y + rect.size.height > 0xFF ==> v == rect.origin.y + rect.size.height - 0x100
  {
    U8(Max(rect.origin.y, rect.origin.y + rect.size.height))
  }

  /** `JMEPointEqualToPoint`: component-wise equality is value equality. */
  function PointEqualToPoint(point1: Point, point2: Point): (r: bool)
    ensures r <==> point1 == point2
  {
    point1.x == point2.x && point1.y == point2.y
  }

  /** `JMESizeEqualToSize`. */
  function SizeEqualToSize(size1: Size, size2: Size): (r: bool)
    ensures r <==> size1 == size2
  {
    size1.width == size2.width && size1.height == size2.height
  }

  /** `JMERectEqualToRect`. */
  function RectEqualToRect(rect1: Rect, rect2: Rect): (r: bool)
    ensures r <==> rect1 == rect2
  {
    && rect1.origin.x == rect2.origin.x
    && rect1.origin.y == rect2.origin.y
    && rect1.size.width == rect2.size.width
    && rect1.size.height == rect2.size.height
  }

  /** `JMERectIsEmpty`: the rect covers no pixel. */
  function IsEmpty(rect: Rect): (r: bool)
    ensures r <==> rect.size.width * rect.size.height == 0
    ensures r <==> forall p: Point :: !Covers(rect, p)
  {
    if rect.size.width == 0 || rect.size.height == 0 then
      true
    else
      assert Covers(rect, rect.origin);
      false
  }

  /** `JMERectIsNull`: the same test as `JMERectIsEmpty`; there is no separate null sentinel. */
  function IsNull(rect: Rect): (r: bool)
    ensures r <==> IsEmpty(rect)
  {
    rect.size.width == 0 || rect.size.height == 0
  }

  /**
   * `JMERectInset`: adds `(dx, dy)` to the origin and takes `(2dx, 2dy)` off
   * the size, each stored back modulo 256.
   */
  function Inset(rect: Rect, dx: uint8, dy: uint8): (r: Rect)
    ensures Fits(rect) && 2 * dx <= rect.size.width ==>
      r.origin.x == rect.origin.x + dx && r.size.width == rect.size.width - 2 * dx
    ensures Fits(rect) && 2 * dy <= rect.size.height ==>
      r.origin.y == rect.origin.y + dy && r.size.height == rect.size.height - 2 * dy
  {
    Rect(Point(U8(rect.origin.x + dx), U8(rect.origin.y + dy)),
         Size(U8(rect.size.width - (dx + dx)), U8(rect.size.height - (dy + dy))))
  }

  /** An inset by zero changes nothing. */
  lemma InsetZero(rect: Rect)
    ensures Inset(rect, 0, 0) == rect
  {
  }

  /** Insetting by `(256 - dx, 256 - dy)` undoes an inset by `(dx, dy)`: the 8-bit arithmetic is a group. */
  lemma InsetUndo(rect: Rect, dx: uint8, dy: uint8)
    ensures Inset(Inset(rect, dx, dy), U8(-(dx as int)), U8(-(dy as int))) == rect
  {
    InsetUndoOrigin(rect, dx, dy);
    InsetUndoSize(rect, dx, dy);
  }

  lemma InsetUndoOrigin(rect: Rect, dx: uint8, dy: uint8)
    ensures Inset(Inset(rect, dx, dy), U8(-(dx as int)), U8(-(dy as int))).origin == rect.origin
  {
    AddThenUndo(rect.origin.x, dx);
    AddThenUndo(rect.origin.y, dy);
  }

  lemma InsetUndoSize(rect: Rect, dx: uint8, dy: uint8)
    ensures Inset(Inset(rect, dx, dy), U8(-(dx as int)), U8(-(dy as int))).size == rect.size
  {
    ShrinkThenUndo(rect.size.width, dx);
    ShrinkThenUndo(rect.size.height, dy);
  }

  lemma AddThenUndo(a: uint8, d: uint8)
    ensures U8(U8(a + d) + U8(-(d as int))) == a
  {
    U8Absorbs(a + d, U8(-(d as int)));
    if d != 0 {
      assert U8(-(d as int)) == 0x100 - d;
      ModShift(a + 0x100, 1);
    }
  }

  lemma ShrinkThenUndo(w: uint8, d: uint8)
    ensures U8(U8(w - (d + d)) - (U8(-(d as int)) + U8(-(d as int)))) == w
  {
    var e: int := U8(-(d as int));
    U8Absorbs(w - (d + d), -(e + e));
    if d != 0 {
      assert e == 0x100 - d;
      ModShift(w, 2);
    }
  }

  /** `JMERectOffset`: moves the origin back by `(dx, dy)` modulo 256; the size is untouched. */
  function Offset(rect: Rect, dx: uint8, dy: uint8): (r: Rect)
    ensures r.size == rect.size
    ensures dx <= rect.origin.x ==> r.origin.x == rect.origin.x - dx
    ensures dy <= rect.origin.y ==> r.origin.y == rect.origin.y - dy
  {
    Rect(Point(U8(rect.origin.x - dx), U8(rect.origin.y - dy)), rect.size)
  }

  /** An offset by `(256 - dx, 256 - dy)` undoes an offset by `(dx, dy)`. */
  lemma OffsetUndo(rect: Rect, dx: uint8, dy: uint8)
    ensures Offset(Offset(rect, dx, dy), U8(-(dx as int)), U8(-(dy as int))) == rect
  {
    SubThenUndo(rect.origin.x, dx);
    SubThenUndo(rect.origin.y, dy);
  }

  lemma SubThenUndo(a: uint8, d: uint8)
    ensures U8(U8(a - d) - U8(-(d as int))) == a
  {
    var e: int := U8(-(d as int));
    U8Absorbs(a - d, -(e as int));
    if d != 0 {
      assert e == 0x100 - d;
      ModShift(a, 1);
    }
  }

  /**
   * `JMERectUnion`: the rect from the smaller minimum to the larger maximum
   * edge on each axis. For rects that fit, it is the smallest rect holding
   * both.
   */
  function Union(r1: Rect, r2: Rect): (r: Rect)
    ensures Fits(r1) && Fits(r2) ==> Fits(r) && Within(r1, r) && Within(r2, r)
    ensures Fits(r1) && Fits(r2) ==> forall s: Rect :: Within(r1, s) && Within(r2, s) ==> Within(r, s)
  {
    var r1MinX, r1MaxX, r1MinY, r1MaxY := GetMinX(r1), GetMaxX(r1), GetMinY(r1), GetMaxY(r1);
    var r2MinX, r2MaxX, r2MinY, r2MaxY := GetMinX(r2), GetMaxX(r2), GetMinY(r2), GetMaxY(r2);
    var x: uint8 := Min(r1MinX, r2MinX);
    var y: uint8 := Min(r1MinY, r2MinY);
    Rect(Point(x, y), Size(U8(Max(r1MaxX, r2MaxX) - x), U8(Max(r1MaxY, r2MaxY) - y)))
  }

  /** The union of a rect with itself is that rect, wrapping rects included. */
  lemma UnionIdempotent(r: Rect)
    ensures Union(r, r) == r
  {
    U8Absorbs(r.origin.x + r.size.width, -(r.origin.x as int));
    U8Absorbs(r.origin.y + r.size.height, -(r.origin.y as int));
  }

  /** Union does not depend on the order of its arguments. */
  lemma UnionCommutes(r1: Rect, r2: Rect)
    ensures Union(r1, r2) == Union(r2, r1)
  {
  }

  /**
   * `JMERectIntersection`. It fills its result only when the minimum corner
   * of one rect lies inside the other, with that rect's minimum corner the
   * smaller on both axes; otherwise it returns an uninitialised struct,
   * modelled as `None`.
   */
  function Intersection(r1: Rect, r2: Rect): (r: Option<Rect>)
    ensures r.Some? <==> IntersectsRect(r1, r2)
  {
    var r1MinX, r1MaxX, r1MinY, r1MaxY := GetMinX(r1), GetMaxX(r1), GetMinY(r1), GetMaxY(r1);
    var r2MinX, r2MaxX, r2MinY, r2MaxY := GetMinX(r2), GetMaxX(r2), GetMinY(r2), GetMaxY(r2);
    if r1MinX <= r2MinX && r1MinY <= r2MinY && r1MaxX > r2MinX && r1MaxY > r2MinY then
      Some(Rect(Point(r2MinX, r2MinY),
                Size(U8(Min(r1MaxX, r2MaxX) - r2MinX), U8(Min(r1MaxY, r2MaxY) - r2MinY))))
    else if r2MinX <= r1MinX && r2MinY <= r1MinY && r2MaxX > r1MinX && r2MaxY > r1MinY then
      Some(Rect(Point(r1MinX, r1MinY),
                Size(U8(Min(r2MaxX, r1MaxX) - r1MinX), U8(Min(r2MaxY, r1MaxY) - r1MinY))))
    else
      None
  }

  /** The intersection, when there is one, lies inside both rects. */
  lemma IntersectionWithin(r1: Rect, r2: Rect)
    requires Fits(r1) && Fits(r2) && Intersection(r1, r2).Some?
    ensures Within(Intersection(r1, r2).value, r1) && Within(Intersection(r1, r2).value, r2)
  {
  }

  /** A non-empty rect that fits intersects itself in itself. */
  lemma IntersectionIdempotent(r: Rect)
    requires !IsEmpty(r) && Fits(r)
    ensures Intersection(r, r) == Some(r)
  {
  }

  /** `JMERectContainsPoint`: both edges inclusive, so a rect "contains" `width + 1` columns. */
  function ContainsPoint(rect: Rect, point: Point): (r: bool)
    ensures Fits(rect) ==>
      (r <==> && rect.origin.x <= point.x <= rect.origin.x + rect.size.width
              && rect.origin.y <= point.y <= rect.origin.y + rect.size.height)
  {
    GetMinX(rect) <= point.x && GetMaxX(rect) >= point.x &&
    GetMinY(rect) <= point.y && GetMaxY(rect) >= point.y
  }

  /** Both the origin and the far corner `(x + w, y + h)` of a fitting rect count as contained. */
  lemma ContainsPointBothCorners(rect: Rect)
    requires Fits(rect)
    ensures ContainsPoint(rect, rect.origin)
    ensures ContainsPoint(rect, Point(rect.origin.x + rect.size.width, rect.origin.y + rect.size.height))
  {
  }

  /**
   * `JMERectContainsRect` as written: strict comparisons, and the vertical
   * test starts from `GetMidY(rect1)`.
   */
  function ContainsRect(rect1: Rect, rect2: Rect): (r: bool)
    ensures r ==> GetMinX(rect1) < GetMinX(rect2) && GetMidY(rect1) < GetMinY(rect2)
    ensures r ==> rect1 != rect2
  {
    GetMinX(rect1) < GetMinX(rect2) && GetMaxX(rect1) > GetMaxX(rect2) &&
    GetMidY(rect1) < GetMinY(rect2) && GetMaxY(rect1) > GetMaxY(rect2)
  }

  /** No rect contains itself under the strict comparisons. */
  lemma ContainsRectIrreflexive(r: Rect)
    ensures !ContainsRect(r, r)
  {
  }

  /**
   * `JMERectIntersectsRect`: true when one of the two branches of
   * `JMERectIntersection` fires.
   */
  function IntersectsRect(rect1: Rect, rect2: Rect): (r: bool)
    ensures r ==> GetMinX(rect1) < GetMaxX(rect2) || GetMinX(rect2) < GetMaxX(rect1)
  {
    var rect1MinX, rect1MaxX, rect1MinY, rect1MaxY := GetMinX(rect1), GetMaxX(rect1), GetMinY(rect1), GetMaxY(rect1);
    var rect2MinX, rect2MaxX, rect2MinY, rect2MaxY := GetMinX(rect2), GetMaxX(rect2), GetMinY(rect2), GetMaxY(rect2);
    (rect1MinX <= rect2MinX && rect1MinY <= rect2MinY && rect1MaxX > rect2MinX && rect1MaxY > rect2MinY) ||
    (rect2MinX <= rect1MinX && rect2MinY <= rect1MinY && rect2MaxX > rect1MinX && rect2MaxY > rect1MinY)
  }

  /** Intersecting is symmetric. */
  lemma IntersectsRectSymmetric(r1: Rect, r2: Rect)
    ensures IntersectsRect(r1, r2) == IntersectsRect(r2, r1)
  {
  }

  // ---------------------------------------------------------------------
  // Overlap and containment as the header's comments describe them.

  /**
   * The overlap of two rects: the larger minimum edge to the smaller maximum
   * edge on each axis, `None` when that is empty.
   */
  function IntersectionIntended(r1: Rect, r2: Rect): (r: Option<Rect>)
    ensures Fits(r1) && Fits(r2) ==>
      forall p: Point :: (r.Some? && Covers(r.value, p)) <==> Covers(r1, p) && Covers(r2, p)
  {
    var minX, maxX := Max(GetMinX(r1), GetMinX(r2)), Min(GetMaxX(r1), GetMaxX(r2));
    var minY, maxY := Max(GetMinY(r1), GetMinY(r2)), Min(GetMaxY(r1), GetMaxY(r2));
    if minX < maxX && minY < maxY then
      var r := Rect(Point(minX, minY), Size(maxX - minX, maxY - minY));
      assert Covers(r, r.origin);
      Some(r)
    else
      None
  }

  /** Whether two rects share a pixel, by the overlap above. */
  function IntersectsRectIntended(r1: Rect, r2: Rect): (r: bool)
    ensures Fits(r1) && Fits(r2) ==> (r <==> exists p: Point :: Covers(r1, p) && Covers(r2, p))
  {
    var i := IntersectionIntended(r1, r2);
    if i.Some? then
      assert Covers(i.value, i.value.origin);
      true
    else
      false
  }

  /** Where the header's intersection answers for two non-empty rects that fit, it agrees with the overlap. */
  lemma IntersectionAgreesWhereDefined(r1: Rect, r2: Rect)
    requires Fits(r1) && Fits(r2) && !IsEmpty(r1) && !IsEmpty(r2)
    requires Intersection(r1, r2).Some?
    ensures IntersectionIntended(r1, r2) == Intersection(r1, r2)
  {
  }

  /**
   * Non-empty rects that fit and share no pixel get no intersection from
   * the header: whatever it answers is the overlap, which is then empty.
   */
  lemma DisjointHaveNoIntersection(r1: Rect, r2: Rect)
    requires Fits(r1) && Fits(r2) && !IsEmpty(r1) && !IsEmpty(r2)
    requires forall p: Point :: !(Covers(r1, p) && Covers(r2, p))
    ensures Intersection(r1, r2) == None
  {
    if Intersection(r1, r2).Some? {
      IntersectionAgreesWhereDefined(r1, r2);
      var v := IntersectionIntended(r1, r2).value;
      assert Covers(v, v.origin);
    }
  }

  /**
   * Two overlapping rects, each lower than the other on one axis, share
   * the pixel (5, 5), yet the header reports no intersection.
   */
  lemma IntersectionMissesCrossedRects()
    ensures var r1, r2 := Rect(Point(0, 5), Size(10, 10)), Rect(Point(5, 0), Size(10, 10));
      && Covers(r1, Point(5, 5)) && Covers(r2, Point(5, 5))
      && Intersection(r1, r2) == None && !IntersectsRect(r1, r2)
      && IntersectionIntended(r1, r2) == Some(Rect(Point(5, 5), Size(5, 5)))
      && IntersectsRectIntended(r1, r2)
  {
  }

  /**
   * Containment as the header's comment defines it: `rect2` is inside
   * `rect1` when their union is `rect1`; edges may touch.
   */
  function ContainsRectIntended(rect1: Rect, rect2: Rect): (r: bool)
    ensures Fits(rect1) && Fits(rect2) ==> (r <==> Union(rect1, rect2) == rect1)
    ensures Fits(rect1) && Fits(rect2) ==> (r <==> Within(rect2, rect1))
  {
    GetMinX(rect1) <= GetMinX(rect2) && GetMaxX(rect1) >= GetMaxX(rect2) &&
    GetMinY(rect1) <= GetMinY(rect2) && GetMaxY(rect1) >= GetMaxY(rect2)
  }

  /**
   * A rect strictly inside another, and a rect compared with itself: the
   * header says "not contained" to both.
   */
  lemma ContainsRectMissesInnerRect()
    ensures var outer, inner := Rect(Point(0, 0), Size(10, 10)), Rect(Point(2, 2), Size(4, 4));
      && ContainsRectIntended(outer, inner) && !ContainsRect(outer, inner)
      && ContainsRectIntended(outer, outer) && !ContainsRect(outer, outer)
  {
  }
}
