/**
 * The integer and clamping logic inside the rendering helpers: the fixed
 * slot layout of the pre-built overlay and cube quads, the mouse hit test
 * used by the GUI, and the clamping of a tank's fill level before its fluid
 * is drawn. Float constants are taken at their decimal values.
 */
module RenderHelper {
  import opened JavaInt
  import opened Wrappers

  /** The six block faces, in the order of their ids (and of `Direction.values()`). */
  datatype Direction = Down | Up | North | South | West | East

  /** `Direction.getId()`. */
  function Id(d: Direction): (id: nat)
    ensures id < 6
  {
    match d
    case Down => 0
    case Up => 1
    case North => 2
    case South => 3
    case West => 4
    case East => 5
  }

  /** `Direction.values()`. */
  const Directions: seq<Direction> := [Down, Up, North, South, West, East]

  /** `Direction.values()` lists each face once, at the position of its id. */
  lemma DirectionsById()
    ensures |Directions| == 6
    ensures forall i :: 0 <= i < 6 ==> Id(Directions[i]) == i
    ensures forall d :: d in Directions
  {
    forall d ensures d in Directions {
      assert Directions[Id(d)] == d;
    }
  }

  /** A quad as `QuadEmitter.square` describes it: the face, its corners in face coordinates, and its depth. */
  datatype Quad = Square(face: Direction, left: real, bottom: real, right: real, top: real, depth: real)

  /** The point `(u, v)` of the face lies on the quad, edges included. */
  predicate Covers(q: Quad, u: real, v: real)
  {
    q.left <= u <= q.right && q.bottom <= v <= q.top
  }

  /** The point `(u, v)` of the face lies strictly inside the quad. */
  predicate Inside(q: Quad, u: real, v: real)
  {
    q.left < u < q.right && q.bottom < v < q.top
  }

  /** Width of the overlay's border strips. */
  const W: real := 0.05

  /**
   * The `k`-th border strip of the overlay on `face`: bottom, top, left and
   * right edge. Each is flush with the face, lies within it, and is `W`
   * thick across the edge it runs along.
   */
  function OverlayQuad(face: Direction, k: nat): (q: Quad)
    requires k < 4
    ensures q.face == face && q.depth == 0.0
    ensures 0.0 <= q.left < q.right <= 1.0 && 0.0 <= q.bottom < q.top <= 1.0
    ensures k < 2 ==> q.top - q.bottom == W && q.left == 0.0 && q.right == 1.0
    ensures k >= 2 ==> q.right - q.left == W && q.bottom == W && q.top == 1.0 - W
  {
    match k
    case 0 => Square(face, 0.0, 0.0, 1.0, W, 0.0)
    case 1 => Square(face, 0.0, 1.0 - W, 1.0, 1.0, 0.0)
    case 2 => Square(face, 0.0, W, W, 1.0 - W, 0.0)
    case _ => Square(face, 1.0 - W, W, 1.0, 1.0 - W, 0.0)
  }

  /** A point of the face is on one of the four strips exactly when it is within `W` of the face's border. */
  lemma OverlayCoversBorder(face: Direction, u: real, v: real)
    requires 0.0 <= u <= 1.0 && 0.0 <= v <= 1.0
    ensures (|| Covers(OverlayQuad(face, 0), u, v) || Covers(OverlayQuad(face, 1), u, v)
             || Covers(OverlayQuad(face, 2), u, v) || Covers(OverlayQuad(face, 3), u, v))
      <==> (u <= W || u >= 1.0 - W || v <= W || v >= 1.0 - W)
  {
  }

  /** No point lies strictly inside two different strips: the strips do not overlap. */
  lemma OverlayStripsDisjoint(face: Direction, k1: nat, k2: nat, u: real, v: real)
    requires k1 < 4 && k2 < 4 && k1 != k2
    ensures !(Inside(OverlayQuad(face, k1), u, v) && Inside(OverlayQuad(face, k2), u, v))
  {
  }

  /** The slot of `OVERLAY_QUADS` holding the `k`-th strip of face `id`. */
  function OverlaySlot(id: nat, k: nat): (slot: nat)
    requires id < 6 && k < 4
    ensures slot < 24
  {
    id * 4 + k
  }

  /** Distinct (face, strip) pairs get distinct slots, and every slot is some pair's. */
  lemma OverlaySlotsBijective()
    ensures forall id1, k1, id2, k2 ::
      id1 < 6 && k1 < 4 && id2 < 6 && k2 < 4 && OverlaySlot(id1, k1) == OverlaySlot(id2, k2) ==>
        id1 == id2 && k1 == k2
    ensures forall slot :: 0 <= slot < 24 ==> OverlaySlot(slot / 4, slot % 4) == slot
  {
  }

  /**
   * The static initialiser of `OVERLAY_QUADS`: for each face in id order,
   * its four strips go to slots `id*4` to `id*4+3`. `writes` records the
   * slots in the order they are written.
   */
  method BuildOverlayQuads() returns (quads: array<Option<Quad>>, ghost writes: seq<nat>)
    ensures quads.Length == 24
    ensures forall slot :: 0 <= slot < 24 ==> quads[slot] == Some(OverlayQuad(Directions[slot / 4], slot % 4))
    ensures writes == seq(24, slot => slot)
  {
    quads := new Option<Quad>[24](_ => None);
    writes := [];
    for n := 0 to |Directions|
      invariant forall slot :: 0 <= slot < 4 * n ==> quads[slot] == Some(OverlayQuad(Directions[slot / 4], slot % 4))
      invariant forall slot :: 4 * n <= slot < 24 ==> quads[slot] == None
      invariant writes == seq(4 * n, slot => slot)
    {
      var direction := Directions[n];
      var id := Id(direction);
      assert id == n;
      for k := 0 to 4
        invariant forall slot :: 0 <= slot < 4 * n + k ==> quads[slot] == Some(OverlayQuad(Directions[slot / 4], slot % 4))
        invariant forall slot :: 4 * n + k <= slot < 24 ==> quads[slot] == None
        invariant writes == seq(4 * n + k, slot => slot)
      {
        quads[OverlaySlot(id, k)] := Some(OverlayQuad(direction, k));
        writes := writes + [OverlaySlot(id, k)];
      }
    }
  }

  /** The quad `CUBE_QUADS` keeps for `face`: flush with the face and covering exactly all of it. */
  function CubeQuad(face: Direction): (q: Quad)
    ensures q.face == face && q.depth == 0.0
    ensures forall u, v :: Covers(q, u, v) <==> 0.0 <= u <= 1.0 && 0.0 <= v <= 1.0
  {
    Square(face, 0.0, 0.0, 1.0, 1.0, 0.0)
  }

  /** The static initialiser of `CUBE_QUADS`: each face's quad goes to the slot of its id. */
  method BuildCubeQuads() returns (quads: array<Option<Quad>>, ghost writes: seq<nat>)
    ensures quads.Length == 6
    ensures forall slot :: 0 <= slot < 6 ==> quads[slot] == Some(CubeQuad(Directions[slot]))
    ensures forall d :: quads[Id(d)] == Some(CubeQuad(d))
    ensures writes == seq(6, slot => slot)
  {
    quads := new Option<Quad>[6](_ => None);
    writes := [];
    for n := 0 to |Directions|
      invariant forall slot :: 0 <= slot < n ==> quads[slot] == Some(CubeQuad(Directions[slot]))
      invariant forall slot :: n <= slot < 6 ==> quads[slot] == None
      invariant writes == seq(n, slot => slot)
    {
      var direction := Directions[n];
      quads[Id(direction)] := Some(CubeQuad(direction));
      writes := writes + [Id(direction)];
    }
    DirectionsById();
  }

  // ---------------------------------------------------------------------
  // drawFluidInTank

  /** Thickness of the tank walls. */
  const TankW: real := 0.02

  /** `Math.min` on floats. */
  function MinReal(x: real, y: real): real { if x <= y then x else y }

  /** `Math.max` on floats. */
  function MaxReal(x: real, y: real): real { if x >= y then x else y }

  /** The fill level kept inside the walls: `max(min(fill, 1 - TANK_W), TANK_W)`. */
  function ClampFill(fill: real): (clamped: real)
    ensures TankW <= clamped <= 1.0 - TankW
    ensures TankW <= fill <= 1.0 - TankW ==> clamped == fill
    ensures fill < TankW ==> clamped == TankW
    ensures fill > 1.0 - TankW ==> clamped == 1.0 - TankW
  {
    MaxReal(MinReal(fill, 1.0 - TankW), TankW)
  }

  /** Clamping never reverses the order of two fill levels. */
  lemma ClampFillMonotonic(fill1: real, fill2: real)
    requires fill1 <= fill2
    ensures ClampFill(fill1) <= ClampFill(fill2)
  {
  }

  /**
   * The heights between which the fluid is drawn. A liquid fills from the
   * bottom wall up to the fill level; a gas (`fillFromTop`) hangs from the
   * top wall down by the same amount.
   */
  method FluidHeights(fill: real, fillFromTop: bool) returns (bottomHeight: real, topHeight: real)
    ensures TankW <= bottomHeight <= topHeight <= 1.0 - TankW
    ensures topHeight - bottomHeight == ClampFill(fill) - TankW
    ensures !fillFromTop ==> bottomHeight == TankW && topHeight == ClampFill(fill)
    ensures fillFromTop ==> topHeight == 1.0 - TankW && bottomHeight == 1.0 - ClampFill(fill)
  {
    var f := fill;
    f := MinReal(f, 1.0 - TankW);
    f := MaxReal(f, TankW);
    topHeight := f;
    bottomHeight := TankW;
    if fillFromTop {
      topHeight := 1.0 - TankW;
      bottomHeight := 1.0 - f;
    }
  }

  // ---------------------------------------------------------------------
  // isPointWithinRectangle

  /** None of the four bound computations overflows. */
  predicate BoundsFit(xStart: Int32, yStart: Int32, width: Int32, height: Int32)
  {
    && -0x8000_0000 <= xStart - 1 && xStart + width + 1 < 0x8000_0000 && -0x8000_0000 <= xStart + width + 1
    && -0x8000_0000 <= yStart - 1 && yStart + height + 1 < 0x8000_0000 && -0x8000_0000 <= yStart + height + 1
  }

  /**
   * Whether the point lies within the rectangle grown by one unit on every
   * side. The bounds are computed in 32-bit int arithmetic and then widened
   * to double; when none of them overflows, the test is exactly membership
   * of the half-open grown rectangle.
   */
  function IsPointWithinRectangle(xStart: Int32, yStart: Int32, width: Int32, height: Int32, pointX: real, pointY: real): (within: bool)
    ensures BoundsFit(xStart, yStart, width, height) ==>
      (within <==>
        && (xStart - 1) as real <= pointX < (xStart + width + 1) as real
        && (yStart - 1) as real <= pointY < (yStart + height + 1) as real)
  {
    && pointX >= Wrap32(xStart - 1) as real
    && pointX < Wrap32(xStart + width + 1) as real
    && pointY >= Wrap32(yStart - 1) as real
    && pointY < Wrap32(yStart + height + 1) as real
  }

  /** The grown rectangle's lower corner is inside; its right and bottom edges are outside. */
  lemma WithinEdges(xStart: Int32, yStart: Int32, width: Int32, height: Int32, pointX: real, pointY: real)
    requires BoundsFit(xStart, yStart, width, height)
    requires width >= -1 && height >= -1
    ensures IsPointWithinRectangle(xStart, yStart, width, height, (xStart - 1) as real, (yStart - 1) as real)
    ensures !IsPointWithinRectangle(xStart, yStart, width, height, (xStart + width + 1) as real, pointY)
    ensures !IsPointWithinRectangle(xStart, yStart, width, height, pointX, (yStart + height + 1) as real)
  {
  }

  /** Every point of the rectangle itself passes the test. */
  lemma RectangleWithin(xStart: Int32, yStart: Int32, width: Int32, height: Int32, pointX: real, pointY: real)
    requires BoundsFit(xStart, yStart, width, height)
    requires xStart as real <= pointX < (xStart + width) as real
    requires yStart as real <= pointY < (yStart + height) as real
    ensures IsPointWithinRectangle(xStart, yStart, width, height, pointX, pointY)
  {
  }

  /** At the top of the int range the right bound wraps around and no point passes. */
  lemma OverflowEmptiesTest(pointX: real, pointY: real)
    ensures !IsPointWithinRectangle(0x7fff_ffff, 0, 0, 0, pointX, pointY)
  {
  }
}
