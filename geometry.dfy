/**
 * Integer grid geometry: the `Vec3d` triple of gt.py, its Manhattan
 * distance, the six axis neighbours the searches expand, and the finite
 * box of cells below a size vector.
 */
module Geometry {

  /** An integer cell or direction (gt.py `Vec3d`). */
  datatype Vec3d = Vec3d(x: int, y: int, z: int)

  const Origin := Vec3d(0, 0, 0)

  function Abs(n: int): nat { if n < 0 then -n else n }

  /** `Vec3d.manh`: the Manhattan distance; it vanishes exactly on equal cells. */
  function Manh(a: Vec3d, b: Vec3d): (d: nat)
    ensures d == 0 <==> a == b
  {
    Abs(a.x - b.x) + Abs(a.y - b.y) + Abs(a.z - b.z)
  }

  lemma ManhSymmetric(a: Vec3d, b: Vec3d)
    ensures Manh(a, b) == Manh(b, a)
  {
  }

  lemma ManhTriangle(a: Vec3d, b: Vec3d, c: Vec3d)
    ensures Manh(a, c) <= Manh(a, b) + Manh(b, c)
  {
  }

  /** Component-wise sum and difference (the tuple arithmetic of the callers). */
  function Add(a: Vec3d, b: Vec3d): Vec3d { Vec3d(a.x + b.x, a.y + b.y, a.z + b.z) }

  function Sub(a: Vec3d, b: Vec3d): (d: Vec3d)
    ensures Add(b, d) == a
    ensures Manh(d, Origin) == Manh(a, b)
  {
    Vec3d(a.x - b.x, a.y - b.y, a.z - b.z)
  }

  /** The six unit axis offsets, in the order +x, -x, +y, -y, +z, -z. */
  const UnitSteps := [Vec3d(1, 0, 0), Vec3d(-1, 0, 0), Vec3d(0, 1, 0),
                      Vec3d(0, -1, 0), Vec3d(0, 0, 1), Vec3d(0, 0, -1)]

  /**
   * `Vec3d.neighbors()`: the cell moved by each unit axis offset. These are
   * exactly the cells at Manhattan distance 1.
   */
  function Neighbors(c: Vec3d): (r: seq<Vec3d>)
    ensures |r| == 6 && forall i :: 0 <= i < 6 ==> r[i] == Add(c, UnitSteps[i])
    ensures forall n :: n in r <==> Manh(c, n) == 1
    ensures forall i, j :: 0 <= i < 6 && 0 <= j < 6 && i != j ==> r[i] != r[j]
  {
    var r := [Vec3d(c.x + 1, c.y, c.z), Vec3d(c.x - 1, c.y, c.z), Vec3d(c.x, c.y + 1, c.z),
              Vec3d(c.x, c.y - 1, c.z), Vec3d(c.x, c.y, c.z + 1), Vec3d(c.x, c.y, c.z - 1)];
    assert forall n :: Manh(c, n) == 1 ==> n in r by {
      forall n | Manh(c, n) == 1 ensures n in r {
        UnitDistance(c, n);
      }
    }
    r
  }

  /** The neighbours of `c` as a set: the cells at distance 1. */
  ghost function NeighborSet(c: Vec3d): (s: set<Vec3d>)
    ensures forall n :: n in s <==> Manh(c, n) == 1
  {
    set n | n in Neighbors(c)
  }

  /** The cells at Manhattan distance 1 differ in one coordinate, by one. */
  lemma UnitDistance(c: Vec3d, n: Vec3d)
    requires Manh(c, n) == 1
    ensures || n == Vec3d(c.x + 1, c.y, c.z) || n == Vec3d(c.x - 1, c.y, c.z)
            || n == Vec3d(c.x, c.y + 1, c.z) || n == Vec3d(c.x, c.y - 1, c.z)
            || n == Vec3d(c.x, c.y, c.z + 1) || n == Vec3d(c.x, c.y, c.z - 1)
  {
  }

  /** A unit step changes the distance to any fixed cell by exactly one. */
  lemma NeighborShiftsDistance(c: Vec3d, n: Vec3d, g: Vec3d)
    requires Manh(c, n) == 1
    ensures Manh(n, g) == Manh(c, g) + 1 || Manh(n, g) + 1 == Manh(c, g)
  {
  }

  /** Moving to a neighbour is a unit axis vector. */
  lemma StepIsUnit(c: Vec3d, n: Vec3d)
    requires n in Neighbors(c)
    ensures Sub(n, c) in UnitSteps
  {
  }

  /** The cells `0 <= x < size.x`, `0 <= y < size.y`, `0 <= z < size.z`. */
  ghost function Box(size: Vec3d): set<Vec3d>
  {
    set x, y, z | 0 <= x < size.x && 0 <= y < size.y && 0 <= z < size.z :: Vec3d(x, y, z)
  }

  lemma BoxMembership(v: Vec3d, size: Vec3d)
    ensures v in Box(size) <==> 0 <= v.x < size.x && 0 <= v.y < size.y && 0 <= v.z < size.z
  {
    if 0 <= v.x < size.x && 0 <= v.y < size.y && 0 <= v.z < size.z {
      assert v == Vec3d(v.x, v.y, v.z);
    }
  }
}
