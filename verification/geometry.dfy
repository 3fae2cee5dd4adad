/**
 Integer grid geometry shared by every variant of the game: points, the four
 headings, the unit step of each heading (the `DIRECTIONS` table of the
 autopilot) and the candidate pools `list(range(n))`.
 */
module Geometry {

  datatype Point = Point(x: int, y: int)

  datatype Direction = Up | Down | Left | Right

  /** The heading a snake may never turn into directly. */
  function Opposite(d: Direction): (r: Direction)
    ensures r != d
  {
    match d
    case Up => Down
    case Down => Up
    case Left => Right
    case Right => Left
  }

  /** Unit offset of a heading; y grows downwards, as on the terminal. */
  function Delta(d: Direction): (v: Point)
    ensures (v.x == 0) != (v.y == 0)
    ensures -1 <= v.x <= 1 && -1 <= v.y <= 1
  {
    match d
    case Up => Point(0, -1)
    case Down => Point(0, 1)
    case Left => Point(-1, 0)
    case Right => Point(1, 0)
  }

  /** The cell one unit away from `p` in heading `d`. */
  function Step(p: Point, d: Direction): Point
  {
    Point(p.x + Delta(d).x, p.y + Delta(d).y)
  }

  /** The cell `k` units away from `p` in heading `d`. */
  function Ray(p: Point, d: Direction, k: int): Point
  {
    match d
    case Up => Point(p.x, p.y - k)
    case Down => Point(p.x, p.y + k)
    case Left => Point(p.x - k, p.y)
    case Right => Point(p.x + k, p.y)
  }

  /** Cells sharing an edge. */
  predicate Adjacent(a: Point, b: Point)
  {
    (a.x == b.x && (a.y == b.y + 1 || a.y + 1 == b.y))
    || (a.y == b.y && (a.x == b.x + 1 || a.x + 1 == b.x))
  }

  predicate InBounds(p: Point, width: int, height: int)
  {
    0 <= p.x < width && 0 <= p.y < height
  }

  /** Every cell of `ps` lies on a `width` x `height` board. */
  predicate OnBoard(ps: seq<Point>, width: int, height: int)
  {
    forall i :: 0 <= i < |ps| ==> InBounds(ps[i], width, height)
  }

  predicate Distinct<T(==)>(s: seq<T>)
  {
    forall i, j :: 0 <= i < j < |s| ==> s[i] != s[j]
  }

  /** `list(range(n))`: 0, 1, ..., n - 1, and empty when n <= 0. */
  function Range(n: int): (r: seq<int>)
    ensures |r| == if n <= 0 then 0 else n
    ensures forall i :: 0 <= i < |r| ==> r[i] == i
  {
    seq(if n <= 0 then 0 else n, i => i)
  }

  lemma RangeMembers(n: int, v: int)
    ensures v in Range(n) <==> 0 <= v < n
  {
    if 0 <= v < n {
      assert Range(n)[v] == v;
    }
  }

  lemma RangeDistinct(n: int)
    ensures Distinct(Range(n))
  {
  }

  /** Stepping back the opposite way undoes a step, and nothing else does. */
  lemma StepBack(p: Point, d: Direction, e: Direction)
    ensures Step(Step(p, d), e) == p <==> e == Opposite(d)
  {
  }

  /** One unit along a ray is one step. */
  lemma RayStep(p: Point, d: Direction, k: int)
    ensures Ray(p, d, k + 1) == Step(Ray(p, d, k), d)
    ensures Ray(p, d, 0) == p
  {
  }

  // ---------------------------------------------------------------------------
  // How many cells a board has room for.

  lemma SubsetSize<T>(a: set<T>, b: set<T>)
    requires a <= b
    ensures |a| <= |b|
  {
    assert b == a + (b - a);
  }

  /** The cells of column `x` of a board `height` cells tall. */
  function Column(x: int, height: nat): (r: set<Point>)
    ensures |r| == height
    ensures forall p :: p in r <==> p.x == x && 0 <= p.y < height
  {
    if height == 0 then {} else Column(x, height - 1) + {Point(x, height - 1)}
  }

  /** The cells of a `width` x `height` board: as many as `width * height`. */
  function Cells(width: nat, height: nat): (r: set<Point>)
    ensures |r| == width * height
    ensures forall p :: p in r <==> InBounds(p, width, height)
  {
    if width == 0 then {}
    else
      var left, column := Cells(width - 1, height), Column(width - 1, height);
      assert left * column == {};
      assert (width - 1) * height + height == width * height;
      left + column
  }

  lemma {:induction false} DistinctSetSize<T>(s: seq<T>)
    requires Distinct(s)
    ensures |set x | x in s| == |s|
  {
    if |s| > 0 {
      DistinctSetSize(s[1..]);
      assert (set x | x in s) == (set x | x in s[1..]) + {s[0]};
      assert s[0] !in s[1..];
    }
  }

  /** Distinct cells of a board are at most as many as the board has cells. */
  lemma BoardCapacity(ps: seq<Point>, width: nat, height: nat)
    requires Distinct(ps) && OnBoard(ps, width, height)
    ensures |ps| <= width * height
  {
    DistinctSetSize(ps);
    SubsetSize((set x | x in ps), Cells(width, height));
  }

}
