/**
 Rules shared, line for line, by the two stand-alone scripts `snake.py` and
 `terminal-snake.py`: the starting body, the once-per-move turn gate, the
 wall rule `loop`, the tail extension of `grow`, and painting a
 column-major `field[x][y]` grid with Python's list indexing.
 */
module Classic {
  import opened Geometry
  import opened Wrappers

  /** The board and its one rule switch: does crossing an edge kill? */
  datatype Board = Board(width: int, height: int, wallsKill: bool)

  /**
   The scripts' snake. `coords` runs from the tail (index 0) to the head
   (last); `period` is `1 / speed`; the two stamps are clock readings.
   */
  datatype Snake = Snake(coords: seq<Point>, length: int, direction: Direction, alive: bool,
                         period: real, lastMove: real, lastTurn: real)

  // ---------------------------------------------------------------------------
  // The starting body.

  /**
   The constructor's list comprehension as written: the conditional
   expression binds looser than `+`, so for a left or upward start the
   coordinate is `-i`, not `start - i`.
   */
  function StartAsWritten(start: Point, d: Direction, n: int): (r: seq<Point>)
    ensures |r| == if n <= 0 then 0 else n
    ensures d == Right || d == Down ==> r == Start(start, d, n)
  {
    seq(if n <= 0 then 0 else n, i =>
      if d == Left || d == Right then Point(if d == Right then start.x + i else -i, start.y)
      else Point(start.x, if d == Down then start.y + i else -i))
  }

  /**
   The evident intent: the body starts at `start` and each later segment is
   one step further in the starting heading, so the head leads.
   */
  function Start(start: Point, d: Direction, n: int): (r: seq<Point>)
    ensures |r| == if n <= 0 then 0 else n
    ensures |r| > 0 ==> r[0] == start
    ensures forall i, j :: 0 <= i < j < |r| && j == i + 1 ==> r[j] == Step(r[i], d)
  {
    seq(if n <= 0 then 0 else n, i => Ray(start, d, i))
  }

  /**
   A three-long snake starting at (5, 5) heading left is laid out at
   x = 0, -1, -2: its tail is not at the start and its head is off the board.
   */
  lemma StartAsWrittenIgnoresStart()
    ensures StartAsWritten(Point(5, 5), Left, 3) == [Point(0, 5), Point(-1, 5), Point(-2, 5)]
    ensures Start(Point(5, 5), Left, 3) == [Point(5, 5), Point(4, 5), Point(3, 5)]
  {
  }

  /**
   The constructor: `length` segments laid out by the chosen edition of the
   comprehension, alive, and the turn gate closed until the first move
   (`last_move_time` is `-speed`, `last_direction_time` is 0). The tail is
   at the start for the corrected layout and, as written, only for right
   and down starts.
   */
  function Spawn(ed: Edition, start: Point, d: Direction, n: int, period: real): (r: Snake)
    ensures r.alive && r.direction == d && r.length == n && |r.coords| == (if n <= 0 then 0 else n)
    ensures ed == AsWritten ==> r.coords == StartAsWritten(start, d, n)
    ensures (ed == Corrected || d == Right || d == Down) && |r.coords| > 0 ==> r.coords[0] == start
    ensures period > 0.0 ==> forall e, t :: ChangeDirection(r, e, t) == r
  {
    var body := match ed
      case AsWritten => StartAsWritten(start, d, n)
      case Corrected => Start(start, d, n);
    Snake(body, n, d, true, period, -period, 0.0)
  }

  // ---------------------------------------------------------------------------
  // Turning.

  /**
   `change_direction` / `SetDirection`: a reversal is ignored; so is any
   turn after one was already taken since the last move; otherwise the
   heading changes and the turn is stamped `now`.
   */
  function ChangeDirection(s: Snake, d: Direction, now: real): (r: Snake)
    ensures d != Opposite(s.direction) && s.lastTurn <= s.lastMove ==> r == s.(direction := d, lastTurn := now)
    ensures !(d != Opposite(s.direction) && s.lastTurn <= s.lastMove) ==> r == s
  {
    if d == Right && s.direction == Left then s
    else if d == Left && s.direction == Right then s
    else if d == Up && s.direction == Down then s
    else if d == Down && s.direction == Up then s
    else if s.lastTurn > s.lastMove then s
    else s.(lastTurn := now, direction := d)
  }

  /** A burst of key presses handled in order, with no move in between. */
  function Turns(s: Snake, ds: seq<Direction>, ts: seq<real>): Snake
    requires |ds| == |ts|
    decreases |ds|
  {
    if |ds| == 0 then s else Turns(ChangeDirection(s, ds[0], ts[0]), ds[1..], ts[1..])
  }

  /** Once a turn is stamped after the last move, every further turn is ignored. */
  lemma {:induction false} LockedTurns(s: Snake, ds: seq<Direction>, ts: seq<real>)
    requires |ds| == |ts| && s.lastTurn > s.lastMove
    ensures Turns(s, ds, ts) == s
    decreases |ds|
  {
    if |ds| > 0 {
      LockedTurns(s, ds[1..], ts[1..]);
    }
  }

  /**
   Between two moves at most one turn takes effect: a burst of presses
   stamped after the last move ends either where it started or exactly
   where one of its presses alone would have led.
   */
  lemma {:induction false} BurstTurnsOnce(s: Snake, ds: seq<Direction>, ts: seq<real>)
    requires |ds| == |ts|
    requires forall i :: 0 <= i < |ts| ==> ts[i] > s.lastMove
    ensures Turns(s, ds, ts) == s
         || exists i :: 0 <= i < |ds| && Turns(s, ds, ts) == ChangeDirection(s, ds[i], ts[i])
    decreases |ds|
  {
    if |ds| > 0 {
      var s1 := ChangeDirection(s, ds[0], ts[0]);
      if s1 == s {
        BurstTurnsOnce(s, ds[1..], ts[1..]);
        if Turns(s, ds, ts) != s {
          var i :| 0 <= i < |ds[1..]| && Turns(s, ds[1..], ts[1..]) == ChangeDirection(s, ds[1..][i], ts[1..][i]);
          assert Turns(s, ds, ts) == ChangeDirection(s, ds[i + 1], ts[i + 1]);
        }
      } else {
        LockedTurns(s1, ds[1..], ts[1..]);
        assert Turns(s, ds, ts) == ChangeDirection(s, ds[0], ts[0]);
      }
    }
  }

  // ---------------------------------------------------------------------------
  // Walls.

  /** A point after `loop`, and whether it crossed an edge. */
  datatype Wrapped = Wrapped(point: Point, looped: bool)

  /**
   `loop` / `Loop`: the first of four edge tests that fails moves that one
   coordinate to the opposite edge. A point that was off the board counts
   as looped; one that was on it is left alone.
   */
  function Loop(b: Board, p: Point): (r: Wrapped)
    ensures r.looped <==> !InBounds(p, b.width, b.height)
    ensures !r.looped ==> r.point == p
    ensures p.x > b.width - 1 ==> r.point == Point(0, p.y)
    ensures p.x < 0 && p.x <= b.width - 1 ==> r.point == Point(b.width - 1, p.y)
    ensures 0 <= p.x < b.width && p.y > b.height - 1 ==> r.point == Point(p.x, 0)
    ensures 0 <= p.x < b.width && p.y < 0 && p.y <= b.height - 1 ==> r.point == Point(p.x, b.height - 1)
  {
    if p.x > b.width - 1 then Wrapped(Point(0, p.y), true)
    else if p.x < 0 then Wrapped(Point(b.width - 1, p.y), true)
    else if p.y > b.height - 1 then Wrapped(Point(p.x, 0), true)
    else if p.y < 0 then Wrapped(Point(p.x, b.height - 1), true)
    else Wrapped(p, false)
  }

  /** The cell the head is headed for, before `loop`. */
  function Ahead(s: Snake): Point
    requires |s.coords| > 0
  {
    Step(s.coords[|s.coords| - 1], s.direction)
  }

  /** Whether the wall rule lets a snake live through this `loop`. */
  predicate Survives(b: Board, w: Wrapped)
  {
    !(b.wallsKill && w.looped)
  }

  /** The torus cell of a point, by remainders: the reference `loop` is checked against. */
  function Wrap(b: Board, p: Point): Point
    requires b.width > 0 && b.height > 0
  {
    Point(p.x % b.width, p.y % b.height)
  }

  lemma ModOfNear(v: int, n: int)
    requires n > 0 && -1 <= v <= n
    ensures v % n == if v < 0 then n - 1 else if v == n then 0 else v
  {
    if v < 0 {
      assert v == (-1) * n + (n - 1);
    } else if v == n {
      assert v == 1 * n + 0;
    } else {
      assert v == 0 * n + v;
    }
  }

  /**
   From a cell of the board, a step followed by `loop` is the step on a
   torus, and it lands on the board.
   */
  lemma LoopIsTorusStep(b: Board, q: Point, d: Direction)
    requires b.width > 0 && b.height > 0 && InBounds(q, b.width, b.height)
    ensures Loop(b, Step(q, d)).point == Wrap(b, Step(q, d))
    ensures InBounds(Loop(b, Step(q, d)).point, b.width, b.height)
  {
    var p := Step(q, d);
    ModOfNear(p.x, b.width);
    ModOfNear(p.y, b.height);
  }

  /** Whether `n` is one torus step from `a`. */
  predicate Joined(b: Board, a: Point, n: Point)
  {
    Loop(b, Step(a, Up)).point == n || Loop(b, Step(a, Down)).point == n
    || Loop(b, Step(a, Left)).point == n || Loop(b, Step(a, Right)).point == n
  }

  /** Every segment is one torus step from the one before it. */
  ghost predicate Chain(b: Board, ps: seq<Point>)
  {
    forall i, j :: 0 <= i < j < |ps| && j == i + 1 ==> Joined(b, ps[i], ps[j])
  }

  /** Undoing a torus step: the opposite step from where it landed comes back. */
  lemma LoopStepBack(b: Board, a: Point, d: Direction)
    requires b.width > 0 && b.height > 0 && InBounds(a, b.width, b.height)
    ensures Loop(b, Step(Loop(b, Step(a, d)).point, Opposite(d))).point == a
  {
    if d == Left || d == Right {
      LoopStepBackAcross(b, a, d);
    } else {
      LoopStepBackAlong(b, a, d);
    }
  }

  lemma LoopStepBackAcross(b: Board, a: Point, d: Direction)
    requires b.width > 0 && b.height > 0 && InBounds(a, b.width, b.height) && (d == Left || d == Right)
    ensures Loop(b, Step(Loop(b, Step(a, d)).point, Opposite(d))).point == a
  {
    var q := Loop(b, Step(a, d)).point;
    assert q.y == a.y && 0 <= q.x < b.width;
    var back := Step(q, Opposite(d));
    assert back.y == a.y;
    if d == Right {
      assert back.x == (if a.x == b.width - 1 then -1 else a.x);
    } else {
      assert back.x == (if a.x == 0 then b.width else a.x);
    }
  }

  lemma LoopStepBackAlong(b: Board, a: Point, d: Direction)
    requires b.width > 0 && b.height > 0 && InBounds(a, b.width, b.height) && (d == Up || d == Down)
    ensures Loop(b, Step(Loop(b, Step(a, d)).point, Opposite(d))).point == a
  {
    var q := Loop(b, Step(a, d)).point;
    assert q.x == a.x && 0 <= q.y < b.height;
    var back := Step(q, Opposite(d));
    assert back.x == a.x;
    if d == Down {
      assert back.y == (if a.y == b.height - 1 then -1 else a.y);
    } else {
      assert back.y == (if a.y == 0 then b.height else a.y);
    }
  }

  // ---------------------------------------------------------------------------
  // Growing.

  /**
   The tail extension of `grow` as written: from the tail `a` away from the
   next segment `n`, judged by comparing raw coordinates. Next to a plain
   neighbour it continues the line; on `a == n` it stays put.
   */
  function ExtendAsWritten(a: Point, n: Point): (t: Point)
    ensures Adjacent(a, n) ==> Step(t, DirectionOf(a, n)) == a && t != n
    ensures a == n ==> t == a
  {
    if a.x < n.x then Point(a.x - 1, a.y)
    else if a.y < n.y then Point(a.x, a.y - 1)
    else if a.x > n.x then Point(a.x + 1, a.y)
    else if a.y > n.y then Point(a.x, a.y + 1)
    else a
  }

  /** The heading from `a` to a neighbour `n`. */
  function DirectionOf(a: Point, n: Point): (d: Direction)
    requires Adjacent(a, n)
    ensures Step(a, d) == n
  {
    if n.x > a.x then Right else if n.x < a.x then Left else if n.y > a.y then Down else Up
  }

  /**
   `grow` / `Grow` as written: one more unit of length, the extended cell
   (after `loop`) put in front of the tail, and the snake killed if that
   cell crossed a wall on a board whose walls kill.
   */
  function GrowAsWritten(b: Board, s: Snake): (r: Snake)
    requires |s.coords| >= 2
    ensures r.length == s.length + 1 && |r.coords| == |s.coords| + 1 && r.coords[1..] == s.coords
    ensures r.coords[0] == Loop(b, ExtendAsWritten(s.coords[0], s.coords[1])).point
    ensures r.alive == (s.alive && Survives(b, Loop(b, ExtendAsWritten(s.coords[0], s.coords[1]))))
    ensures r == s.(coords := r.coords, length := r.length, alive := r.alive)
  {
    var w := Loop(b, ExtendAsWritten(s.coords[0], s.coords[1]));
    s.(length := s.length + 1,
       alive := if !Survives(b, w) then false else s.alive,
       coords := [w.point] + s.coords)
  }

  /**
   The torus heading from the tail `a` to the next segment `n`, tried in
   the order the tests of `grow` imply (right, down, left, up).
   */
  function TrailOf(b: Board, a: Point, n: Point): (r: Option<Direction>)
    ensures r.Some? ==> Loop(b, Step(a, r.value)).point == n
    ensures r.None? <==> !Joined(b, a, n)
  {
    if Loop(b, Step(a, Right)).point == n then Some(Right)
    else if Loop(b, Step(a, Down)).point == n then Some(Down)
    else if Loop(b, Step(a, Left)).point == n then Some(Left)
    else if Loop(b, Step(a, Up)).point == n then Some(Up)
    else None
  }

  /**
   The evident intent of `grow`: the new tail is the torus cell behind the
   old one, on the line from the next segment through the tail, and eating
   never kills.
   */
  function Grow(b: Board, s: Snake): (r: Snake)
    requires |s.coords| >= 2
    ensures r.length == s.length + 1 && |r.coords| == |s.coords| + 1 && r.coords[1..] == s.coords
    ensures r == s.(coords := r.coords, length := r.length)
    ensures (b.width > 0 && b.height > 0 && InBounds(s.coords[0], b.width, b.height)
             && Joined(b, s.coords[0], s.coords[1])) ==> Joined(b, r.coords[0], s.coords[0])
    ensures (b.width >= 3 && b.height >= 3 && InBounds(s.coords[0], b.width, b.height)
             && Joined(b, s.coords[0], s.coords[1])) ==>
      TrailOf(b, r.coords[0], s.coords[0]) == TrailOf(b, s.coords[0], s.coords[1]) && r.coords[0] != s.coords[1]
  {
    BehindJoins(b, s.coords[0], s.coords[1]);
    BehindContinuesLine(b, s.coords[0], s.coords[1]);
    s.(length := s.length + 1, coords := [Behind(b, s.coords[0], s.coords[1])] + s.coords)
  }

  /** The torus cell behind the tail `a`, seen from the next segment `n`. */
  function Behind(b: Board, a: Point, n: Point): Point
  {
    match TrailOf(b, a, n)
    case Some(d) => Loop(b, Step(a, Opposite(d))).point
    case None => a
  }

  lemma BehindJoins(b: Board, a: Point, n: Point)
    ensures b.width > 0 && b.height > 0 && InBounds(a, b.width, b.height) && Joined(b, a, n)
      ==> Joined(b, Behind(b, a, n), a)
  {
    if b.width > 0 && b.height > 0 && InBounds(a, b.width, b.height) && Joined(b, a, n) {
      var d := TrailOf(b, a, n).value;
      LoopStepBack(b, a, Opposite(d));
      assert Opposite(Opposite(d)) == d;
    }
  }

  /**
   Which reading of a defective line a definition follows: the code as
   written, or what it evidently means.
   */
  datatype Edition = AsWritten | Corrected

  /** `grow` in the chosen edition. */
  function GrowIn(ed: Edition, b: Board, s: Snake): (r: Snake)
    requires |s.coords| >= 2
    ensures r.length == s.length + 1 && |r.coords| == |s.coords| + 1 && r.coords[1..] == s.coords
    ensures r == s.(coords := r.coords, length := r.length, alive := r.alive)
    ensures !s.alive ==> !r.alive
  {
    match ed
    case AsWritten => GrowAsWritten(b, s)
    case Corrected => Grow(b, s)
  }

  /** On a board at least 3 x 3, the four torus steps from a board cell land on four different cells. */
  lemma TorusStepsDistinct(b: Board, q: Point, d1: Direction, d2: Direction)
    requires b.width >= 3 && b.height >= 3 && InBounds(q, b.width, b.height) && d1 != d2
    ensures Loop(b, Step(q, d1)).point != Loop(b, Step(q, d2)).point
  {
    var p1, p2 := Loop(b, Step(q, d1)).point, Loop(b, Step(q, d2)).point;
    assert Delta(d1) != Delta(d2);
    assert p1.x == q.x || p1.y == q.y;
  }

  /**
   On a board at least 3 x 3 the cell behind the tail continues the line
   from the next segment through the tail, so it is never that segment.
   */
  lemma BehindContinuesLine(b: Board, a: Point, n: Point)
    ensures b.width >= 3 && b.height >= 3 && InBounds(a, b.width, b.height) && Joined(b, a, n) ==>
      TrailOf(b, Behind(b, a, n), a) == TrailOf(b, a, n) && Behind(b, a, n) != n
  {
    if b.width >= 3 && b.height >= 3 && InBounds(a, b.width, b.height) && Joined(b, a, n) {
      BehindStraight(b, a, n);
    }
  }

  lemma BehindStraight(b: Board, a: Point, n: Point)
    requires b.width >= 3 && b.height >= 3 && InBounds(a, b.width, b.height) && Joined(b, a, n)
    ensures TrailOf(b, Behind(b, a, n), a) == TrailOf(b, a, n)
    ensures Behind(b, a, n) != n
  {
    var d := TrailOf(b, a, n).value;
    var t := Behind(b, a, n);
    assert t == Loop(b, Step(a, Opposite(d))).point;
    BehindOnBoard(b, a, n);
    LoopStepBack(b, a, Opposite(d));
    assert Opposite(Opposite(d)) == d;
    assert Loop(b, Step(t, d)).point == a;
    forall e | e != d
      ensures Loop(b, Step(t, e)).point != a
    {
      TorusStepsDistinct(b, t, e, d);
    }
    TorusStepsDistinct(b, a, Opposite(d), d);
  }

  /** The cell behind a board cell is a board cell. */
  lemma BehindOnBoard(b: Board, a: Point, n: Point)
    requires b.width > 0 && b.height > 0 && InBounds(a, b.width, b.height)
    ensures InBounds(Behind(b, a, n), b.width, b.height)
  {
    match TrailOf(b, a, n)
    case Some(d) => LoopIsTorusStep(b, a, Opposite(d));
    case None =>
  }

  /** The corrected growth keeps a body of board cells, each a torus step from the one before, such a body. */
  lemma GrowKeepsChain(b: Board, s: Snake)
    requires |s.coords| >= 2 && b.width > 0 && b.height > 0
    requires OnBoard(s.coords, b.width, b.height) && Chain(b, s.coords)
    ensures OnBoard(Grow(b, s).coords, b.width, b.height)
    ensures Chain(b, Grow(b, s).coords)
  {
    var r := Grow(b, s).coords;
    var a, n := s.coords[0], s.coords[1];
    assert r[0] == Behind(b, a, n);
    assert InBounds(a, b.width, b.height);
    BehindOnBoard(b, a, n);
    forall i | 0 <= i < |r|
      ensures InBounds(r[i], b.width, b.height)
    {
      if i > 0 {
        assert r[i] == r[1..][i - 1] == s.coords[i - 1];
      }
    }
    assert Joined(b, a, n);
    forall i, j | 0 <= i < j < |r| && j == i + 1
      ensures Joined(b, r[i], r[j])
    {
      if i > 0 {
        assert r[i] == r[1..][i - 1] == s.coords[i - 1];
        assert r[j] == r[1..][j - 1] == s.coords[j - 1];
      }
    }
  }

  /**
   A snake that has just wrapped leftwards, tail in column 0 and next
   segment in the last column, grows its new tail onto that next segment;
   the corrected growth puts it behind the tail, in column 1. (For example a
   4 x 3 board and the body (0, 0), (3, 0), (2, 0) heading left.)
   */
  lemma GrowAsWrittenFoldsOntoBody(b: Board, s: Snake, y: int)
    requires b.width >= 3 && 0 <= y < b.height && |s.coords| >= 2
    requires s.coords[0] == Point(0, y) && s.coords[1] == Point(b.width - 1, y)
    ensures Joined(b, s.coords[0], s.coords[1])
    ensures GrowAsWritten(b, s).coords[0] == s.coords[1]
    ensures Grow(b, s).coords[0] == Point(1, y)
  {
    var a, n := s.coords[0], s.coords[1];
    assert ExtendAsWritten(a, n) == Point(-1, y);
    assert Loop(b, Point(-1, y)).point == n;
    assert Loop(b, Step(a, Right)).point == Point(1, y);
    assert Loop(b, Step(a, Down)).point.x == 0;
    assert TrailOf(b, a, n) == Some(Left);
  }

  /**
   On a board whose walls kill, eating while the tail sits in column 0 and
   the body runs right kills the snake; the corrected growth does not. (For
   example a 4 x 3 board and the body (0, 1), (1, 1), (2, 1) heading right.)
   */
  lemma GrowAsWrittenKillsAtWall(b: Board, s: Snake, y: int)
    requires b.wallsKill && b.width >= 2 && 0 <= y < b.height && |s.coords| >= 2 && s.alive
    requires s.coords[0] == Point(0, y) && s.coords[1] == Point(1, y)
    ensures Joined(b, s.coords[0], s.coords[1])
    ensures !GrowAsWritten(b, s).alive
    ensures Grow(b, s).alive
  {
    assert Loop(b, Step(s.coords[0], Right)).point == s.coords[1];
  }

  // ---------------------------------------------------------------------------
  // Painting the grid.

  /** What a grid cell shows. */
  datatype Cell = Blank | BodyCell | HeadCell | TailCell | FoodCell

  /** `field[x][y]`: a list of columns. */
  type Field = seq<seq<Cell>>

  /** Every column of the grid has `h` cells. */
  predicate Shaped(f: Field, h: int)
  {
    forall x :: 0 <= x < |f| ==> |f[x]| == h
  }

  /**
   Python's list index: a negative index counts from the end; anything
   outside `-n .. n - 1` raises.
   */
  function PyIndex(i: int, n: int): (r: Option<int>)
    ensures r.Some? <==> -n <= i < n
    ensures r.Some? ==> 0 <= r.value < n && (r.value == i || r.value == i + n)
  {
    if 0 <= i < n then Some(i) else if -n <= i < 0 then Some(i + n) else None
  }

  /** The grid cell `field[p.x][p.y]` names, if any. */
  function Slot(p: Point, w: int, h: int): (r: Option<Point>)
    ensures r.Some? ==> InBounds(r.value, w, h)
    ensures InBounds(p, w, h) ==> r == Some(p)
  {
    match (PyIndex(p.x, w), PyIndex(p.y, h))
    case (Some(x), Some(y)) => Some(Point(x, y))
    case _ => None
  }

  /** A `w` x `h` grid showing `c` everywhere. */
  function Filled(w: int, h: int, c: Cell): (f: Field)
    ensures |f| == (if w <= 0 then 0 else w) && Shaped(f, if h <= 0 then 0 else h)
    ensures forall x, y :: 0 <= x < |f| && 0 <= y < |f[x]| ==> f[x][y] == c
  {
    seq(if w <= 0 then 0 else w, x => seq(if h <= 0 then 0 else h, y => c))
  }

  /** `field[p.x][p.y] = c`, or the IndexError it raises. */
  function Paint(f: Field, h: nat, p: Point, c: Cell): (r: Option<Field>)
    requires Shaped(f, h)
    ensures r.Some? <==> Slot(p, |f|, h).Some?
    ensures r.Some? ==> |r.value| == |f| && Shaped(r.value, h)
    ensures r.Some? ==> forall x, y :: 0 <= x < |f| && 0 <= y < h ==>
      r.value[x][y] == if Slot(p, |f|, h) == Some(Point(x, y)) then c else f[x][y]
  {
    match Slot(p, |f|, h)
    case Some(q) => Some(f[q.x := f[q.x][q.y := c]])
    case None => None
  }

  /** Whether some point of `ps` names grid cell `q`. */
  predicate Covers(ps: seq<Point>, q: Point, w: int, h: int)
  {
    exists i :: 0 <= i < |ps| && Slot(ps[i], w, h) == Some(q)
  }

  /**
   `for x, y in coords: field[x][y] = c`: every named cell shows `c`, the
   rest keep what they showed; the first point outside the grid raises.
   */
  function PaintAll(f: Field, h: nat, ps: seq<Point>, c: Cell): (r: Option<Field>)
    requires Shaped(f, h)
    ensures r.Some? <==> forall i :: 0 <= i < |ps| ==> Slot(ps[i], |f|, h).Some?
    ensures r.Some? ==> |r.value| == |f| && Shaped(r.value, h)
    ensures r.Some? ==> forall x, y :: 0 <= x < |f| && 0 <= y < h ==>
      r.value[x][y] == if Covers(ps, Point(x, y), |f|, h) then c else f[x][y]
    decreases |ps|
  {
    if |ps| == 0 then Some(f)
    else
      match Paint(f, h, ps[0], c)
      case None => None
      case Some(g) =>
        SlotsUnfold(ps, |f|, h);
        CoversUnfold(ps, |f|, h);
        PaintAll(g, h, ps[1..], c)
  }

  /** Every point of a non-empty `ps` names a cell iff its head does and every point of its tail does. */
  lemma SlotsUnfold(ps: seq<Point>, w: int, h: int)
    requires |ps| > 0
    ensures (forall i :: 0 <= i < |ps| ==> Slot(ps[i], w, h).Some?) <==>
      Slot(ps[0], w, h).Some? && forall i :: 0 <= i < |ps[1..]| ==> Slot(ps[1..][i], w, h).Some?
  {
    if forall i :: 0 <= i < |ps[1..]| ==> Slot(ps[1..][i], w, h).Some? {
      forall i | 1 <= i < |ps|
        ensures Slot(ps[i], w, h).Some?
      {
        assert ps[i] == ps[1..][i - 1];
      }
    }
  }

  /** A non-empty `ps` covers a cell iff its head names it or its tail covers it. */
  lemma CoversUnfold(ps: seq<Point>, w: int, h: int)
    requires |ps| > 0
    ensures forall q :: Covers(ps, q, w, h) <==> Slot(ps[0], w, h) == Some(q) || Covers(ps[1..], q, w, h)
  {
    forall q | Covers(ps[1..], q, w, h)
      ensures Covers(ps, q, w, h)
    {
      var i :| 0 <= i < |ps[1..]| && Slot(ps[1..][i], w, h) == Some(q);
      assert Slot(ps[i + 1], w, h) == Some(q);
    }
    forall q | Covers(ps, q, w, h) && Slot(ps[0], w, h) != Some(q)
      ensures Covers(ps[1..], q, w, h)
    {
      var i :| 0 <= i < |ps| && Slot(ps[i], w, h) == Some(q);
      assert ps[1..][i - 1] == ps[i];
    }
  }
}
