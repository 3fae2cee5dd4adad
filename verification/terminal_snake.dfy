/**
 The second stand-alone script, `terminal-snake.py`: the same body, turn
 gate, wall rule and growth as `snake.py`, but a move that checks for a
 collision before stepping, a food search that keeps drawing random cells
 until one is free, and a persistent grid from which each redraw erases
 only the snake.

 Clock readings are parameters. The unbounded food search is given a number
 of draws to make (`fuel`); running out of fuel stands for the script
 drawing forever.
 */
module TerminalSnake {
  import opened Geometry
  import opened Wrappers
  import opened Classic

  /** The script's state: board, snake, food and the persistent grid. */
  datatype Game = Game(board: Board, snake: Snake, food: Point, field: Field)

  /** The grid matches the board: `width` columns of `height` cells. */
  predicate Fits(g: Game)
  {
    g.board.width > 0 && g.board.height > 0
    && |g.field| == g.board.width && Shaped(g.field, g.board.height)
  }

  // ---------------------------------------------------------------------------
  // Food.

  /** Draw number `k` of the food search: `[randint(0, w - 1), randint(0, h - 1)]`. */
  function Draw(b: Board, roll: nat -> nat, k: nat): (p: Point)
    requires b.width > 0 && b.height > 0
    ensures InBounds(p, b.width, b.height)
  {
    Point(roll(2 * k) % b.width, roll(2 * k + 1) % b.height)
  }

  /**
   `Field.CreateFood`: draw cells until one is off the body. Within `fuel`
   draws from draw `k`, the result is the first free draw; it is nothing
   exactly when every one of those draws hit the body, which on a full board
   is every time.
   */
  function CreateFood(b: Board, body: seq<Point>, roll: nat -> nat, k: nat, fuel: nat): (r: Option<Point>)
    requires b.width > 0 && b.height > 0
    ensures r.Some? ==> InBounds(r.value, b.width, b.height) && r.value !in body
    ensures r.Some? ==> exists j :: (k <= j < k + fuel && Draw(b, roll, j) == r.value
                                     && forall i :: k <= i < j ==> Draw(b, roll, i) in body)
    ensures r.None? <==> forall i :: k <= i < k + fuel ==> Draw(b, roll, i) in body
    decreases fuel
  {
    if fuel == 0 then None
    else if Draw(b, roll, k) !in body then Some(Draw(b, roll, k))
    else
      var r := CreateFood(b, body, roll, k + 1, fuel - 1);
      assert r.None? ==> forall i :: k <= i < k + fuel ==> Draw(b, roll, i) in body by {
        if r.None? {
          forall i | k <= i < k + fuel
            ensures Draw(b, roll, i) in body
          {
            if i > k {
              assert k + 1 <= i < k + 1 + (fuel - 1);
            }
          }
        }
      }
      r
  }

  /** On a full board the search never ends, however many draws it makes. */
  lemma FullBoardSpins(b: Board, body: seq<Point>, roll: nat -> nat, k: nat, fuel: nat)
    requires b.width > 0 && b.height > 0
    requires forall p :: InBounds(p, b.width, b.height) ==> p in body
    ensures CreateFood(b, body, roll, k, fuel) == None
  {
  }

  // ---------------------------------------------------------------------------
  // The opening.

  /**
   The opening as written: `Field.__init__` builds a blank grid and runs the
   food search while `snakeCoords` is still empty, so the first draw is
   taken whatever the snake built afterwards covers. On an empty board
   `randint(0, -1)` raises.
   */
  function OpenAsWritten(b: Board, s: Snake, roll: nat -> nat): (r: Option<Game>)
    ensures r.Some? <==> b.width > 0 && b.height > 0
    ensures r.Some? ==> (&& r.value.board == b && r.value.snake == s && Fits(r.value)
                         && r.value.food == Draw(b, roll, 0))
    ensures r.Some? ==> forall x, y :: 0 <= x < b.width && 0 <= y < b.height ==>
      r.value.field[x][y] == if Point(x, y) == r.value.food then FoodCell else Blank
  {
    if b.width > 0 && b.height > 0 then
      var p := CreateFood(b, [], roll, 0, 1).value;
      Some(Game(b, s, p, PlaceFood(Filled(b.width, b.height, Blank), b, p)))
    else None
  }

  /**
   The opening with the food searched against the starting body: the food
   is a free board cell, and the search settles within `fuel` draws unless
   every one of them hits the body.
   */
  function Open(b: Board, s: Snake, roll: nat -> nat, fuel: nat): (r: Option<Game>)
    ensures r.None? <==> !(b.width > 0 && b.height > 0) || forall i :: 0 <= i < fuel ==> Draw(b, roll, i) in s.coords
    ensures r.Some? ==> (&& r.value.board == b && r.value.snake == s && Fits(r.value)
                         && InBounds(r.value.food, b.width, b.height) && r.value.food !in s.coords)
    ensures r.Some? ==> forall x, y :: 0 <= x < b.width && 0 <= y < b.height ==>
      r.value.field[x][y] == if Point(x, y) == r.value.food then FoodCell else Blank
  {
    if b.width > 0 && b.height > 0 then
      match CreateFood(b, s.coords, roll, 0, fuel)
      case Some(p) => Some(Game(b, s, p, PlaceFood(Filled(b.width, b.height, Blank), b, p)))
      case None => None
    else None
  }

  /**
   When the first draw is (0, 0), the opening as written puts the food
   under a snake whose tail starts there (for example one spawned at (0, 0)
   heading right); the corrected opening never does.
   */
  lemma OpenAsWrittenCanFeedOnSnake(b: Board, s: Snake, roll: nat -> nat)
    requires b.width > 0 && b.height > 0 && |s.coords| > 0 && s.coords[0] == Point(0, 0)
    requires roll(0) == 0 && roll(1) == 0
    ensures OpenAsWritten(b, s, roll).Some? && OpenAsWritten(b, s, roll).value.food == Point(0, 0)
    ensures OpenAsWritten(b, s, roll).value.food in s.coords
  {
    assert Draw(b, roll, 0) == Point(0, 0);
  }

  // ---------------------------------------------------------------------------
  // Moving.

  /**
   `IsAlive`: the snake lives exactly when its current head is on no other
   segment. It overwrites any earlier verdict.
   */
  function IsAlive(s: Snake): (r: Snake)
    requires |s.coords| > 0
    ensures r.alive <==> forall i :: 0 <= i < |s.coords| - 1 ==> s.coords[i] != s.coords[|s.coords| - 1]
    ensures r == s.(alive := r.alive)
  {
    s.(alive := s.coords[|s.coords| - 1] !in s.coords[..|s.coords| - 1])
  }

  /**
   The step part of `Move`: `IsAlive` on the body as it stands, then the
   head advanced with `loop` and the tail dropped; the wall rule can still
   kill.
   */
  function Stride(b: Board, s: Snake): (r: Snake)
    requires |s.coords| > 0
    ensures r.coords == s.coords[1..] + [Loop(b, Ahead(s)).point]
    ensures r.alive <==> IsAlive(s).alive && Survives(b, Loop(b, Ahead(s)))
    ensures r == s.(coords := r.coords, alive := r.alive)
  {
    var checked := IsAlive(s);
    var w := Loop(b, Ahead(s));
    checked.(alive := checked.alive && Survives(b, w), coords := s.coords[1..] + [w.point])
  }

  /** How a move ended. `Spinning` is a food search that never finds a cell. */
  datatype Phase = Waiting | Stepped | Over | Spinning

  datatype Report = Report(game: Game, phase: Phase)

  /**
   `Snake.Move` at clock reading `now`: nothing until a period has passed;
   then the collision test on the body as it stands, the step with `loop`,
   and the end of the game if either the test or a killing wall says so;
   otherwise growth and a new painted food if the food is on the body, and
   the move stamped.
   */
  function Move(ed: Edition, g: Game, now: real, roll: nat -> nat, fuel: nat): (r: Report)
    requires Fits(g) && |g.snake.coords| >= 2
    ensures r.phase == Waiting <==> now - g.snake.lastMove < g.snake.period
    ensures r.phase == Waiting ==> r.game == g
    ensures r.game.board == g.board && Fits(r.game) && r.game.snake.period == g.snake.period
    ensures r.phase != Waiting ==> (r.phase == Over <==> !Stride(g.board, g.snake).alive)
    ensures r.phase != Waiting ==> (r.game.snake.direction == g.snake.direction
      && (r.game.snake.coords == Stride(g.board, g.snake).coords
          || (|r.game.snake.coords| > 0 && r.game.snake.coords[1..] == Stride(g.board, g.snake).coords)))
    ensures r.phase == Stepped ==> r.game.snake.lastMove == now
    ensures r.phase == Over ==> r.game == g.(snake := Stride(g.board, g.snake))
    ensures r.phase != Waiting && Stride(g.board, g.snake).alive && g.food !in Stride(g.board, g.snake).coords ==>
      r == Report(g.(snake := Stride(g.board, g.snake).(lastMove := now)), Stepped)
    ensures r.phase == Spinning ==>
      (&& Stride(g.board, g.snake).alive && g.food in Stride(g.board, g.snake).coords
       && r.game.food == g.food && r.game.field == g.field
       && CreateFood(g.board, r.game.snake.coords, roll, 0, fuel) == None)
    ensures r.phase != Waiting && Stride(g.board, g.snake).alive && g.food in Stride(g.board, g.snake).coords ==>
      r.game.snake == if r.phase == Stepped then GrowIn(ed, g.board, Stride(g.board, g.snake)).(lastMove := now)
                      else GrowIn(ed, g.board, Stride(g.board, g.snake))
  {
    var s := g.snake;
    if now - s.lastMove < s.period then Report(g, Waiting)
    else
      var stepped := Stride(g.board, s);
      if !stepped.alive then Report(g.(snake := stepped), Over)
      else if g.food in stepped.coords then
        var grown := GrowIn(ed, g.board, stepped);
        match CreateFood(g.board, grown.coords, roll, 0, fuel)
        case None => Report(g.(snake := grown), Spinning)
        case Some(p) => Report(Game(g.board, grown.(lastMove := now), p, PlaceFood(g.field, g.board, p)), Stepped)
      else Report(g.(snake := stepped.(lastMove := now)), Stepped)
  }

  /** The food write of `CreateFood`: the grid with the food's cell painted. */
  function PlaceFood(f: Field, b: Board, p: Point): (r: Field)
    requires b.height > 0 && |f| == b.width && Shaped(f, b.height) && InBounds(p, b.width, b.height)
    ensures |r| == b.width && Shaped(r, b.height) && r[p.x][p.y] == FoodCell
    ensures forall x, y :: 0 <= x < b.width && 0 <= y < b.height && Point(x, y) != p ==> r[x][y] == f[x][y]
  {
    Paint(f, b.height, p, FoodCell).value
  }

  /**
   A step that lands on the food grows the snake by one and, once the search
   settles, puts the next food on a free board cell painted as food.
   */
  lemma MoveFeeds(ed: Edition, g: Game, now: real, roll: nat -> nat, fuel: nat)
    requires Fits(g) && |g.snake.coords| >= 2
    requires now - g.snake.lastMove >= g.snake.period
    requires Stride(g.board, g.snake).alive && g.food in Stride(g.board, g.snake).coords
    ensures var r := Move(ed, g, now, roll, fuel);
      r.phase != Over
      && r.game.snake.length == g.snake.length + 1
      && r.game.snake.coords[1..] == Stride(g.board, g.snake).coords
      && r.game.snake.alive == GrowIn(ed, g.board, Stride(g.board, g.snake)).alive
      && (ed == Corrected ==> r.game.snake.alive)
      && (r.phase == Stepped ==> (InBounds(r.game.food, g.board.width, g.board.height)
          && r.game.food !in r.game.snake.coords && r.game.field[r.game.food.x][r.game.food.y] == FoodCell))
  {
  }

  /**
   The collision test runs before the step, on the body as it stands, so a
   step into a segment that stays is survived: the move goes ahead with the
   head sitting on the body.
   */
  lemma StepIntoBodySurvives(ed: Edition, g: Game, now: real, roll: nat -> nat, fuel: nat)
    requires Fits(g) && |g.snake.coords| >= 2
    requires IsAlive(g.snake).alive && Survives(g.board, Loop(g.board, Ahead(g.snake)))
    requires Loop(g.board, Ahead(g.snake)).point in g.snake.coords[1..|g.snake.coords| - 1]
    requires now - g.snake.lastMove >= g.snake.period
    ensures Move(ed, g, now, roll, fuel).phase != Over
    ensures var r := Move(ed, g, now, roll, fuel);
      r.phase == Stepped ==> !IsAlive(r.game.snake).alive && r.game.snake.lastMove == now
  {
    var n := |g.snake.coords|;
    var h := Loop(g.board, Ahead(g.snake)).point;
    var t := Stride(g.board, g.snake).coords;
    var i :| 0 <= i < n - 2 && g.snake.coords[1..n - 1][i] == h;
    assert t[i] == h && t[n - 1] == h;
    var r := Move(ed, g, now, roll, fuel);
    if r.phase == Stepped {
      var c := r.game.snake.coords;
      assert c[|c| - |t|..] == t by {
        if c != t {
          assert c[1..] == t;
        }
      }
      HeadRepeated(c, t, i);
    }
  }

  /** A due move whose head already sits on the body ends the game. */
  lemma HeadOnBodyEnds(ed: Edition, g: Game, now: real, roll: nat -> nat, fuel: nat)
    requires Fits(g) && |g.snake.coords| >= 2 && !IsAlive(g.snake).alive
    requires now - g.snake.lastMove >= g.snake.period
    ensures Move(ed, g, now, roll, fuel).phase == Over
  {
  }

  /**
   Hence a step into the body is only noticed by the next due move: the
   step itself is survived, and the next move ends the game.
   */
  lemma CollisionSeenOneMoveLate(ed: Edition, g: Game, now1: real, now2: real, roll: nat -> nat, fuel: nat)
    requires Fits(g) && |g.snake.coords| >= 2
    requires IsAlive(g.snake).alive && Survives(g.board, Loop(g.board, Ahead(g.snake)))
    requires Loop(g.board, Ahead(g.snake)).point in g.snake.coords[1..|g.snake.coords| - 1]
    requires now1 - g.snake.lastMove >= g.snake.period && now2 - now1 >= g.snake.period
    ensures Move(ed, g, now1, roll, fuel).phase != Over
    ensures var r1 := Move(ed, g, now1, roll, fuel);
      r1.phase == Stepped ==> Move(ed, r1.game, now2, roll, fuel).phase == Over
  {
    StepIntoBodySurvives(ed, g, now1, roll, fuel);
    var r1 := Move(ed, g, now1, roll, fuel);
    if r1.phase == Stepped {
      HeadOnBodyEnds(ed, r1.game, now2, roll, fuel);
    }
  }

  /** A body whose last `|t|` cells are `t`, with the head of `t` repeated inside it, fails `IsAlive`. */
  lemma HeadRepeated(c: seq<Point>, t: seq<Point>, i: nat)
    requires |c| >= |t| > 0 && c[|c| - |t|..] == t && i < |t| - 1 && t[i] == t[|t| - 1]
    ensures c[|c| - 1] in c[..|c| - 1]
  {
    assert c[|c| - |t| + i] == t[i];
    assert c[..|c| - 1][|c| - |t| + i] == c[|c| - 1];
  }

  // ---------------------------------------------------------------------------
  // Drawing.

  /** The cells a redraw erases before painting. */
  predicate SnakeCell(c: Cell)
  {
    c == BodyCell || c == HeadCell || c == TailCell
  }

  /** `Field.Clear`: every snake cell becomes blank; food and blanks stay. */
  function Clear(f: Field): (r: Field)
    ensures |r| == |f| && forall x :: 0 <= x < |f| ==> |r[x]| == |f[x]|
    ensures forall x, y :: 0 <= x < |f| && 0 <= y < |f[x]| ==>
      (SnakeCell(f[x][y]) ==> r[x][y] == Blank) && (!SnakeCell(f[x][y]) ==> r[x][y] == f[x][y])
  {
    seq(|f|, x requires 0 <= x < |f| => seq(|f[x]|, y requires 0 <= y < |f[x]| => if SnakeCell(f[x][y]) then Blank else f[x][y]))
  }

  /**
   `Field.Render`, the grid part: clear, paint every body cell, then the
   head. It succeeds exactly when every point names a grid cell and the body
   is non-empty; then the head's cell shows the head, other body cells show
   body, and every other cell keeps what it showed unless that was snake.
   Food painted earlier therefore stays in view.
   */
  function Render(f: Field, h: nat, coords: seq<Point>): (r: Option<Field>)
    requires Shaped(f, h)
    ensures r.Some? <==> |coords| > 0 && forall i :: 0 <= i < |coords| ==> Slot(coords[i], |f|, h).Some?
    ensures r.Some? ==> |r.value| == |f| && Shaped(r.value, h)
    ensures r.Some? ==> forall x, y :: 0 <= x < |f| && 0 <= y < h ==>
      r.value[x][y] == (if Slot(coords[|coords| - 1], |f|, h) == Some(Point(x, y)) then HeadCell
                        else if Covers(coords, Point(x, y), |f|, h) then BodyCell
                        else if SnakeCell(f[x][y]) then Blank
                        else f[x][y])
  {
    if |coords| == 0 then None
    else
      match PaintAll(Clear(f), h, coords, BodyCell)
      case None => None
      case Some(f1) => Paint(f1, h, coords[|coords| - 1], HeadCell)
  }

}
