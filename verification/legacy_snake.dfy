/**
 The first stand-alone script, `snake.py`: a board whose edges wrap (or
 kill, when `walls_kill` is set), a body held tail-first in `coords`, a move
 that only happens once per period, food found by the shared pool search,
 and a redraw that paints body, head, tail and food in that order.

 Clock readings are parameters; the game-over and win banners, which block
 on a key press, are reported as flags of the move.
 */
module LegacySnake {
  import opened Geometry
  import opened Wrappers
  import opened FoodPools
  import opened Classic

  datatype Game = Game(board: Board, snake: Snake, food: Point)

  // ---------------------------------------------------------------------------
  // Food.

  /**
   `Field.create_food`: the pool search over the board; when it gives up,
   `food_pos` keeps its old value. While the body is smaller than both board
   sides, the food always lands on a free board cell.
   */
  function CreateFood(b: Board, body: seq<Point>, food: Point, roll: nat -> nat): (r: Point)
    ensures r == food || (InBounds(r, b.width, b.height) && r !in body)
    ensures |body| < b.width && |body| < b.height ==> InBounds(r, b.width, b.height) && r !in body
  {
    match Place(b.width, b.height, body, roll)
    case Some(p) => p
    case None => food
  }

  /**
   `Field.__init__` as written: the food is placed while `snake_coords` is
   still empty, so the search does not avoid the starting body. On an empty
   board the food is never set.
   */
  function OpenAsWritten(b: Board, s: Snake, roll: nat -> nat): (r: Option<Game>)
    ensures r.Some? <==> b.width > 0 && b.height > 0
    ensures r.Some? ==> r.value.snake == s && r.value.board == b && InBounds(r.value.food, b.width, b.height)
  {
    match Place(b.width, b.height, [], roll)
    case Some(p) => Some(Game(b, s, p))
    case None => None
  }

  /**
   The opening with the food placed against the starting body: whenever
   the body is smaller than both board sides, the food is on a free cell.
   */
  function Open(b: Board, s: Snake, roll: nat -> nat): (r: Option<Game>)
    ensures r.Some? ==> (r.value.snake == s && r.value.board == b
                         && InBounds(r.value.food, b.width, b.height) && r.value.food !in s.coords)
    ensures |s.coords| < b.width && |s.coords| < b.height ==> r.Some?
  {
    match Place(b.width, b.height, s.coords, roll)
    case Some(p) => Some(Game(b, s, p))
    case None => None
  }

  /**
   When the first two draws take the first pool entries, the opening food
   lands on (0, 0) whatever the body: a snake whose tail starts there (for
   example one spawned at (0, 0) heading right) starts with food under it.
   */
  lemma OpenAsWrittenCanFeedOnSnake(b: Board, s: Snake, roll: nat -> nat)
    requires b.width > 0 && b.height > 0 && |s.coords| > 0 && s.coords[0] == Point(0, 0)
    requires roll(0) == 0 && roll(1) == 0
    ensures OpenAsWritten(b, s, roll) == Some(Game(b, s, Point(0, 0)))
    ensures Point(0, 0) in s.coords
  {
    assert Range(b.width)[0] == 0 && Range(b.height)[0] == 0;
    assert Pick(Range(b.width), roll, 0) == 0;
    assert Pick(Range(b.height), roll, 1) == 0;
    assert Search(Range(b.width), Range(b.height), [], roll, 0) == Some(Point(0, 0));
  }

  // ---------------------------------------------------------------------------
  // Moving.

  /**
   The collision test of `move`. As written it asks whether the raw head,
   before `loop` moves it back onto the board, lies on the body
   `coords[:-1]`; the correction asks it of the cell the head will occupy.
   */
  predicate Hits(ed: Edition, b: Board, s: Snake)
    requires |s.coords| > 0
  {
    match ed
    case AsWritten => Ahead(s) in s.coords[..|s.coords| - 1]
    case Corrected => Loop(b, Ahead(s)).point in s.coords[..|s.coords| - 1]
  }

  /**
   The step part of `move`, before the food test: the head advances and
   wraps, the tail cell is dropped, and the snake lives exactly when it
   neither hits its body nor crosses a killing wall.
   */
  function Stride(ed: Edition, b: Board, s: Snake): (r: Snake)
    requires |s.coords| > 0
    ensures |r.coords| == |s.coords| && r.coords[..|s.coords| - 1] == s.coords[1..]
    ensures r.coords[|r.coords| - 1] == Loop(b, Ahead(s)).point
    ensures r.alive <==> !Hits(ed, b, s) && Survives(b, Loop(b, Ahead(s)))
    ensures r == s.(coords := r.coords, alive := r.alive)
  {
    var w := Loop(b, Ahead(s));
    var alive := !Hits(ed, b, s);
    s.(alive := if !Survives(b, w) then false else alive, coords := (s.coords + [w.point])[1..])
  }

  /**
   With the corrected test, a live step from a body of distinct board cells
   leaves a body of distinct board cells, on any board at least 2 x 2.
   */
  lemma StrideKeepsDistinct(b: Board, s: Snake)
    requires b.width >= 2 && b.height >= 2 && |s.coords| > 0
    requires OnBoard(s.coords, b.width, b.height) && Distinct(s.coords)
    ensures var r := Stride(Corrected, b, s);
      OnBoard(r.coords, b.width, b.height) && (r.alive ==> Distinct(r.coords))
  {
    var n := |s.coords|;
    var r := Stride(Corrected, b, s);
    var h := s.coords[n - 1];
    LoopIsTorusStep(b, h, s.direction);
    assert Loop(b, Ahead(s)).point != h;
    assert forall i :: 0 <= i < n - 1 ==> r.coords[i] == s.coords[i + 1];
    if r.alive {
      forall i, j | 0 <= i < j < n
        ensures r.coords[i] != r.coords[j]
      {
        if j == n - 1 {
          assert r.coords[i] == s.coords[i + 1];
          if i + 1 < n - 1 {
            assert s.coords[i + 1] in s.coords[..n - 1];
          }
        }
      }
    }
  }

  /**
   The collision test as written misses a wrap into the body: on a 4 x 3
   board, the body (1,0), (0,0), (0,1), (1,1), (2,1), (3,1) heading right
   wraps its head onto (0,1), still part of the body, and lives on.
   */
  lemma StrideAsWrittenMissesWrapCollision()
    ensures var b := Board(4, 3, false);
      var s := Snake([Point(1, 0), Point(0, 0), Point(0, 1), Point(1, 1), Point(2, 1), Point(3, 1)], 6, Right, true, 1.0, 0.0, 0.0);
      && Distinct(s.coords) && OnBoard(s.coords, 4, 3)
      && Stride(AsWritten, b, s).alive && !Distinct(Stride(AsWritten, b, s).coords)
      && !Stride(Corrected, b, s).alive
  {
    var b := Board(4, 3, false);
    var s := Snake([Point(1, 0), Point(0, 0), Point(0, 1), Point(1, 1), Point(2, 1), Point(3, 1)], 6, Right, true, 1.0, 0.0, 0.0);
    assert Ahead(s) == Point(4, 1);
    assert Loop(b, Ahead(s)).point == Point(0, 1);
    var r := Stride(AsWritten, b, s);
    assert r.coords[1] == Point(0, 1) && r.coords[5] == Point(0, 1);
    assert s.coords[..5][2] == Point(0, 1);
  }

  /** What a move did: whether it was due, and which banners it raised. */
  datatype Report = Report(game: Game, moved: bool, gameOver: bool, youWin: bool)

  /**
   `Snake.move` at clock reading `now`: nothing until a period has passed
   since the last move; then a step; the game-over banner if the step was
   fatal; growth and new food if the food is on the body; the win banner
   once the length reaches the number of board cells; and the move stamped.
   */
  function Move(ed: Edition, g: Game, now: real, roll: nat -> nat): (r: Report)
    requires |g.snake.coords| >= 2
    ensures r.moved <==> now - g.snake.lastMove >= g.snake.period
    ensures !r.moved ==> r.game == g && !r.gameOver && !r.youWin
    ensures r.moved ==> (r.game.board == g.board && r.game.snake.lastMove == now
                         && r.game.snake.direction == g.snake.direction && r.game.snake.lastTurn == g.snake.lastTurn)
    ensures r.moved ==> (r.gameOver <==> !Stride(ed, g.board, g.snake).alive)
    ensures r.moved ==> (r.youWin <==> r.game.snake.length >= g.board.width * g.board.height)
    ensures r.moved && g.food !in Stride(ed, g.board, g.snake).coords ==>
      r.game.snake == Stride(ed, g.board, g.snake).(lastMove := now) && r.game.food == g.food
    ensures r.moved && g.food in Stride(ed, g.board, g.snake).coords ==>
      r.game.snake.length == g.snake.length + 1 && |r.game.snake.coords| == |g.snake.coords| + 1
      && r.game.snake.coords[1..] == Stride(ed, g.board, g.snake).coords
      && r.game.food == CreateFood(g.board, r.game.snake.coords, g.food, roll)
    ensures r.moved && g.food in Stride(ed, g.board, g.snake).coords ==>
      r.game.snake == GrowIn(ed, g.board, Stride(ed, g.board, g.snake)).(lastMove := now)
    ensures r.moved && ed == Corrected ==> r.game.snake.alive == Stride(ed, g.board, g.snake).alive
  {
    if now - g.snake.lastMove >= g.snake.period then
      var stepped := Stride(ed, g.board, g.snake);
      var ate := g.food in stepped.coords;
      var grown := if ate then GrowIn(ed, g.board, stepped) else stepped;
      var food := if ate then CreateFood(g.board, grown.coords, g.food, roll) else g.food;
      var won := grown.length >= g.board.width * g.board.height;
      Report(Game(g.board, grown.(lastMove := now), food), true, !stepped.alive, won)
    else
      Report(g, false, false, false)
  }

  /**
   The shape the corrected game keeps: a body of at least two board cells,
   each a torus step from the one before, as long as the recorded length,
   and the food on a free board cell.
   */
  ghost predicate Valid(g: Game)
  {
    && g.board.width >= 2 && g.board.height >= 2
    && |g.snake.coords| >= 2 && g.snake.length == |g.snake.coords|
    && OnBoard(g.snake.coords, g.board.width, g.board.height)
    && Chain(g.board, g.snake.coords)
    && InBounds(g.food, g.board.width, g.board.height) && g.food !in g.snake.coords
  }

  /** A corrected step keeps the body a chain of torus steps on the board. */
  lemma StrideKeepsChain(b: Board, s: Snake)
    requires b.width >= 2 && b.height >= 2 && |s.coords| >= 2
    requires OnBoard(s.coords, b.width, b.height) && Chain(b, s.coords)
    ensures OnBoard(Stride(Corrected, b, s).coords, b.width, b.height)
    ensures Chain(b, Stride(Corrected, b, s).coords)
  {
    var n := |s.coords|;
    var r := Stride(Corrected, b, s).coords;
    var h := s.coords[n - 1];
    LoopIsTorusStep(b, h, s.direction);
    assert forall i :: 0 <= i < n - 1 ==> r[i] == s.coords[i + 1];
    forall i, j | 0 <= i < j < n && j == i + 1
      ensures Joined(b, r[i], r[j])
    {
      if j < n - 1 {
        assert r[i] == s.coords[i + 1] && r[j] == s.coords[j + 1];
      } else {
        assert r[i] == h;
      }
    }
  }

  /**
   A corrected move keeps the game valid, provided the grown body will still
   be smaller than both board sides, which is what guarantees that the pool
   search places the next food.
   */
  lemma {:induction false} MoveKeepsValid(g: Game, now: real, roll: nat -> nat)
    requires Valid(g)
    requires |g.snake.coords| + 1 < g.board.width && |g.snake.coords| + 1 < g.board.height
    ensures Valid(Move(Corrected, g, now, roll).game)
  {
    var b := g.board;
    var r := Move(Corrected, g, now, roll);
    if r.moved {
      var stepped := Stride(Corrected, b, g.snake);
      StrideKeepsChain(b, g.snake);
      if g.food in stepped.coords {
        GrowKeepsChain(b, stepped);
        assert r.game.snake == Grow(b, stepped).(lastMove := now);
      } else {
        assert r.game.snake == stepped.(lastMove := now);
      }
    }
  }

  // ---------------------------------------------------------------------------
  // Drawing.

  /** The side of a grid built by `range(n)`. */
  function Side(n: int): nat
  {
    if n <= 0 then 0 else n
  }

  /**
   What a redraw shows at grid cell `q`, by precedence: food over tail over
   head over body over blank.
   */
  function Shown(coords: seq<Point>, food: Point, q: Point, w: int, h: int): Cell
    requires |coords| > 0
  {
    if Slot(food, w, h) == Some(q) then FoodCell
    else if Slot(coords[0], w, h) == Some(q) then TailCell
    else if Slot(coords[|coords| - 1], w, h) == Some(q) then HeadCell
    else if Covers(coords, q, w, h) then BodyCell
    else Blank
  }

  /** Painting body, head, tail and food in that order leaves each cell showing what `Shown` says. */
  lemma Layers(coords: seq<Point>, food: Point, w: nat, h: nat, f1: Field, f2: Field, f3: Field, f4: Field)
    requires |coords| > 0
    requires |f1| == w && |f2| == w && |f3| == w && |f4| == w
    requires Shaped(f1, h) && Shaped(f2, h) && Shaped(f3, h) && Shaped(f4, h)
    requires forall x, y :: 0 <= x < w && 0 <= y < h ==>
      f1[x][y] == if Covers(coords, Point(x, y), w, h) then BodyCell else Blank
    requires forall x, y :: 0 <= x < w && 0 <= y < h ==>
      f2[x][y] == if Slot(coords[|coords| - 1], w, h) == Some(Point(x, y)) then HeadCell else f1[x][y]
    requires forall x, y :: 0 <= x < w && 0 <= y < h ==>
      f3[x][y] == if Slot(coords[0], w, h) == Some(Point(x, y)) then TailCell else f2[x][y]
    requires forall x, y :: 0 <= x < w && 0 <= y < h ==>
      f4[x][y] == if Slot(food, w, h) == Some(Point(x, y)) then FoodCell else f3[x][y]
    ensures forall x, y :: 0 <= x < w && 0 <= y < h ==> f4[x][y] == Shown(coords, food, Point(x, y), w, h)
  {
    forall x, y | 0 <= x < w && 0 <= y < h
      ensures f4[x][y] == Shown(coords, food, Point(x, y), w, h)
    {
      var q := Point(x, y);
      assert f1[x][y] == if Covers(coords, q, w, h) then BodyCell else Blank;
      assert f2[x][y] == if Slot(coords[|coords| - 1], w, h) == Some(q) then HeadCell else f1[x][y];
      assert f3[x][y] == if Slot(coords[0], w, h) == Some(q) then TailCell else f2[x][y];
    }
  }

  /**
   `Field.update`, the grid part: clear, paint each body cell, then the
   head, the tail and the food. It succeeds exactly when the body is
   non-empty and every point names a grid cell under Python indexing, and
   then each cell shows what the precedence order says.
   */
  function Render(b: Board, coords: seq<Point>, food: Point): (r: Option<Field>)
    ensures r.Some? <==> (|coords| > 0 && Slot(food, Side(b.width), Side(b.height)).Some?
                          && forall i :: 0 <= i < |coords| ==> Slot(coords[i], Side(b.width), Side(b.height)).Some?)
    ensures r.Some? ==> |r.value| == Side(b.width) && Shaped(r.value, Side(b.height))
    ensures r.Some? ==> forall x, y :: 0 <= x < Side(b.width) && 0 <= y < Side(b.height) ==>
      r.value[x][y] == Shown(coords, food, Point(x, y), Side(b.width), Side(b.height))
  {
    var w, h := Side(b.width), Side(b.height);
    if |coords| == 0 then None
    else
      var blank := Filled(w, h, Blank);
      match PaintAll(blank, h, coords, BodyCell)
      case None => None
      case Some(f1) =>
        assert Slot(coords[0], w, h).Some? && Slot(coords[|coords| - 1], w, h).Some?;
        match Paint(f1, h, coords[|coords| - 1], HeadCell)
        case None => None
        case Some(f2) =>
          match Paint(f2, h, coords[0], TailCell)
          case None => None
          case Some(f3) =>
            var r := Paint(f3, h, food, FoodCell);
            if r.Some? then
              Layers(coords, food, w, h, f1, f2, f3, r.value);
              r
            else r
  }

}
