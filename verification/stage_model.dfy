/**
 The `Stage` class of the canonical engine (src/snake/__init__.py): the board
 size, a pixel map defaulting to EMPTY, the food cell, and the per-tick
 transition `update`. Drawing is reduced to the glyph a cell would be drawn
 with; the terminal write itself is left to the caller.
 */
module StageModel {
  import opened Geometry
  import opened Wrappers
  import opened SnakeModel
  import FoodPools

  datatype Color = Empty | SnakeColor | Food

  datatype Stage = Stage(snake: Snake, pixels: map<Point, Color>, food: Point, width: int, height: int)

  /** The `defaultdict` read: a cell never written is EMPTY. */
  function PixelAt(pixels: map<Point, Color>, p: Point): Color
  {
    if p in pixels then pixels[p] else Empty
  }

  // ---------------------------------------------------------------------------
  // Half-block drawing: one terminal cell shows two board rows, the even row
  // in the foreground colour of the upper-half glyph, the odd row below it in
  // the background colour.

  datatype Layer = Fore | Back

  datatype ColorCode = ColorCode(layer: Layer, color: Color)

  /** What `render_point` writes: the 1-based cursor cell and the two colours. */
  datatype Glyph = Glyph(column: int, row: int, fore: ColorCode, back: ColorCode)

  /** `color_code`: even rows are painted as foreground, odd rows as background. */
  function ColorCodeOf(color: Color, p: Point): ColorCode
  {
    ColorCode(if p.y % 2 == 0 then Fore else Back, color)
  }

  /**
   `render_point`: the glyph for the terminal cell holding `p`. It always
   shows the even row of the pair in front and the odd row behind, whichever
   of the two `p` is.
   */
  function RenderPoint(pixels: map<Point, Color>, p: Point): (g: Glyph)
    ensures g.column == p.x + 1 && g.row == p.y / 2 + 1
    ensures g.fore == ColorCode(Fore, PixelAt(pixels, Point(p.x, 2 * (p.y / 2))))
    ensures g.back == ColorCode(Back, PixelAt(pixels, Point(p.x, 2 * (p.y / 2) + 1)))
  {
    var y1 := if p.y % 2 != 0 then p.y - 1 else p.y;
    var y2 := if p.y % 2 != 0 then p.y else p.y + 1;
    var p1 := Point(p.x, y1);
    var p2 := Point(p.x, y2);
    Glyph(p.x + 1, p.y / 2 + 1, ColorCodeOf(PixelAt(pixels, p1), p1), ColorCodeOf(PixelAt(pixels, p2), p2))
  }

  /** Two board cells land on the same terminal cell iff they share a column and a row pair, and then they draw the same glyph. */
  lemma SharedTerminalCell(pixels: map<Point, Color>, p: Point, q: Point)
    ensures var g, h := RenderPoint(pixels, p), RenderPoint(pixels, q);
      (g.column == h.column && g.row == h.row) <==> (p.x == q.x && p.y / 2 == q.y / 2)
    ensures p.x == q.x && p.y / 2 == q.y / 2 ==> RenderPoint(pixels, p) == RenderPoint(pixels, q)
  {
  }

  /** A redrawn cell shows its own colour, in front on even rows and behind on odd rows. */
  lemma RenderShowsOwnPixel(pixels: map<Point, Color>, p: Point)
    ensures p.y % 2 == 0 ==> RenderPoint(pixels, p).fore == ColorCode(Fore, PixelAt(pixels, p))
    ensures p.y % 2 == 1 ==> RenderPoint(pixels, p).back == ColorCode(Back, PixelAt(pixels, p))
  {
    assert p.y == 2 * (p.y / 2) + p.y % 2;
  }

  /**
   `update_size`: the board is as wide as the terminal and twice as tall, so
   its cells are exactly those whose half-block cell is on the screen.
   */
  function UpdateSize(st: Stage, columns: int, lines: int): (r: Stage)
    ensures forall p :: InBounds(p, r.width, r.height) <==> 0 <= p.x < columns && 0 <= p.y / 2 < lines
    ensures r.snake == st.snake && r.pixels == st.pixels && r.food == st.food
  {
    st.(width := columns, height := lines * 2)
  }

  // ---------------------------------------------------------------------------
  // Food placement.

  /**
   `create_food`: search the column and row pools; on success the food moves
   to a free board cell painted FOOD, otherwise nothing changes. While the
   body has fewer cells than the board has columns and rows, it always
   succeeds.
   */
  function CreateFood(st: Stage, roll: nat -> nat): (r: Stage)
    ensures r.snake == st.snake && r.width == st.width && r.height == st.height
    ensures r == st || (InBounds(r.food, st.width, st.height) && r.food !in st.snake.points
                        && r.pixels == st.pixels[r.food := Food])
    ensures |st.snake.points| < st.width && |st.snake.points| < st.height ==>
      InBounds(r.food, st.width, st.height) && r.food !in st.snake.points && PixelAt(r.pixels, r.food) == Food
  {
    match FoodPools.Place(st.width, st.height, st.snake.points, roll)
    case Some(p) => st.(food := p, pixels := st.pixels[p := Food])
    case None => st
  }

  // ---------------------------------------------------------------------------
  // The tick.

  /** The cell the head moves into this tick. */
  function NextHead(st: Stage): Point
    requires |st.snake.points| > 0
  {
    Step(Head(st.snake), st.snake.direction)
  }

  /**
   The snake dies this tick: the new head lands on the body that remains after
   the old tail has left, or off the board.
   */
  predicate Crashes(st: Stage)
    requires |st.snake.points| > 0
  {
    NextHead(st) in st.snake.points[1..] || !InBounds(NextHead(st), st.width, st.height)
  }

  /** The food lies on the body after the move. */
  predicate Eats(st: Stage)
    requires |st.snake.points| > 0
  {
    st.food in st.snake.points[1..] || st.food == NextHead(st)
  }

  /**
   `update`: move; on a crash mark the snake dead and paint the old head as
   FOOD; otherwise paint the new head, then either grow back the vacated tail
   and place new food, or clear the vacated tail cell if the body left it.
   What each branch leaves behind is stated by the lemmas below.
   */
  function Update(st: Stage, roll: nat -> nat): (r: Stage)
    requires |st.snake.points| > 0
    ensures r.width == st.width && r.height == st.height && r.snake.direction == st.snake.direction
  {
    var prevTail := Tail(st.snake);
    var prevHead := Head(st.snake);
    var moved := Move(st.snake);
    var head := Head(moved);
    if head in moved.points[..|moved.points| - 1]
      || head.x < 0 || head.x >= st.width || head.y < 0 || head.y >= st.height
    then
      st.(snake := moved.(isAlive := false), pixels := st.pixels[prevHead := Food])
    else
      var lit := st.(snake := moved, pixels := st.pixels[head := SnakeColor]);
      if st.food in moved.points then
        CreateFood(lit.(snake := Grow(moved, prevTail)), roll)
      else if prevTail !in moved.points then
        lit.(pixels := lit.pixels[prevTail := Empty])
      else
        lit
  }

  /** The moved body is the old body without its tail, plus the new head. */
  lemma MovedBody(st: Stage)
    requires |st.snake.points| > 0
    ensures Move(st.snake).points == st.snake.points[1..] + [NextHead(st)]
    ensures Head(Move(st.snake)) == NextHead(st)
    ensures Move(st.snake).points[..|st.snake.points| - 1] == st.snake.points[1..]
  {
  }

  /** A crash kills the snake, keeps the moved body and the food, and paints the old head as FOOD. */
  lemma UpdateOnCrash(st: Stage, roll: nat -> nat)
    requires |st.snake.points| > 0 && Crashes(st)
    ensures var r := Update(st, roll);
      && !r.snake.isAlive
      && r.snake.points == st.snake.points[1..] + [NextHead(st)] && r.snake.length == st.snake.length
      && r.food == st.food
      && r.pixels == st.pixels[Head(st.snake) := Food]
  {
    MovedBody(st);
  }

  /** The stage after a tick without a crash, before any food is eaten. */
  function Lit(st: Stage): Stage
    requires |st.snake.points| > 0
  {
    st.(snake := Move(st.snake), pixels := st.pixels[NextHead(st) := SnakeColor])
  }

  lemma UpdateSurvivalShape(st: Stage, roll: nat -> nat)
    requires |st.snake.points| > 0 && !Crashes(st)
    ensures Eats(st) ==> Update(st, roll) == CreateFood(Lit(st).(snake := Grow(Move(st.snake), Tail(st.snake))), roll)
    ensures !Eats(st) && Tail(st.snake) !in Move(st.snake).points ==>
      Update(st, roll) == Lit(st).(pixels := Lit(st).pixels[Tail(st.snake) := Empty])
    ensures !Eats(st) && Tail(st.snake) in Move(st.snake).points ==> Update(st, roll) == Lit(st)
  {
    MovedBody(st);
  }

  /** Eating without a crash keeps the whole old body, adds the new head, and paints the head SNAKE. */
  lemma UpdateOnEating(st: Stage, roll: nat -> nat)
    requires |st.snake.points| > 0 && !Crashes(st) && Eats(st)
    ensures var r := Update(st, roll);
      && r.snake.isAlive == st.snake.isAlive
      && r.snake.points == st.snake.points + [NextHead(st)] && r.snake.length == st.snake.length + 1
      && PixelAt(r.pixels, NextHead(st)) == SnakeColor
  {
    UpdateSurvivalShape(st, roll);
    GrowAfterMoveKeepsTail(st.snake);
    MovedBody(st);
    var grown := Lit(st).(snake := Grow(Move(st.snake), Tail(st.snake)));
    assert NextHead(st) in grown.snake.points;
  }

  /**
   A plain step without a crash drops the old tail and adds the new head,
   painted SNAKE; the food stays; the old tail cell turns EMPTY once the body
   has left it.
   */
  lemma UpdateOnStep(st: Stage, roll: nat -> nat)
    requires |st.snake.points| > 0 && !Crashes(st) && !Eats(st)
    ensures var r := Update(st, roll);
      && r.snake.isAlive == st.snake.isAlive
      && r.snake.points == st.snake.points[1..] + [NextHead(st)] && r.snake.length == st.snake.length
      && r.food == st.food
      && PixelAt(r.pixels, NextHead(st)) == SnakeColor
      && (Tail(st.snake) !in r.snake.points ==> PixelAt(r.pixels, Tail(st.snake)) == Empty)
  {
    UpdateSurvivalShape(st, roll);
    MovedBody(st);
  }

  /**
   Across all three branches of `update`: the snake dies exactly on a crash,
   and the body is the old one, less its tail unless the snake eats, with
   the next head added.
   */
  lemma UpdateMovesSnake(st: Stage, roll: nat -> nat)
    requires |st.snake.points| > 0
    ensures Update(st, roll).snake.isAlive == (st.snake.isAlive && !Crashes(st))
    ensures Update(st, roll).snake.points ==
      (if !Crashes(st) && Eats(st) then st.snake.points else st.snake.points[1..]) + [NextHead(st)]
  {
    if Crashes(st) {
      UpdateOnCrash(st, roll);
    } else if Eats(st) {
      UpdateOnEating(st, roll);
    } else {
      UpdateOnStep(st, roll);
    }
  }

  /** A tick recolours at most the new head, the old tail, the old head and the food cell. */
  lemma UpdateFrame(st: Stage, roll: nat -> nat, q: Point)
    requires |st.snake.points| > 0
    requires q != NextHead(st) && q != Tail(st.snake) && q != Head(st.snake)
    ensures q != Update(st, roll).food ==> PixelAt(Update(st, roll).pixels, q) == PixelAt(st.pixels, q)
  {
  }

  // ---------------------------------------------------------------------------
  // The invariant of a live round.

  /**
   A live round: a well-formed body of distinct board cells, and food on a
   free board cell.
   */
  predicate Valid(st: Stage)
  {
    && WellFormed(st.snake)
    && Distinct(st.snake.points)
    && OnBoard(st.snake.points, st.width, st.height)
    && InBounds(st.food, st.width, st.height)
    && st.food !in st.snake.points
  }

  /** With the food off the body, eating means the head moves onto the food. */
  lemma EatsMeansFoodAhead(st: Stage)
    requires Valid(st)
    ensures Eats(st) <==> st.food == NextHead(st)
  {
    assert forall q :: q in st.snake.points[1..] ==> q in st.snake.points;
  }

  /**
   A tick that does not crash keeps the round valid, provided the board still
   has more columns and more rows than the body will have cells, which is
   what guarantees that the pool search finds a free cell for the next food.
   */
  lemma {:induction false} UpdateKeepsValid(st: Stage, roll: nat -> nat)
    requires Valid(st) && !Crashes(st)
    requires |st.snake.points| + 1 < st.width && |st.snake.points| + 1 < st.height
    ensures Valid(Update(st, roll))
  {
    EatsMeansFoodAhead(st);
    if Eats(st) {
      EatingKeepsValid(st, roll);
    } else {
      StepKeepsValid(st, roll);
    }
  }

  /** The eating half of `UpdateKeepsValid`: the body gains the food's cell and new food is placed. */
  lemma EatingKeepsValid(st: Stage, roll: nat -> nat)
    requires Valid(st) && !Crashes(st) && st.food == NextHead(st)
    requires |st.snake.points| + 1 < st.width && |st.snake.points| + 1 < st.height
    ensures Valid(Update(st, roll))
  {
    var r := Update(st, roll);
    var h := NextHead(st);
    var ps := st.snake.points;
    UpdateOnEating(st, roll);
    assert r.snake.points == ps + [h];
    assert h !in ps;
    assert Distinct(r.snake.points) by {
      forall i, j | 0 <= i < j < |ps| + 1
        ensures r.snake.points[i] != r.snake.points[j]
      {
        if j == |ps| {
          assert r.snake.points[i] == ps[i];
        }
      }
    }
    assert OnBoard(r.snake.points, r.width, r.height);
    UpdateEatsPlacesFood(st, roll);
  }

  /** The plain-step half of `UpdateKeepsValid`: the body drops its tail, gains a free cell, and the food stays. */
  lemma StepKeepsValid(st: Stage, roll: nat -> nat)
    requires Valid(st) && !Crashes(st) && !Eats(st)
    ensures Valid(Update(st, roll))
  {
    var r := Update(st, roll);
    var h := NextHead(st);
    var ps := st.snake.points;
    UpdateOnStep(st, roll);
    var body := ps[1..];
    assert r.snake.points == body + [h];
    assert h !in body;
    assert forall q :: q in body ==> q in ps;
    assert Distinct(r.snake.points) by {
      forall i, j | 0 <= i < j < |body| + 1
        ensures r.snake.points[i] != r.snake.points[j]
      {
        if j == |body| {
          assert r.snake.points[i] == body[i];
        } else {
          assert r.snake.points[i] == ps[i + 1] && r.snake.points[j] == ps[j + 1];
        }
      }
    }
    assert OnBoard(r.snake.points, r.width, r.height);
    assert r.food !in r.snake.points;
  }

  lemma UpdateEatsPlacesFood(st: Stage, roll: nat -> nat)
    requires Valid(st) && !Crashes(st) && Eats(st)
    requires |st.snake.points| + 1 < st.width && |st.snake.points| + 1 < st.height
    ensures var r := Update(st, roll); r.food !in r.snake.points && InBounds(r.food, r.width, r.height)
  {
    var grown := Lit(st).(snake := Grow(Move(st.snake), Tail(st.snake)));
    UpdateSurvivalShape(st, roll);
    GrowAfterMoveKeepsTail(st.snake);
  }


  // ---------------------------------------------------------------------------
  // Starting a round.

  /**
   `Stage.reset` as written: the food is placed against the body of the round
   that just ended, and only then is the snake reset; the pixel map is kept.
   */
  function ResetAsWritten(st: Stage, roll: nat -> nat): (r: Stage)
    ensures r.snake == Reset() && r.width == st.width && r.height == st.height
    ensures r.food == st.food || (InBounds(r.food, st.width, st.height) && r.food !in st.snake.points)
    ensures forall q :: q != r.food ==> PixelAt(r.pixels, q) == PixelAt(st.pixels, q)
  {
    CreateFood(st, roll).(snake := Reset())
  }

  /**
   After a round lost in the middle of a 10 x 10 board, draws that pick the
   second column and the first row put the food on (1, 0), which is free for
   the old body but is the middle cell of the freshly reset snake.
   */
  lemma ResetCanPutFoodOnSnake()
    ensures var st := Stage(Snake(3, Right, false, [Point(5, 5), Point(6, 5), Point(7, 5)]), map[], Point(8, 5), 10, 10);
      var r := ResetAsWritten(st, k => if k % 2 == 0 then 1 else 0);
      r.food == Point(1, 0) && r.food in r.snake.points
  {
    var st := Stage(Snake(3, Right, false, [Point(5, 5), Point(6, 5), Point(7, 5)]), map[], Point(8, 5), 10, 10);
    var roll: nat -> nat := k => if k % 2 == 0 then 1 else 0;
    assert Range(10)[1] == 1 && Range(10)[0] == 0;
    assert FoodPools.Pick(Range(10), roll, 0) == 1 && FoodPools.Pick(Range(10), roll, 1) == 0;
    assert FoodPools.Search(Range(10), Range(10), st.snake.points, roll, 0) == Some(Point(1, 0));
  }

  /**
   The kept pixel map still says SNAKE for a cell of the old body that is
   neither on the new snake nor the food, so redrawing its half-block
   neighbour shows a ghost segment.
   */
  lemma ResetKeepsStalePixels(roll: nat -> nat)
    ensures var st := Stage(Snake(3, Right, false, [Point(5, 5), Point(6, 5), Point(7, 5)]),
                            map[Point(5, 5) := SnakeColor], Point(8, 5), 10, 10);
      var r := ResetAsWritten(st, roll);
      Point(5, 5) !in r.snake.points && PixelAt(r.pixels, Point(5, 5)) == SnakeColor
  {
  }

  /**
   `Stage.reset` as intended: start from the new snake and a blank pixel
   map, then place the food. On a board larger than 3 x 3 the new round is
   valid, so the food is never on the snake, and every cell but the food is
   EMPTY.
   */
  function StageReset(st: Stage, roll: nat -> nat): (r: Stage)
    ensures r.snake == Reset() && r.width == st.width && r.height == st.height
    ensures st.width > 3 && st.height > 3 ==> Valid(r)
    ensures forall q :: q != r.food ==> PixelAt(r.pixels, q) == Empty
  {
    var blank: map<Point, Color> := map[];
    var cleared := st.(snake := Reset(), pixels := blank);
    CreateFoodOnBlank(cleared, roll);
    ResetFitsBoard(cleared, roll);
    CreateFood(cleared, roll)
  }

  lemma ResetFitsBoard(st: Stage, roll: nat -> nat)
    requires st.snake == Reset()
    ensures st.width > 3 && st.height > 3 ==> Valid(CreateFood(st, roll))
  {
    if st.width > 3 && st.height > 3 {
      ResetOnBoard(st.width, st.height);
      CreateFoodMakesValid(st, roll);
    }
  }

  lemma ResetOnBoard(width: int, height: int)
    requires width > 2 && height > 0
    ensures OnBoard(Reset().points, width, height)
  {
  }

  lemma CreateFoodOnBlank(st: Stage, roll: nat -> nat)
    requires st.pixels == map[]
    ensures forall q :: q != CreateFood(st, roll).food ==> PixelAt(CreateFood(st, roll).pixels, q) == Empty
  {
  }

  /** Placing food next to a body that fits the board with room to spare completes a valid round. */
  lemma CreateFoodMakesValid(st: Stage, roll: nat -> nat)
    requires WellFormed(st.snake) && Distinct(st.snake.points)
    requires OnBoard(st.snake.points, st.width, st.height)
    requires |st.snake.points| < st.width && |st.snake.points| < st.height
    ensures Valid(CreateFood(st, roll))
  {
  }
}
