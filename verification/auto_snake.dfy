/**
 The autopilot of src/snake/auto.py: a keyboard event still wins; otherwise
 it chases the food greedily and, when the greedy heading is blocked at once,
 takes the heading with the longest free run, ties going to the first of
 up, down, left, right.
 */
module AutoSnake {
  import opened Geometry
  import opened Wrappers
  import opened SnakeModel
  import opened StageModel
  import opened GameModel

  /** `sys.maxsize` on a 64-bit interpreter: the score of a ray that sees food. */
  const MaxSize: int := 0x7FFF_FFFF_FFFF_FFFF

  /** `DIRECTIONS`, in its iteration order. */
  const Directions: seq<Direction> := [Up, Down, Left, Right]

  // ---------------------------------------------------------------------------
  // check_move.

  /** A cell the ray stops at: off the board or on the body. */
  predicate Blocked(st: Stage, p: Point)
  {
    !InBounds(p, st.width, st.height) || p in st.snake.points
  }

  /** The first `n` cells of the ray from `from` are free and none of them is the food. */
  ghost predicate ClearRun(st: Stage, from: Point, d: Direction, n: int)
  {
    forall j :: 1 <= j <= n ==> !Blocked(st, Ray(from, d, j)) && Ray(from, d, j) != st.food
  }

  /** The ray from `from` meets the food before any blocked cell. */
  ghost predicate SeesFood(st: Stage, from: Point, d: Direction)
  {
    exists k :: k >= 1 && ClearRun(st, from, d, k - 1) && Ray(from, d, k) == st.food
  }

  /** How far the probe can still go before it must leave the board. */
  function Room(st: Stage, d: Direction, p: Point): int
  {
    match d
    case Up => p.y + 1
    case Down => st.height - p.y
    case Left => p.x + 1
    case Right => st.width - p.x
  }

  /**
   The probe loop of `check_move`, at cell `pos` reached after `steps`
   free steps. It ends because every step that continues stays on the board
   and moves towards the edge it faces.
   */
  function Probe(st: Stage, from: Point, d: Direction, pos: Point, steps: nat): (r: int)
    requires pos == Ray(from, d, steps) && ClearRun(st, from, d, steps)
    ensures (r == MaxSize && SeesFood(st, from, d))
         || (steps <= r && ClearRun(st, from, d, r) && Blocked(st, Ray(from, d, r + 1)) && Ray(from, d, r + 1) != st.food)
    decreases Room(st, d, pos)
  {
    var next := Step(pos, d);
    RayStep(from, d, steps);
    if next == st.food then
      MaxSize
    else if !(0 <= next.x < st.width) || !(0 <= next.y < st.height) || next in st.snake.points then
      steps
    else
      assert ClearRun(st, from, d, steps + 1) by {
        forall j | 1 <= j <= steps + 1
          ensures !Blocked(st, Ray(from, d, j)) && Ray(from, d, j) != st.food
        {
          if j <= steps {
            assert 1 <= j <= steps;
          }
        }
      }
      Probe(st, from, d, next, steps + 1)
  }

  /**
   `check_move`: the sentinel for any event that is not a heading; for a
   heading, the sentinel if the ray from the head meets the food before a
   blocked cell, otherwise the number of free cells before the first
   blocked one.
   */
  function CheckMove(st: Stage, ev: Event): (r: int)
    requires |st.snake.points| > 0
    ensures !ev.Turn? ==> r == MaxSize
    ensures ev.Turn? ==>
      var h := Head(st.snake);
      (r == MaxSize && SeesFood(st, h, ev.heading))
      || (r >= 0 && ClearRun(st, h, ev.heading, r) && Blocked(st, Ray(h, ev.heading, r + 1))
          && Ray(h, ev.heading, r + 1) != st.food)
  {
    if !ev.Turn? then MaxSize
    else Probe(st, Head(st.snake), ev.heading, Head(st.snake), 0)
  }

  /**
   Right after a move, the reversed heading points straight at the neck, so
   unless the food lies there its score is 0.
   */
  lemma ReverseScoresZero(st: Stage)
    requires |st.snake.points| >= 2 && HeadLeads(st.snake)
    requires st.food != st.snake.points[|st.snake.points| - 2]
    ensures CheckMove(st, Turn(Opposite(st.snake.direction))) == 0
  {
    var h := Head(st.snake);
    var d := Opposite(st.snake.direction);
    var neck := st.snake.points[|st.snake.points| - 2];
    StepBack(neck, st.snake.direction, d);
    RayStep(h, d, 0);
    assert Ray(h, d, 1) == neck;
    assert Blocked(st, Ray(h, d, 1)) && Ray(h, d, 1) != st.food;
  }

  // ---------------------------------------------------------------------------
  // The greedy chase.

  /**
   The greedy tests of `get_event`, in source order; the last one that holds
   wins, and with none the current heading stays.
   */
  function Greedy(food: Point, head: Point, current: Direction): Direction
  {
    var e1: Option<Direction> := if food.x > head.x && current != Right then Some(Right) else None;
    var e2 := if food.x < head.x && current != Left then Some(Left) else e1;
    var e3 := if food.y > head.y && current != Down then Some(Down) else e2;
    var e4 := if food.y < head.y && current != Up then Some(Up) else e3;
    if e4.Some? then e4.value else current
  }

  /** The vertical heading that closes in on the food, if the rows differ. */
  function TowardRow(food: Point, head: Point): Option<Direction>
  {
    if food.y > head.y then Some(Down) else if food.y < head.y then Some(Up) else None
  }

  /** The horizontal heading that closes in on the food, if the columns differ. */
  function TowardColumn(food: Point, head: Point): Option<Direction>
  {
    if food.x > head.x then Some(Right) else if food.x < head.x then Some(Left) else None
  }

  /**
   The greedy choice, restated: close the row gap first, unless that is the
   current heading already; then the column gap, on the same terms; else keep
   the current heading. A new heading always brings the head closer to the
   food.
   */
  lemma GreedyPrefersRows(food: Point, head: Point, current: Direction)
    ensures var g := Greedy(food, head, current);
      g == (if TowardRow(food, head).Some? && TowardRow(food, head).value != current then TowardRow(food, head).value
            else if TowardColumn(food, head).Some? && TowardColumn(food, head).value != current then TowardColumn(food, head).value
            else current)
    ensures var g := Greedy(food, head, current);
      g != current ==> Distance(Step(head, g), food) < Distance(head, food)
  {
  }

  function Abs(v: int): nat
  {
    if v < 0 then -v else v
  }

  /** Grid (taxicab) distance. */
  function Distance(a: Point, b: Point): nat
  {
    Abs(a.x - b.x) + Abs(a.y - b.y)
  }

  // ---------------------------------------------------------------------------
  // The fallback and the decision.

  /** The first index of a highest score: what `max` returns over a key. */
  function ArgMax(scores: seq<int>): (i: nat)
    requires |scores| > 0
    ensures i < |scores|
    ensures forall j :: 0 <= j < |scores| ==> scores[j] <= scores[i]
    ensures forall j :: 0 <= j < i ==> scores[j] < scores[i]
    decreases |scores|
  {
    if |scores| == 1 then 0
    else
      var best := ArgMax(scores[..|scores| - 1]);
      if scores[|scores| - 1] > scores[best] then |scores| - 1 else best
  }

  /** The `check_move` score of each heading of the table, in table order. */
  function Scores(st: Stage): (r: seq<int>)
    requires |st.snake.points| > 0
    ensures |r| == 4 && forall j :: 0 <= j < 4 ==> r[j] == CheckMove(st, Turn(Directions[j]))
  {
    [CheckMove(st, Turn(Up)), CheckMove(st, Turn(Down)), CheckMove(st, Turn(Left)), CheckMove(st, Turn(Right))]
  }

  /** `max(DIRECTIONS, key=check_move)`: the first heading with the highest score. */
  function FirstBest(st: Stage): (r: Direction)
    requires |st.snake.points| > 0
    ensures forall d :: CheckMove(st, Turn(d)) <= CheckMove(st, Turn(r))
    ensures forall j :: 0 <= j < IndexOf(r) ==> CheckMove(st, Turn(Directions[j])) < CheckMove(st, Turn(r))
  {
    var scores := Scores(st);
    var i := ArgMax(scores);
    assert IndexOf(Directions[i]) == i;
    forall d
      ensures CheckMove(st, Turn(d)) <= scores[i]
    {
      assert scores[IndexOf(d)] == CheckMove(st, Turn(d));
    }
    Directions[i]
  }

  function IndexOf(d: Direction): (i: nat)
    ensures i < 4 && Directions[i] == d
  {
    match d
    case Up => 0
    case Down => 1
    case Left => 2
    case Right => 3
  }

  /**
   `AutoSnake.get_event`: a keyboard event is passed through unchanged;
   otherwise the greedy heading if it has at least one free cell (or sees the
   food), else the first best-scoring heading. Without a key the answer is
   always a heading.
   */
  function Decide(st: Stage, keys: string): (r: Option<Event>)
    requires |st.snake.points| > 0
    ensures GetEvent(keys).Some? ==> r == GetEvent(keys)
    ensures GetEvent(keys).None? ==> r.Some? && r.value.Turn?
    ensures GetEvent(keys).None? && CheckMove(st, Turn(Greedy(st.food, Head(st.snake), st.snake.direction))) >= 1 ==>
      r == Some(Turn(Greedy(st.food, Head(st.snake), st.snake.direction)))
    ensures GetEvent(keys).None? && CheckMove(st, Turn(Greedy(st.food, Head(st.snake), st.snake.direction))) < 1 ==>
      r == Some(Turn(FirstBest(st)))
  {
    var kb := GetEvent(keys);
    if kb.Some? then kb
    else
      var g := Greedy(st.food, Head(st.snake), st.snake.direction);
      if CheckMove(st, Turn(g)) < 1 then
        Some(Turn(FirstBest(st)))
      else
        Some(Turn(g))
  }

  /**
   Right after a move, with the food off the neck, the autopilot never picks
   the reverse heading by itself unless every heading scores 0.
   */
  lemma DecideAvoidsReverse(st: Stage)
    requires |st.snake.points| >= 2 && HeadLeads(st.snake)
    requires st.food != st.snake.points[|st.snake.points| - 2]
    requires exists d :: CheckMove(st, Turn(d)) > 0
    ensures Decide(st, "") != Some(Turn(Opposite(st.snake.direction)))
  {
    ReverseScoresZero(st);
  }

  /**
   `AutoSnake.pause` polls the keyboard itself, not the autopilot: it ends
   at the first poll whose keys read as pause, exit or quit, and never
   without a key.
   */
  function AutoPause(polls: seq<string>): (r: PauseEnd)
    ensures r.Resumed? ==> r.at < |polls| && GetEvent(polls[r.at]) == Some(Pause)
    ensures r.Quitted? ==> r.at < |polls| && (GetEvent(polls[r.at]) == Some(Exit) || GetEvent(polls[r.at]) == Some(Quit))
    ensures r.Resumed? || r.Quitted? ==> forall i :: 0 <= i < r.at ==> !Decisive(GetEvent(polls[i]))
    ensures r.Waiting? <==> forall i :: 0 <= i < |polls| ==> !Decisive(GetEvent(polls[i]))
    ensures (forall i :: 0 <= i < |polls| ==> polls[i] == "") ==> r == Waiting
  {
    PauseNeedsAKeyIf(polls);
    PauseOn(KeyboardEvents(polls))
  }

  lemma PauseNeedsAKeyIf(polls: seq<string>)
    ensures (forall i :: 0 <= i < |polls| ==> polls[i] == "") ==> PauseOn(KeyboardEvents(polls)) == Waiting
  {
    if forall i :: 0 <= i < |polls| ==> polls[i] == "" {
      PauseNeedsAKey(polls);
    }
  }

}
