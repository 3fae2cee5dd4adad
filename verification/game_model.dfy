/**
 The `Game` class of the canonical engine (src/snake/__init__.py): turning
 the keys buffered since the last tick into an event, dispatching it, the
 wait loop of the pause, one iteration of the play loop, and the end-of-round
 test. Sleeping, the blocking reads and the terminal writes are left to the
 caller: the keys of a tick arrive as a string, the polls of a pause as a
 sequence of such strings.
 */
module GameModel {
  import opened Geometry
  import opened Wrappers
  import opened SnakeModel
  import opened StageModel
  import FoodPools

  datatype Event = Exit | Quit | Pause | Turn(heading: Direction)

  /** The key string each event is bound to: escape, q, space and w/s/a/d. */
  function Key(e: Event): string
  {
    match e
    case Exit => [27 as char]
    case Quit => "q"
    case Pause => " "
    case Turn(Up) => "w"
    case Turn(Down) => "s"
    case Turn(Left) => "a"
    case Turn(Right) => "d"
  }

  /** `str.lower` on the ASCII letters; every key above is ASCII. */
  function LowerChar(c: char): char
  {
    if 'A' <= c <= 'Z' then (c as int + 32) as char else c
  }

  function Lower(s: string): (r: string)
    ensures |r| == |s|
    ensures forall i :: 0 <= i < |s| ==> r[i] == LowerChar(s[i])
  {
    if |s| == 0 then [] else [LowerChar(s[0])] + Lower(s[1..])
  }

  /**
   `get_event`: all keys buffered since the last tick are joined, and the
   result names an event only if the lower-cased join is exactly that
   event's key. Two keys in one tick therefore give no event at all.
   */
  function GetEvent(keys: string): (r: Option<Event>)
    ensures r.Some? ==> Lower(keys) == Key(r.value)
    ensures r.None? ==> forall e :: Lower(keys) != Key(e)
    ensures |keys| != 1 ==> r == None
  {
    if |keys| == 0 then None
    else
      var k := Lower(keys);
      if k == [27 as char] then Some(Exit)
      else if k == "q" then Some(Quit)
      else if k == " " then Some(Pause)
      else if k == "w" then Some(Turn(Up))
      else if k == "s" then Some(Turn(Down))
      else if k == "a" then Some(Turn(Left))
      else if k == "d" then Some(Turn(Right))
      else None
  }

  /** Pressing an event's key alone, in either case, gives that event back. */
  lemma GetEventOfKey(e: Event)
    ensures GetEvent(Key(e)) == Some(e)
    ensures e.Turn? || e == Quit ==> GetEvent([(Key(e)[0] as int - 32) as char]) == Some(e)
  {
    var k := Key(e);
    assert |k| == 1 && Lower(k) == [LowerChar(k[0])] == k;
    if e.Turn? || e == Quit {
      var u := [(k[0] as int - 32) as char];
      assert Lower(u) == [LowerChar(u[0])] == k;
    }
  }

  /** What the play loop does after dispatching an event. */
  datatype Control = Stop | Hold | Proceed(stage: Stage)

  /** Whether the event is a turn the snake takes: any heading but the reverse of its own. */
  predicate Accepts(st: Stage, ev: Option<Event>)
  {
    ev.Some? && ev.value.Turn? && ev.value.heading != Opposite(st.snake.direction)
  }

  /**
   `handle_event`: escape and q stop the game, space pauses it, a heading is
   offered to the snake, and no event changes nothing.
   */
  function HandleEvent(st: Stage, ev: Option<Event>): (r: Control)
    ensures r.Stop? <==> ev == Some(Exit) || ev == Some(Quit)
    ensures r.Hold? <==> ev == Some(Pause)
    ensures r.Proceed? ==> r.stage == st.(snake := r.stage.snake) && r.stage.snake.direction != Opposite(st.snake.direction)
    ensures ev.Some? && ev.value.Turn? && ev.value.heading != Opposite(st.snake.direction) ==>
      r == Proceed(st.(snake := st.snake.(direction := ev.value.heading)))
    ensures ev == None ==> r == Proceed(st)
    ensures ev != Some(Exit) && ev != Some(Quit) && ev != Some(Pause) && !Accepts(st, ev) ==> r == Proceed(st)
  {
    if ev == Some(Exit) || ev == Some(Quit) then Stop
    else if ev == Some(Pause) then Hold
    else if ev.Some? then Proceed(st.(snake := ChangeDirection(st.snake, ev.value.heading)))
    else Proceed(st)
  }

  // ---------------------------------------------------------------------------
  // Pause.

  datatype PauseEnd = Resumed(at: nat) | Quitted(at: nat) | Waiting

  /** An event that ends a pause. */
  predicate Decisive(ev: Option<Event>)
  {
    ev == Some(Exit) || ev == Some(Quit) || ev == Some(Pause)
  }

  /**
   The wait loop of `pause` over the events of successive polls: the first
   exit or quit ends the game, the first pause resumes, anything else is
   ignored; if no poll decides, the game is still paused.
   */
  function PauseOn(events: seq<Option<Event>>): (r: PauseEnd)
    ensures r.Resumed? ==> r.at < |events| && events[r.at] == Some(Pause)
    ensures r.Quitted? ==> r.at < |events| && (events[r.at] == Some(Exit) || events[r.at] == Some(Quit))
    ensures r.Resumed? || r.Quitted? ==> forall i :: 0 <= i < r.at ==> !Decisive(events[i])
    ensures r.Waiting? <==> forall i :: 0 <= i < |events| ==> !Decisive(events[i])
    decreases |events|
  {
    if |events| == 0 then Waiting
    else if events[0] == Some(Exit) || events[0] == Some(Quit) then Quitted(0)
    else if events[0] == Some(Pause) then Resumed(0)
    else
      match PauseOn(events[1..])
      case Resumed(i) => Resumed(i + 1)
      case Quitted(i) => Quitted(i + 1)
      case Waiting => Waiting
  }

  /** The events the keyboard gives for a sequence of polls. */
  function KeyboardEvents(polls: seq<string>): (r: seq<Option<Event>>)
    ensures |r| == |polls|
    ensures forall i :: 0 <= i < |polls| ==> r[i] == GetEvent(polls[i])
  {
    seq(|polls|, i requires 0 <= i < |polls| => GetEvent(polls[i]))
  }

  /** With no key pressed the pause never ends by itself. */
  lemma PauseNeedsAKey(polls: seq<string>)
    requires forall i :: 0 <= i < |polls| ==> polls[i] == ""
    ensures PauseOn(KeyboardEvents(polls)) == Waiting
  {
  }

  // ---------------------------------------------------------------------------
  // The play loop.

  datatype Ending = Win | Loss

  /** The tests after each tick: a body as long as the board has cells wins; otherwise a dead snake loses. */
  function RoundEnd(st: Stage): (r: Option<Ending>)
    ensures r == Some(Win) <==> st.snake.length >= st.width * st.height
    ensures r == Some(Loss) <==> st.snake.length < st.width * st.height && !st.snake.isAlive
  {
    if st.snake.length >= st.width * st.height then Some(Win)
    else if !st.snake.isAlive then Some(Loss)
    else None
  }

  /**
   A body of distinct board cells is never longer than the board has cells,
   so the win test fires exactly when the body fills the board.
   */
  lemma {:induction false} WinMeansFullBoard(st: Stage)
    requires WellFormed(st.snake) && Distinct(st.snake.points) && OnBoard(st.snake.points, st.width, st.height)
    ensures RoundEnd(st) == Some(Win) <==> |st.snake.points| == st.width * st.height
  {
    assert InBounds(st.snake.points[0], st.width, st.height);
    BoardCapacity(st.snake.points, st.width, st.height);
  }

  /** In a valid round the food holds one more free cell, so the round is not won. */
  lemma {:induction false} ValidRoundNotWon(st: Stage)
    requires Valid(st)
    ensures RoundEnd(st) != Some(Win)
  {
    var ps := st.snake.points + [st.food];
    assert InBounds(st.food, st.width, st.height);
    assert Distinct(ps) by {
      forall i, j | 0 <= i < j < |ps|
        ensures ps[i] != ps[j]
      {
        if j == |ps| - 1 {
          assert ps[i] in st.snake.points;
        }
      }
    }
    BoardCapacity(ps, st.width, st.height);
  }

  datatype TickResult = Exited | Paused | Advanced(stage: Stage, ending: Option<Ending>)

  /** The rest of an iteration of `play` once the event is handled: `update`, then the end-of-round tests. */
  function Advance(st: Stage, roll: nat -> nat): (r: TickResult)
    requires |st.snake.points| > 0
    ensures r.Advanced? && r.stage.snake.length >= st.snake.length
    ensures r.stage.width == st.width && r.stage.height == st.height
    ensures r.stage.snake.direction == st.snake.direction
    ensures r.ending == Some(Win) <==> r.stage.snake.length >= st.width * st.height
    ensures r.ending == None ==> r.stage.snake.isAlive
    ensures r.stage.snake.isAlive == (st.snake.isAlive && !Crashes(st))
    ensures |r.stage.snake.points| > 0 && Head(r.stage.snake) == NextHead(st)
    ensures r.stage.snake.points ==
      (if !Crashes(st) && Eats(st) then st.snake.points else st.snake.points[1..]) + [NextHead(st)]
  {
    var next := Update(st, roll);
    TickLength(st, roll);
    UpdateMovesSnake(st, roll);
    Advanced(next, RoundEnd(next))
  }

  /**
   The stage `update` runs on once the event `ev` is handled and, for a
   pause, the wait has ended as `pause` says: the steered stage, the
   resized stage after a resumed pause, and none when the iteration stops
   there.
   */
  function Continuing(st: Stage, ev: Option<Event>, pause: PauseEnd, columns: int, lines: int): (r: Option<Stage>)
    ensures r.None? <==> ev == Some(Exit) || ev == Some(Quit) || (ev == Some(Pause) && !pause.Resumed?)
    ensures r.Some? ==> r.value.snake == st.snake.(direction := r.value.snake.direction)
    ensures r.Some? ==> r.value.food == st.food && r.value.pixels == st.pixels
    ensures r.Some? && ev == Some(Pause) ==> r.value.width == columns && r.value.height == 2 * lines
    ensures r.Some? && ev != Some(Pause) ==> r.value.width == st.width && r.value.height == st.height
    ensures r.Some? && Accepts(st, ev) ==> r.value.snake.direction == ev.value.heading
    ensures r.Some? && !Accepts(st, ev) ==> r.value.snake.direction == st.snake.direction
  {
    match HandleEvent(st, ev)
    case Stop => None
    case Hold => if pause.Resumed? then Some(UpdateSize(st, columns, lines)) else None
    case Proceed(turned) =>
      assert !Accepts(st, ev) ==> turned == st;
      Some(turned)
  }

  /**
   The dispatch of one iteration of `play`, once the event `ev` is read and,
   for a pause, the wait has ended as `pause` says: exit, stay paused, or
   go on with `update` and the end-of-round tests, on the resized board
   after a pause and on the steered snake otherwise.
   */
  function Dispatch(st: Stage, ev: Option<Event>, pause: PauseEnd, columns: int, lines: int, roll: nat -> nat): (r: TickResult)
    requires |st.snake.points| > 0
    ensures r == Exited <==> ev == Some(Exit) || ev == Some(Quit) || (ev == Some(Pause) && pause.Quitted?)
    ensures r == Paused <==> ev == Some(Pause) && pause == Waiting
    ensures r.Advanced? ==>
      && r.stage.snake.length >= st.snake.length
      && (r.ending == Some(Win) <==> r.stage.snake.length >= r.stage.width * r.stage.height)
      && (r.ending == None ==> r.stage.snake.isAlive)
    ensures r.Advanced? && ev == Some(Pause) ==> r.stage.width == columns && r.stage.height == 2 * lines
    ensures r.Advanced? && ev != Some(Pause) ==> r.stage.width == st.width && r.stage.height == st.height
    ensures r.Advanced? && Accepts(st, ev) ==> r.stage.snake.direction == ev.value.heading
    ensures r.Advanced? && !Accepts(st, ev) ==> r.stage.snake.direction == st.snake.direction
    ensures r.Advanced? ==>
      && |r.stage.snake.points| > 0
      && Head(r.stage.snake) == Step(Head(st.snake), r.stage.snake.direction)
      && r.stage.snake.isAlive == (&& st.snake.isAlive
                                   && Head(r.stage.snake) !in st.snake.points[1..]
                                   && InBounds(Head(r.stage.snake), r.stage.width, r.stage.height))
  {
    match Continuing(st, ev, pause, columns, lines)
    case None => if ev == Some(Pause) && pause == Waiting then Paused else Exited
    case Some(next) =>
      assert next.snake.points == st.snake.points && next.snake.isAlive == st.snake.isAlive;
      assert next.snake.length == st.snake.length;
      AdvanceMoves(next, roll);
      Advance(next, roll)
  }

  /**
   One iteration of `play` after the sleep: read the event and dispatch it.
   A pause polls the keyboard (`polls`, the keys buffered at each poll)
   until a pause, exit or quit key; on resuming it re-reads the terminal
   size, `columns` x `lines`, and the iteration goes on as after any other
   event, with `update` and the end-of-round tests on the resized board.
   `Paused` is a pause that none of the polls ended. A tick that goes on
   takes an accepted turn and otherwise keeps the heading; its head moves
   one cell in that heading, and the snake stays alive exactly when it was
   alive and that cell is on the board and off the body the old tail
   leaves behind.
   */
  function Tick(st: Stage, keys: string, polls: seq<string>, columns: int, lines: int, roll: nat -> nat): (r: TickResult)
    requires |st.snake.points| > 0
    ensures r == Exited <==>
      (|| GetEvent(keys) == Some(Exit) || GetEvent(keys) == Some(Quit)
       || (GetEvent(keys) == Some(Pause) && PauseOn(KeyboardEvents(polls)).Quitted?))
    ensures r == Paused <==> GetEvent(keys) == Some(Pause) && PauseOn(KeyboardEvents(polls)) == Waiting
    ensures r.Advanced? ==>
      && r.stage.snake.length >= st.snake.length
      && (r.ending == Some(Win) <==> r.stage.snake.length >= r.stage.width * r.stage.height)
      && (r.ending == None ==> r.stage.snake.isAlive)
    ensures r.Advanced? && GetEvent(keys) == Some(Pause) ==>
      r.stage.width == columns && r.stage.height == 2 * lines && r.stage.snake.direction == st.snake.direction
    ensures r.Advanced? && GetEvent(keys) != Some(Pause) ==> r.stage.width == st.width && r.stage.height == st.height
    ensures r.Advanced? && Accepts(st, GetEvent(keys)) ==> r.stage.snake.direction == GetEvent(keys).value.heading
    ensures r.Advanced? && !Accepts(st, GetEvent(keys)) ==> r.stage.snake.direction == st.snake.direction
    ensures r.Advanced? ==>
      && |r.stage.snake.points| > 0
      && Head(r.stage.snake) == Step(Head(st.snake), r.stage.snake.direction)
      && r.stage.snake.isAlive == (&& st.snake.isAlive
                                   && Head(r.stage.snake) !in st.snake.points[1..]
                                   && InBounds(Head(r.stage.snake), r.stage.width, r.stage.height))
  {
    Dispatch(st, GetEvent(keys), PauseOn(KeyboardEvents(polls)), columns, lines, roll)
  }

  /** `update` moves the head one cell in the stage's heading, and the snake survives exactly a step onto a free board cell. */
  lemma AdvanceMoves(s0: Stage, roll: nat -> nat)
    requires |s0.snake.points| > 0
    ensures var r := Advance(s0, roll);
      && |r.stage.snake.points| > 0
      && Head(r.stage.snake) == Step(Head(s0.snake), r.stage.snake.direction)
      && r.stage.snake.isAlive == (&& s0.snake.isAlive
                                   && Head(r.stage.snake) !in s0.snake.points[1..]
                                   && InBounds(Head(r.stage.snake), r.stage.width, r.stage.height))
  {
  }

  /** A tick never shortens the body. */
  lemma TickLength(st: Stage, roll: nat -> nat)
    requires |st.snake.points| > 0
    ensures Update(st, roll).snake.length >= st.snake.length
  {
    if Crashes(st) {
      UpdateOnCrash(st, roll);
    } else if Eats(st) {
      UpdateOnEating(st, roll);
    } else {
      UpdateOnStep(st, roll);
    }
  }

  /**
   `Game.reset` as intended: read the terminal size, then start a round
   with the corrected `Stage.reset`, which is valid on any terminal more
   than 3 columns wide and 1 line tall.
   */
  function NewRound(st: Stage, columns: int, lines: int, roll: nat -> nat): (r: Stage)
    ensures r.snake == Reset() && r.width == columns && r.height == 2 * lines
    ensures columns > 3 && lines > 1 ==> Valid(r) && RoundEnd(r) == None
  {
    StageReset(UpdateSize(st, columns, lines), roll)
  }

  /**
   `Game.reset` as written: resize, then `Stage.reset` as written, so the
   food avoids only the body of the round that ended and the pixel map is
   kept.
   */
  function NewRoundAsWritten(st: Stage, columns: int, lines: int, roll: nat -> nat): (r: Stage)
    ensures r.snake == Reset() && r.width == columns && r.height == 2 * lines
    ensures r.food == st.food || (InBounds(r.food, columns, 2 * lines) && r.food !in st.snake.points)
    ensures forall q :: q != r.food ==> PixelAt(r.pixels, q) == PixelAt(st.pixels, q)
  {
    ResetAsWritten(UpdateSize(st, columns, lines), roll)
  }

  /**
   `Game.__init__` and the `reset` that `play` runs before the first tick:
   the snake is built already reset, the stage starts with an empty pixel
   map and the food at (0, 0), then the terminal size is read and the reset
   as written searches the food against that fresh body. So the first
   round, unlike the later ones, is valid on any terminal more than 3
   columns wide and 1 line tall, and every pixel but the food's reads EMPTY.
   */
  function FirstRound(columns: int, lines: int, roll: nat -> nat): (r: Stage)
    ensures r.snake == Reset() && r.width == columns && r.height == 2 * lines
    ensures r.food == Point(0, 0) || (InBounds(r.food, columns, 2 * lines) && r.food !in Reset().points)
    ensures forall q :: q != r.food ==> PixelAt(r.pixels, q) == Empty
    ensures columns > 3 && lines > 1 ==> Valid(r) && RoundEnd(r) == None
  {
    var blank: map<Point, Color> := map[];
    var built := Stage(Reset(), blank, Point(0, 0), columns, 2 * lines);
    ResetFitsBoard(UpdateSize(built, columns, lines), roll);
    NewRoundAsWritten(built, columns, lines, roll)
  }

  /**
   When the first two draws pick column 1 and row 0, a cell the old body
   left free, the round as written starts with the food on the middle cell
   of the new snake, so it is not valid.
   */
  lemma NewRoundAsWrittenCanFeedOnSnake(st: Stage, columns: int, lines: int, roll: nat -> nat)
    requires columns > 1 && lines > 0 && roll(0) == 1 && roll(1) == 0
    requires Point(1, 0) !in st.snake.points
    ensures NewRoundAsWritten(st, columns, lines, roll).food == Point(1, 0)
    ensures !Valid(NewRoundAsWritten(st, columns, lines, roll))
  {
    var sized := UpdateSize(st, columns, lines);
    assert Range(columns)[1] == 1 && Range(2 * lines)[0] == 0;
    assert FoodPools.Pick(Range(columns), roll, 0) == 1;
    assert FoodPools.Pick(Range(2 * lines), roll, 1) == 0;
    assert FoodPools.Search(Range(columns), Range(2 * lines), st.snake.points, roll, 0) == Some(Point(1, 0));
    assert Reset().points[1] == Point(1, 0);
  }

}
