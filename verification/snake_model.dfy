/**
 The `Snake` class of the canonical engine (src/snake/__init__.py): an ordered
 body from tail (index 0) to head (last index), a stored length, a heading
 and an alive flag. Every operation is a pure function from the old snake to
 the new one.
 */
module SnakeModel {
  import opened Geometry

  datatype Snake = Snake(length: int, direction: Direction, isAlive: bool, points: seq<Point>)

  /** The stored length mirrors the body and the body is never empty. */
  predicate WellFormed(s: Snake)
  {
    |s.points| > 0 && s.length == |s.points|
  }

  function Head(s: Snake): Point
    requires |s.points| > 0
  {
    s.points[|s.points| - 1]
  }

  function Tail(s: Snake): Point
    requires |s.points| > 0
  {
    s.points[0]
  }

  /** Each segment is one unit away from the one before it. */
  ghost predicate Contiguous(ps: seq<Point>)
  {
    forall i, j :: 0 <= i < j < |ps| && j == i + 1 ==> Adjacent(ps[i], ps[j])
  }

  /**
   The head was reached from the segment behind it by the current heading,
   which is what holds right after a move.
   */
  predicate HeadLeads(s: Snake)
  {
    |s.points| >= 2 ==> Head(s) == Step(s.points[|s.points| - 2], s.direction)
  }

  /** `reset`: three cells along the top row, heading right, alive. */
  function Reset(): (r: Snake)
    ensures WellFormed(r) && r.length == 3 && r.isAlive
    ensures Tail(r) == Point(0, 0) && r.direction == Right
    ensures Distinct(r.points) && HeadLeads(r)
  {
    Snake(3, Right, true, [Point(0, 0), Point(1, 0), Point(2, 0)])
  }

  /** The fresh body is one unbroken line of cells. */
  lemma ResetIsContiguous()
    ensures Contiguous(Reset().points)
  {
  }

  /** `change_direction`: any heading but the exact reverse is taken. */
  function ChangeDirection(s: Snake, d: Direction): (r: Snake)
    ensures r.direction != Opposite(s.direction)
    ensures d != Opposite(s.direction) ==> r.direction == d
    ensures d == Opposite(s.direction) ==> r == s
    ensures r == s.(direction := r.direction)
  {
    if (d == Right && s.direction == Left)
      || (d == Left && s.direction == Right)
      || (d == Up && s.direction == Down)
      || (d == Down && s.direction == Up)
    then s
    else s.(direction := d)
  }

  /** `grow`: the given cell becomes the new tail; the head stays put. */
  function Grow(s: Snake, p: Point): (r: Snake)
    ensures r.length == s.length + 1
    ensures |r.points| == |s.points| + 1 && Tail(r) == p && r.points[1..] == s.points
    ensures |s.points| > 0 ==> Head(r) == Head(s)
    ensures WellFormed(s) ==> WellFormed(r)
    ensures r.direction == s.direction && r.isAlive == s.isAlive
  {
    s.(length := s.length + 1, points := [p] + s.points)
  }

  /**
   `move`: append the cell one step ahead of the head and drop the old tail.
   Bounds and self-collision are left to the stage.
   */
  function Move(s: Snake): (r: Snake)
    requires |s.points| > 0
    ensures |r.points| == |s.points|
    ensures Head(r) == Step(Head(s), s.direction)
    ensures r.points[..|r.points| - 1] == s.points[1..]
    ensures r == s.(points := r.points)
  {
    var head := Head(s);
    var newHead :=
      if s.direction == Right then Point(head.x + 1, head.y)
      else if s.direction == Left then Point(head.x - 1, head.y)
      else if s.direction == Up then Point(head.x, head.y - 1)
      else Point(head.x, head.y + 1);
    s.(points := (s.points + [newHead])[1..])
  }

  /** A move followed by regrowing the vacated tail keeps the whole old body and adds the new head. */
  lemma GrowAfterMoveKeepsTail(s: Snake)
    requires |s.points| > 0
    ensures Grow(Move(s), Tail(s)).points == s.points + [Step(Head(s), s.direction)]
  {
    var m := Move(s);
    assert m.points == s.points[1..] + [Head(m)];
  }

  /** A move leaves the head one step ahead of its neck, in the heading. */
  lemma MoveLeadsHead(s: Snake)
    requires |s.points| > 0
    ensures HeadLeads(Move(s))
  {
    var m := Move(s);
    var n := |s.points|;
    if n >= 2 {
      assert m.points[n - 2] == s.points[n - 1];
    }
  }

  lemma GrowKeepsHeadLeads(s: Snake, p: Point)
    requires |s.points| >= 2 && HeadLeads(s)
    ensures HeadLeads(Grow(s, p))
  {
    var g := Grow(s, p);
    if |s.points| >= 2 {
      assert g.points[|g.points| - 2] == s.points[|s.points| - 2];
    }
  }

  /**
   Right after a move, no accepted turn can send the head back onto the
   segment behind it: the only heading that would is the reverse, which
   `change_direction` refuses.
   */
  lemma {:induction false} TurnNeverReachesNeck(s: Snake, d: Direction)
    requires |s.points| >= 2 && HeadLeads(s)
    ensures var c := ChangeDirection(s, d);
      Step(Head(c), c.direction) != s.points[|s.points| - 2]
  {
    var c := ChangeDirection(s, d);
    var neck := s.points[|s.points| - 2];
    StepBack(neck, s.direction, c.direction);
  }

}
