/**
 The food search shared by `Stage.create_food` (src/snake/__init__.py) and
 `Field.create_food` (snake.py): two candidate pools, one of columns and one
 of rows; draw a column and a row; if the cell is free it is the food cell,
 otherwise drop that column and that row from the pools and draw again.

 The random source is a stream `roll`: draw number `k` picks the element at
 index `roll(k) % |pool|`. Every sequence of random choices is some stream,
 so a property proved for every `roll` holds however the draws fall.
 */
module FoodPools {
  import opened Geometry
  import opened Wrappers

  /** `random.choice(pool)` driven by draw number `k`. */
  function Pick(pool: seq<int>, roll: nat -> nat, k: nat): (v: int)
    requires |pool| > 0
    ensures v in pool
  {
    pool[roll(k) % |pool|]
  }

  /** `pool.remove(v)`: drops the first occurrence of `v`. */
  function Remove(pool: seq<int>, v: int): (r: seq<int>)
    requires v in pool
    ensures |r| == |pool| - 1
    ensures forall u :: u in r ==> u in pool
    ensures Distinct(pool) ==> Distinct(r) && v !in r
  {
    if pool[0] == v then pool[1..]
    else
      var rest := Remove(pool[1..], v);
      assert Distinct(pool) ==> pool[0] !in pool[1..];
      [pool[0]] + rest
  }

  /** The body cells a search over `xs` x `ys` can still run into. */
  function Occupied(xs: seq<int>, ys: seq<int>, body: seq<Point>): set<Point>
  {
    set p | p in body && p.x in xs && p.y in ys
  }

  /**
   The search loop. It ends because each miss shrinks both pools by one;
   a found cell comes from the pools and is free; and when it gives up, it
   has met at least min(|xs|, |ys|) distinct occupied cells, one per miss,
   since each miss removes the column and row of the cell it hit.
   */
  function Search(xs: seq<int>, ys: seq<int>, body: seq<Point>, roll: nat -> nat, k: nat): (r: Option<Point>)
    ensures r.Some? ==> r.value.x in xs && r.value.y in ys && r.value !in body
    ensures r.None? && Distinct(xs) && Distinct(ys) ==>
      |xs| <= |Occupied(xs, ys, body)| || |ys| <= |Occupied(xs, ys, body)|
    decreases |xs|
  {
    if |xs| == 0 || |ys| == 0 then None
    else
      var p := Point(Pick(xs, roll, k), Pick(ys, roll, k + 1));
      if p !in body then Some(p)
      else
        var xs', ys' := Remove(xs, p.x), Remove(ys, p.y);
        var r := Search(xs', ys', body, roll, k + 2);
        assert r.None? && Distinct(xs) && Distinct(ys) ==>
          |xs| <= |Occupied(xs, ys, body)| || |ys| <= |Occupied(xs, ys, body)| by {
          if r.None? && Distinct(xs) && Distinct(ys) {
            var before, after := Occupied(xs, ys, body), Occupied(xs', ys', body);
            assert after <= before - {p};
            SubsetSize(after, before - {p});
            assert p in before;
          }
        }
        r
  }

  lemma {:induction false} SetOfSeqSize<T>(s: seq<T>)
    ensures |set x | x in s| <= |s|
  {
    if |s| > 0 {
      SetOfSeqSize(s[1..]);
      assert (set x | x in s) == (set x | x in s[1..]) + {s[0]};
    }
  }

  /**
   The search over a whole `width` x `height` board, pools `range(width)`
   and `range(height)`: a found cell is a free board cell, and while the
   body has fewer cells than the board has columns and rows, a cell is
   always found.
   */
  function Place(width: int, height: int, body: seq<Point>, roll: nat -> nat): (r: Option<Point>)
    ensures r.Some? ==> InBounds(r.value, width, height) && r.value !in body
    ensures |body| < width && |body| < height ==> r.Some?
  {
    RangeDistinct(width);
    RangeDistinct(height);
    SetOfSeqSize(body);
    SubsetSize(Occupied(Range(width), Range(height), body), set x | x in body);
    match Search(Range(width), Range(height), body, roll, 0)
    case Some(p) =>
      RangeMembers(width, p.x);
      RangeMembers(height, p.y);
      Some(p)
    case None => None
  }

  /** On a board whose every pooled cell is occupied, the search never places food. */
  lemma FullBoardGivesUp(xs: seq<int>, ys: seq<int>, body: seq<Point>, roll: nat -> nat, k: nat)
    requires forall x, y :: x in xs && y in ys ==> Point(x, y) in body
    ensures Search(xs, ys, body, roll, k) == None
  {
  }

  /**
   The pool heuristic can give up although a free cell remains: on a 2 x 2
   board holding the three-cell body (0,0), (1,0), (1,1), draws that always
   take the first pool entry hit (0,0) and then (1,1), after which both pools
   are empty, while (0,1) is free.
   */
  lemma {:induction false} SearchCanMissFreeCell()
    ensures Point(0, 1) !in [Point(0, 0), Point(1, 0), Point(1, 1)]
    ensures Search(Range(2), Range(2), [Point(0, 0), Point(1, 0), Point(1, 1)], k => 0, 0) == None
  {
    var body := [Point(0, 0), Point(1, 0), Point(1, 1)];
    var roll: nat -> nat := k => 0;
    assert Range(2) == [0, 1];
    assert Pick([0, 1], roll, 0) == 0 && Pick([0, 1], roll, 1) == 0;
    assert Remove([0, 1], 0) == [1];
    assert Pick([1], roll, 2) == 1 && Pick([1], roll, 3) == 1;
    assert Remove([1], 1) == [];
    assert Search([], [], body, roll, 4) == None;
  }

}
