/** Which boxes of a diagram the curve of an edge crosses (render.py, `_edge_path`). */
module Crossings {
  import opened Graphs
  import opened Layout

  /** Strictly inside a box. */
  predicate Inside(p: Point, box: Point) {
    box.x < p.x < box.x + BOX_W && box.y < p.y < box.y + BOX_H
  }

  /** Some point of the edge from src to tgt is strictly inside the box. */
  ghost predicate Crosses(src: Point, tgt: Point, box: Point) {
    exists t :: 0.0 <= t <= 1.0 && Inside(At(PathOf(src, tgt).curve, t), box)
  }

  // ------------------------------------------------------------------ downward

  /** An edge to the next row crosses no box. */
  lemma NextRowCrossesNoBox(names: seq<Node>, depth: map<Node, nat>, pos: map<Node, Point>, width: real, height: real,
                            u: Node, v: Node, w: Node)
    requires forall n :: n in names ==> n in depth
    requires IsGrid(names, depth, pos, width, height)
    requires u in names && v in names && w in names && depth[v] == depth[u] + 1
    ensures u in pos && v in pos && w in pos
    ensures !Crosses(pos[u], pos[v], pos[w])
  {
    hide IsGrid, At, PathOf;
    RowsGiveHeights(names, depth, pos, width, height, u, v);
    RowsGiveHeights(names, depth, pos, width, height, u, w);
    RowsGiveHeights(names, depth, pos, width, height, w, v);
    forall t | 0.0 <= t <= 1.0 ensures !Inside(At(PathOf(pos[u], pos[v]).curve, t), pos[w]) {
      DownwardBetweenBoxes(pos[u], pos[v], t);
    }
  }

  // ------------------------------------------------------------------ self-loops

  /** The curve of a self-loop goes straight out to the right and back. */
  lemma LoopAt(p: Point, t: real)
    requires 0.0 <= t <= 1.0
    ensures At(PathOf(p, p).curve, t) == Point(p.x + BOX_W + 204.0 * (t * (1.0 - t)), p.y + BOX_H / 2.0)
    ensures 0.0 <= t * (1.0 - t) <= 0.25
  {
    ProductNonNegative(t, 1.0 - t);
    var off := if t < 0.5 then 0.5 - t else t - 0.5;
    ProductNonNegative(off, off);
    assert t * (1.0 - t) == 0.25 - off * off;
  }

  /** A self-loop crosses the box next to it, if there is one, and no other. */
  lemma LoopCrossesOnlyNeighbour(names: seq<Node>, depth: map<Node, nat>, pos: map<Node, Point>, width: real, height: real,
                                 u: Node, w: Node)
    requires forall n :: n in names ==> n in depth
    requires IsGrid(names, depth, pos, width, height) && u in names && w in names
    ensures u in pos && w in pos
    ensures Crosses(pos[u], pos[u], pos[w]) <==> pos[w] == Point(pos[u].x + BOX_W + GAP_X, pos[u].y)
  {
    var widest, i, j := GridSlots(names, depth, pos, width, height, u, w);
    RowsGiveHeights(names, depth, pos, width, height, u, w);
    RowsGiveHeights(names, depth, pos, width, height, w, u);
    hide IsGrid, At, PathOf, RowOf;
    if t :| 0.0 <= t <= 1.0 && Inside(At(PathOf(pos[u], pos[u]).curve, t), pos[w]) {
      LoopAt(pos[u], t);
      assert depth[u] == depth[w] && i < j < i + 2;
    }
    if pos[w] == Point(pos[u].x + BOX_W + GAP_X, pos[u].y) {
      LoopAt(pos[u], 0.5);
      assert Inside(At(PathOf(pos[u], pos[u]).curve, 0.5), pos[w]);
    }
  }

  // ------------------------------------------------------------------ any bowed edge

  /** Boxes out of the way: above or below the edge, left of its nearer end, or right of its furthest point. */
  lemma BowedMisses(src: Point, tgt: Point, box: Point)
    requires tgt.y <= src.y
    requires || box.y + BOX_H <= tgt.y + BOX_H / 2.0
             || src.y + BOX_H / 2.0 <= box.y
             || box.x <= Min(src.x, tgt.x)
             || PathOf(src, tgt).rightmost <= box.x
    ensures !Crosses(src, tgt, box)
  {
    hide At, PathOf;
    forall t | 0.0 <= t <= 1.0 ensures !Inside(At(PathOf(src, tgt).curve, t), box) {
      BowedRightOfBoxes(src, tgt, t);
      CurveStaysLeft(src, tgt, t);
    }
  }

  // ------------------------------------------------------------------ up one row: the curve

  /** How far right of its start the curve is at t, when it ends d to the right. */
  function Sway(d: real, t: real): real {
    Swing(Max(d, 0.0) + 68.0, d, t)
  }

  lemma BlendSideways(t: real, w: real, z: real)
    ensures var bow := Max(w, z) + 68.0; Blend(1.0 - t, t, w, bow, bow, z) == w + Sway(z - w, t)
  {
    var bow := Max(w, z) + 68.0;
    assert bow - w == Max(z - w, 0.0) + 68.0;
    BlendSwings(t, w, bow, z);
    hide Blend, Swing, Max;
  }

  lemma BlendUpwards(t: real, a: real)
    ensures var c := a - (BOX_H + GAP_Y); Blend(1.0 - t, t, a, a, c, c) == a - (BOX_H + GAP_Y) * Rise(t)
  {
  }

  /** The curve to the row directly above, seen from its source. */
  lemma UpwardAt(src: Point, tgt: Point, t: real)
    requires tgt.y + BOX_H + GAP_Y == src.y
    ensures At(PathOf(src, tgt).curve, t) ==
            Point(src.x + BOX_W + Sway(tgt.x - src.x, t), src.y + BOX_H / 2.0 - (BOX_H + GAP_Y) * Rise(t))
  {
    hide Blend, Rise, Sway;
    BlendSideways(t, src.x + BOX_W, tgt.x + BOX_W);
    BlendUpwards(t, src.y + BOX_H / 2.0);
    assert (tgt.x + BOX_W) - (src.x + BOX_W) == tgt.x - src.x;
    assert tgt.y + BOX_H / 2.0 == src.y + BOX_H / 2.0 - (BOX_H + GAP_Y);
  }

  lemma SwingBackwards(room: real, d: real, t: real)
    ensures Swing(room + Max(d, 0.0), d, t) == d + Swing(room + Max(-d, 0.0), -d, 1.0 - t)
  {
  }

  lemma SwayBackwards(d: real, t: real)
    ensures Sway(d, t) == d + Sway(-d, 1.0 - t)
  {
    hide Swing;
    SwingBackwards(68.0, d, t);
  }

  lemma RiseBackwards(t: real)
    ensures Rise(t) == 1.0 - Rise(1.0 - t)
  {
  }

  /** And seen from its target. */
  lemma UpwardAtFromTarget(src: Point, tgt: Point, t: real)
    requires tgt.y + BOX_H + GAP_Y == src.y
    ensures At(PathOf(src, tgt).curve, 1.0 - t) ==
            Point(tgt.x + BOX_W + Sway(src.x - tgt.x, t), tgt.y + BOX_H / 2.0 + (BOX_H + GAP_Y) * Rise(t))
  {
    hide At, PathOf, Sway, Rise;
    UpwardAt(src, tgt, 1.0 - t);
    SwayBackwards(tgt.x - src.x, 1.0 - t);
    RiseBackwards(1.0 - t);
    assert 1.0 - (1.0 - t) == t && -(tgt.x - src.x) == src.x - tgt.x;
  }

  // ------------------------------------------------------------------ up one row: leaving the source's row

  /** What the curve has covered of a row's height when it leaves the boxes of its row. */
  const OUT: real := BOX_H / 2.0 / (BOX_H + GAP_Y)

  /** Within its row, a curve that ends d to the right gets between `left` and a box's width more from its start. */
  ghost predicate SwaysInto(d: real, left: real) {
    exists t :: 0.0 <= t <= 1.0 && Rise(t) < OUT && left < Sway(d, t) < left + BOX_W
  }

  /** The curve is out of its row between these two moments. */
  const EARLY: real := 0.2969
  const LATE: real := 0.297

  lemma RiseGrows(s: real, t: real)
    requires 0.0 <= s <= t <= 1.0
    ensures Rise(s) <= Rise(t)
  {
    ProductNonNegative(s, 1.0 - s);
    ProductNonNegative(t, 1.0 - t);
    ProductNonNegative(s, 1.0 - t);
    ProductNonNegative(t, 1.0 - s);
    var slope := 2.0 * (s * (1.0 - s)) + 2.0 * (t * (1.0 - t)) + s * (1.0 - t) + t * (1.0 - s);
    ProductNonNegative(t - s, slope);
    assert Rise(t) - Rise(s) == (t - s) * slope;
  }

  lemma RiseIsOut(t: real)
    requires 0.0 <= t <= 1.0
    ensures 0.0 <= Rise(t)
    ensures Rise(t) < OUT ==> t < LATE
    ensures t <= EARLY ==> Rise(t) < OUT
  {
    RiseGrows(0.0, t);
    if LATE <= t {
      RiseGrows(LATE, t);
    }
    if t <= EARLY {
      RiseGrows(t, EARLY);
    }
  }

  /** While in its row, a curve that does not end far to the left stays right of its start ... */
  lemma SwayIsRightward(d: real, t: real)
    requires 0.0 <= t <= LATE && -1625.0 <= d
    ensures 0.0 <= Sway(d, t)
  {
    assert t * t <= LATE * LATE by { ProductNonNegative(LATE - t, LATE + t); }
    if d < 0.0 {
      ProductNonNegative(LATE * LATE - t * t, -d);
      ProductNonNegative(t, 204.0 * (1.0 - t) + t * t * d);
      assert Sway(d, t) == t * (204.0 * (1.0 - t) + t * t * d);
    } else {
      ProductNonNegative(t, 1.0 - t);
      ProductNonNegative(t * (1.0 - t), d + 68.0);
      ProductNonNegative(t, t * t);
      ProductNonNegative(t * t * t, d);
      assert Sway(d, t) == 3.0 * (t * (1.0 - t) * (d + 68.0)) + t * t * t * d;
    }
  }

  lemma Powers(t: real)
    requires 0.0 <= t <= LATE
    ensures 0.0 <= t * (1.0 - t) <= LATE * (1.0 - LATE)
    ensures 0.0 <= t * t * t <= LATE * LATE * LATE
  {
    ProductNonNegative(t, 1.0 - t);
    ProductNonNegative(LATE - t, 1.0 - LATE - t);
    ProductNonNegative(t, t);
    ProductNonNegative(t * t, t);
    ProductNonNegative(t, LATE);
    ProductNonNegative(LATE - t, LATE * LATE + LATE * t + t * t);
  }

  /** ... and gets no further than this. */
  lemma SwayIsBounded(d: real, t: real)
    requires 0.0 <= t <= LATE
    ensures Sway(d, t) <= 42.6 + 0.6526 * Max(d, 0.0)
  {
    var e := Max(d, 0.0);
    Powers(t);
    var (p, q) := (t * (1.0 - t), t * t * t);
    assert Sway(d, t) == 3.0 * (p * (e + 68.0)) + q * d;
    hide Sway;
    ProductNonNegative(LATE * (1.0 - LATE) - p, e + 68.0);
    ProductNonNegative(LATE * LATE * LATE - q, e);
    ProductNonNegative(q, e - d);
  }

  function Times(a: real, b: real): real {
    a * b
  }

  lemma Scaled(a: real, b: real, m: real)
    requires -m <= a <= m && 0.0 <= b <= 1.0
    ensures -m <= Times(a, b) <= m
  {
    ProductNonNegative(m - a, b);
    ProductNonNegative(m + a, b);
    ProductNonNegative(m, 1.0 - b);
  }

  function Cubes(s: real, t: real): real {
    t * t + t * s + s * s
  }

  lemma SwingDifference(room: real, d: real, s: real, t: real)
    ensures Swing(room, d, t) - Swing(room, d, s) ==
            3.0 * Times(Times(t - s, room), 1.0 - t - s) + Times(Times(t - s, d), Cubes(s, t))
  {
  }

  lemma CubesSmall(s: real, t: real)
    requires 0.0 <= s <= t <= LATE
    ensures 0.0 <= Cubes(s, t) <= 1.0
  {
    ProductNonNegative(s, t);
    ProductNonNegative(LATE - t, LATE + t);
    ProductNonNegative(LATE - s, LATE + s);
    ProductNonNegative(LATE - s, t);
    ProductNonNegative(s, s);
    ProductNonNegative(t, t);
  }

  lemma StepsSmall(d: real, step: real)
    requires 0.0 <= step && Times(step, Abs(d) + 68.0) <= 40.0
    ensures -40.0 <= Times(step, Max(d, 0.0) + 68.0) <= 40.0
    ensures -40.0 <= Times(step, d) <= 40.0
  {
    ProductNonNegative(step, Max(d, 0.0) + 68.0);
    ProductNonNegative(step, Abs(d) - Max(d, 0.0));
    ProductNonNegative(step, Abs(d) + 68.0 - d);
    ProductNonNegative(step, Abs(d) + 68.0 + d);
  }

  /** In a short time the curve moves by less than the width of a box. */
  lemma SwayIsSteady(d: real, s: real, t: real)
    requires 0.0 <= s <= t <= LATE && Times(t - s, Abs(d) + 68.0) <= 40.0
    ensures -BOX_W < Sway(d, t) - Sway(d, s) < BOX_W
  {
    hide Swing, Times, Cubes, Abs, Max;
    SwingDifference(Max(d, 0.0) + 68.0, d, s, t);
    CubesSmall(s, t);
    StepsSmall(d, t - s);
    Scaled(Times(t - s, Max(d, 0.0) + 68.0), 1.0 - t - s, 40.0);
    Scaled(Times(t - s, d), Cubes(s, t), 40.0);
  }

  /** Beyond the near side of a stretch that does not hold the start. */
  predicate IsBeyond(x: real, left: real) {
    (0.0 <= left < x) || (x < left + BOX_W <= 0.0)
  }

  lemma SwayAtStart(d: real)
    ensures Sway(d, 0.0) == 0.0
  {
  }

  /** Going back in small steps from beyond a stretch as wide as a box, one cannot miss it. */
  lemma {:induction false} StepsBack(d: real, left: real, step: real, k: nat, t: real)
    requires step > 0.0 && Times(step, Abs(d) + 68.0) <= 40.0
    requires t == step * k as real && t <= EARLY && IsBeyond(Sway(d, t), left)
    ensures SwaysInto(d, left)
  {
    hide Rise, Sway, Abs;
    if k == 0 {
      SwayAtStart(d);
    } else {
      ProductNonNegative(step, (k - 1) as real);
      assert t - step == step * (k - 1) as real;
      RiseIsOut(t);
      if !(left < Sway(d, t) < left + BOX_W) {
        SwayIsSteady(d, t - step, t);
        StepsBack(d, left, step, k - 1, t - step);
      }
    }
  }

  lemma BeyondMeansInto(d: real, left: real)
    requires IsBeyond(Sway(d, EARLY), left)
    ensures SwaysInto(d, left)
  {
    hide Sway, SwaysInto;
    var a := Abs(d) + 68.0;
    var n := (a / 100.0).Floor + 1;
    var step := EARLY / n as real;
    assert step * n as real == EARLY;
    ProductNonNegative(step, 100.0 * n as real - a);
    assert step * (100.0 * n as real) == 100.0 * EARLY;
    StepsBack(d, left, step, n, EARLY);
  }

  /** Where a curve gets to before it leaves its row: boxes to the right of its start ... */
  lemma SwaysRight(d: real, left: real)
    requires 0.0 <= left
    ensures 42.6 + 0.6526 * Max(d, 0.0) <= left ==> !SwaysInto(d, left)
    ensures 0.0 <= d && left < 42.58 + 0.6524 * d ==> SwaysInto(d, left)
  {
    if 42.6 + 0.6526 * Max(d, 0.0) <= left {
      forall t | 0.0 <= t <= 1.0 && Rise(t) < OUT ensures Sway(d, t) <= left {
        RiseIsOut(t);
        SwayIsBounded(d, t);
      }
    }
    if 0.0 <= d && left < 42.58 + 0.6524 * d {
      assert Sway(d, EARLY) >= 42.58 + 0.6524 * d;
      BeyondMeansInto(d, left);
    }
  }

  /** ... and boxes to the left of it, its own box first. */
  lemma SwaysLeft(d: real, left: real)
    requires left + BOX_W <= 0.0
    ensures -1625.0 <= d ==> !SwaysInto(d, left)
    ensures d <= -1628.0 && left + BOX_W == 0.0 ==> SwaysInto(d, left)
  {
    if -1625.0 <= d {
      forall t | 0.0 <= t <= 1.0 && Rise(t) < OUT ensures 0.0 <= Sway(d, t) {
        RiseIsOut(t);
        SwayIsRightward(d, t);
      }
    }
    if d <= -1628.0 && left + BOX_W == 0.0 {
      assert Sway(d, EARLY) < 0.0;
      BeyondMeansInto(d, left);
    }
  }

  // ------------------------------------------------------------------ up one row: which boxes are crossed

  /** A box of the source's row ... */
  lemma CrossesInSourceRow(src: Point, tgt: Point, box: Point)
    requires tgt.y + BOX_H + GAP_Y == src.y && box.y == src.y
    ensures Crosses(src, tgt, box) <==> SwaysInto(tgt.x - src.x, box.x - (src.x + BOX_W))
  {
    hide At, PathOf, Rise, Sway;
    forall t | 0.0 <= t <= 1.0
      ensures Inside(At(PathOf(src, tgt).curve, t), box) <==>
              Rise(t) < OUT && box.x - (src.x + BOX_W) < Sway(tgt.x - src.x, t) < box.x - (src.x + BOX_W) + BOX_W
    {
      UpwardAt(src, tgt, t);
      RiseIsOut(t);
    }
  }

  /** ... and one of the target's. */
  lemma CrossesInTargetRow(src: Point, tgt: Point, box: Point)
    requires tgt.y + BOX_H + GAP_Y == src.y && box.y == tgt.y
    ensures Crosses(src, tgt, box) <==> SwaysInto(src.x - tgt.x, box.x - (tgt.x + BOX_W))
  {
    hide At, PathOf, Rise, Sway;
    forall t | 0.0 <= t <= 1.0
      ensures Inside(At(PathOf(src, tgt).curve, 1.0 - t), box) <==>
              Rise(t) < OUT && box.x - (tgt.x + BOX_W) < Sway(src.x - tgt.x, t) < box.x - (tgt.x + BOX_W) + BOX_W
    {
      UpwardAtFromTarget(src, tgt, t);
      RiseIsOut(t);
    }
    if t :| 0.0 <= t <= 1.0 && Inside(At(PathOf(src, tgt).curve, t), box) {
      assert 1.0 - (1.0 - t) == t;
      assert Rise(1.0 - t) < OUT;
    }
  }

  /** Which boxes right of its start an edge crosses in the source's row: about two thirds of the way across ... */
  lemma ReachInSourceRow(src: Point, tgt: Point, box: Point)
    requires tgt.y + BOX_H + GAP_Y == src.y && box.y == src.y && src.x + BOX_W <= box.x
    ensures src.x <= tgt.x && box.x - (src.x + BOX_W) < 42.58 + 0.6524 * (tgt.x - src.x) ==> Crosses(src, tgt, box)
    ensures Crosses(src, tgt, box) ==> box.x - (src.x + BOX_W) < 42.6 + 0.6526 * Max(tgt.x - src.x, 0.0)
  {
    CrossesInSourceRow(src, tgt, box);
    SwaysRight(tgt.x - src.x, box.x - (src.x + BOX_W));
  }

  /** ... and the same from the target in its row. */
  lemma ReachInTargetRow(src: Point, tgt: Point, box: Point)
    requires tgt.y + BOX_H + GAP_Y == src.y && box.y == tgt.y && tgt.x + BOX_W <= box.x
    ensures tgt.x <= src.x && box.x - (tgt.x + BOX_W) < 42.58 + 0.6524 * (src.x - tgt.x) ==> Crosses(src, tgt, box)
    ensures Crosses(src, tgt, box) ==> box.x - (tgt.x + BOX_W) < 42.6 + 0.6526 * Max(src.x - tgt.x, 0.0)
  {
    CrossesInTargetRow(src, tgt, box);
    SwaysRight(src.x - tgt.x, box.x - (tgt.x + BOX_W));
  }

  /** On the grid the two bounds leave nothing open for the next fifteen boxes of the row. */
  lemma ReachIsExactNearby(p: nat, q: nat)
    requires p < 15
    ensures var (left, d) := (GAP_X + p as real * (BOX_W + GAP_X), q as real * ((BOX_W + GAP_X) / 2.0));
            left < 42.58 + 0.6524 * d <==> left < 42.6 + 0.6526 * d
  {
  }

  lemma SlotShift(d: nat, e: nat, a: int, b: int, widest: nat, i: int, j: int) returns (q: int)
    requires 0 <= a && 0 <= b && 0 <= i && 0 <= j
    ensures Slot(e, b, widest, j).x - Slot(d, a, widest, i).x == q as real * ((BOX_W + GAP_X) / 2.0)
  {
    q := a - b + 2 * (j - i);
    assert q as real == a as real - b as real + 2.0 * (j as real - i as real);
    assert RowWidth(a) == a as real * (BOX_W + GAP_X) - GAP_X;
    assert RowWidth(b) == b as real * (BOX_W + GAP_X) - GAP_X;
  }

  /** The distance between any two boxes is a whole number of half columns. */
  lemma HalfColumns(names: seq<Node>, depth: map<Node, nat>, pos: map<Node, Point>, width: real, height: real, u: Node, v: Node)
    returns (q: int)
    requires forall n :: n in names ==> n in depth
    requires IsGrid(names, depth, pos, width, height) && u in names && v in names
    ensures u in pos && v in pos
    ensures pos[v].x - pos[u].x == q as real * ((BOX_W + GAP_X) / 2.0)
  {
    hide IsGrid, RowOf, Slot;
    var widest, i, j := GridSlots(names, depth, pos, width, height, u, v);
    q := SlotShift(depth[u], depth[v], |RowOf(names, depth, depth[u])|, |RowOf(names, depth, depth[v])|, widest, i, j);
  }

  /** There is a box right next to u's. */
  ghost predicate NextTaken(names: seq<Node>, pos: map<Node, Point>, u: Node)
    requires u in pos
  {
    exists w :: w in names && w in pos && pos[w] == Point(pos[u].x + BOX_W + GAP_X, pos[u].y)
  }

  /** A row has no holes. */
  lemma RowHasNoHoles(names: seq<Node>, depth: map<Node, nat>, pos: map<Node, Point>, width: real, height: real, u: Node, w: Node)
    requires forall n :: n in names ==> n in depth
    requires IsGrid(names, depth, pos, width, height) && Distinct(names)
    requires u in names && w in names && depth[u] == depth[w]
    ensures u in pos && w in pos
    ensures pos[u].x < pos[w].x ==> pos[u].x + BOX_W + GAP_X <= pos[w].x && NextTaken(names, pos, u)
  {
    hide IsGrid, RowOf;
    var i, k := SlotsOfRow(names, depth, pos, width, height, u, w);
    if pos[u].x < pos[w].x {
      var row := RowOf(names, depth, depth[u]);
      assert i < k && i as real + 1.0 <= k as real;
      var n := row[i + 1];
      RowMembers(names, depth, depth[u]);
      RowDistinct(names, depth, depth[u]);
      assert n in row;
      var j, l := SlotsOfRow(names, depth, pos, width, height, u, n);
      assert j == i && l == i + 1;
      assert pos[n] == Point(pos[u].x + BOX_W + GAP_X, pos[u].y);
    }
  }

  /** The only boxes an edge to the row above can cross are those of its two rows. */
  lemma OnlyItsRows(names: seq<Node>, depth: map<Node, nat>, pos: map<Node, Point>, width: real, height: real, u: Node, v: Node, w: Node)
    requires forall n :: n in names ==> n in depth
    requires IsGrid(names, depth, pos, width, height)
    requires u in names && v in names && w in names && depth[u] == depth[v] + 1
    ensures u in pos && v in pos && w in pos && pos[v].y + BOX_H + GAP_Y == pos[u].y
    ensures depth[w] == depth[u] ==> pos[w].y == pos[u].y
    ensures depth[w] == depth[v] ==> pos[w].y == pos[v].y
    ensures depth[w] != depth[u] && depth[w] != depth[v] ==> !Crosses(pos[u], pos[v], pos[w])
  {
    var widest, i, j := GridSlots(names, depth, pos, width, height, u, v);
    var widest', k, l := GridSlots(names, depth, pos, width, height, w, w);
    hide IsGrid, RowOf, Crosses, RowWidth;
    RowsApart(depth[w], depth[v]);
    RowsApart(depth[u], depth[w]);
    if depth[w] != depth[u] && depth[w] != depth[v] {
      BowedMisses(pos[u], pos[v], pos[w]);
    }
  }

  /** A box of an end's row: to the right only if the other end is, to the left only if the other end is far. */
  lemma CrossedInRow(names: seq<Node>, depth: map<Node, nat>, pos: map<Node, Point>, width: real, height: real, u: Node, w: Node, d: real)
    requires forall n :: n in names ==> n in depth
    requires IsGrid(names, depth, pos, width, height) && Distinct(names)
    requires u in names && w in names && depth[u] == depth[w]
    ensures u in pos && w in pos
    ensures SwaysInto(d, pos[w].x - (pos[u].x + BOX_W)) ==> d < -1625.0 || (0.0 < d && NextTaken(names, pos, u))
  {
    RowHasNoHoles(names, depth, pos, width, height, u, w);
    hide IsGrid, SwaysInto;
    var left := pos[w].x - (pos[u].x + BOX_W);
    if pos[u].x < pos[w].x {
      SwaysRight(d, left);
    } else {
      SwaysLeft(d, left);
    }
  }

  lemma CrossedMeans(names: seq<Node>, depth: map<Node, nat>, pos: map<Node, Point>, width: real, height: real, u: Node, v: Node, w: Node)
    requires forall n :: n in names ==> n in depth
    requires IsGrid(names, depth, pos, width, height) && Distinct(names)
    requires u in names && v in names && w in names && depth[u] == depth[v] + 1
    requires u in pos && v in pos && w in pos && Crosses(pos[u], pos[v], pos[w])
    ensures || (pos[u].x < pos[v].x && NextTaken(names, pos, u))
            || (pos[v].x < pos[u].x && NextTaken(names, pos, v))
            || Abs(pos[v].x - pos[u].x) > 1625.0
  {
    hide IsGrid, Crosses, SwaysInto, NextTaken;
    OnlyItsRows(names, depth, pos, width, height, u, v, w);
    if depth[w] == depth[u] {
      CrossesInSourceRow(pos[u], pos[v], pos[w]);
      CrossedInRow(names, depth, pos, width, height, u, w, pos[v].x - pos[u].x);
    } else {
      CrossesInTargetRow(pos[u], pos[v], pos[w]);
      CrossedInRow(names, depth, pos, width, height, v, w, pos[u].x - pos[v].x);
    }
  }

  lemma NextToSource(src: Point, tgt: Point, box: Point)
    requires tgt.y + BOX_H + GAP_Y == src.y && src.x + 3.0 <= tgt.x && box == Point(src.x + BOX_W + GAP_X, src.y)
    ensures Crosses(src, tgt, box)
  {
    ReachInSourceRow(src, tgt, box);
  }

  lemma NextToTarget(src: Point, tgt: Point, box: Point)
    requires tgt.y + BOX_H + GAP_Y == src.y && tgt.x + 3.0 <= src.x && box == Point(tgt.x + BOX_W + GAP_X, tgt.y)
    ensures Crosses(src, tgt, box)
  {
    ReachInTargetRow(src, tgt, box);
  }

  /** A curve to a far target swings back through a box of its own. */
  lemma FarApart(src: Point, tgt: Point)
    requires tgt.y + BOX_H + GAP_Y == src.y && Abs(tgt.x - src.x) >= 1628.0
    ensures Crosses(src, tgt, src) || Crosses(src, tgt, tgt)
  {
    CrossesInSourceRow(src, tgt, src);
    CrossesInTargetRow(src, tgt, tgt);
    SwaysLeft(tgt.x - src.x, -BOX_W);
    SwaysLeft(src.x - tgt.x, -BOX_W);
  }

  lemma NextBox(names: seq<Node>, pos: map<Node, Point>, u: Node) returns (w: Node)
    requires u in pos && NextTaken(names, pos, u)
    ensures w in names && w in pos && pos[w] == Point(pos[u].x + BOX_W + GAP_X, pos[u].y)
  {
    w :| w in names && w in pos && pos[w] == Point(pos[u].x + BOX_W + GAP_X, pos[u].y);
  }

  /**
   An edge to the row directly above crosses a box if and only if there is a box right next
   to its source and the target is further right, or a box right next to its target and the
   source is further right, or the two are eight columns or more apart.
   */
  lemma UpwardCrossesIff(names: seq<Node>, depth: map<Node, nat>, pos: map<Node, Point>, width: real, height: real, u: Node, v: Node)
    requires forall n :: n in names ==> n in depth
    requires IsGrid(names, depth, pos, width, height) && Distinct(names)
    requires u in names && v in names && depth[u] == depth[v] + 1
    ensures u in pos && v in pos && forall w :: w in names ==> w in pos
    ensures (exists w :: w in names && Crosses(pos[u], pos[v], pos[w])) <==>
            || (pos[u].x < pos[v].x && NextTaken(names, pos, u))
            || (pos[v].x < pos[u].x && NextTaken(names, pos, v))
            || Abs(pos[v].x - pos[u].x) >= 8.0 * (BOX_W + GAP_X)
  {
    hide IsGrid, Crosses, NextTaken;
    var q := HalfColumns(names, depth, pos, width, height, u, v);
    OnlyItsRows(names, depth, pos, width, height, u, v, u);
    forall w | w in names ensures w in pos {
      OnlyItsRows(names, depth, pos, width, height, u, v, w);
    }
    if w :| w in names && Crosses(pos[u], pos[v], pos[w]) {
      CrossedMeans(names, depth, pos, width, height, u, v, w);
    }
    if Abs(pos[v].x - pos[u].x) >= 1628.0 {
      FarApart(pos[u], pos[v]);
    } else if NextTaken(names, pos, u) && pos[u].x < pos[v].x {
      var w := NextBox(names, pos, u);
      NextToSource(pos[u], pos[v], pos[w]);
    } else if NextTaken(names, pos, v) && pos[v].x < pos[u].x {
      var w := NextBox(names, pos, v);
      NextToTarget(pos[u], pos[v], pos[w]);
    }
  }

  // ------------------------------------------------------------------ an example

  lemma RetryRows(names: seq<Node>, depth: map<Node, nat>, s: Node, a: Node, b: Node)
    requires s != a && s != b && a != b && names == [s, a, b] && depth == map[s := 0, a := 1, b := 1]
    ensures forall d :: RowOf(names, depth, d) == if d == 0 then [s] else if d == 1 then [a, b] else []
  {
    assert names[..2] == [s, a] && names[..2][..1] == [s] && names[..2][..1][..0] == [];
    forall d ensures RowOf(names, depth, d) == if d == 0 then [s] else if d == 1 then [a, b] else [] {
      assert RowOf([s], depth, d) == if d == 0 then [s] else [];
      assert RowOf([s, a], depth, d) == RowOf([s], depth, d) + if d == 1 then [a] else [];
      assert [s, a, b][..2] == [s, a];
    }
  }

  lemma RetrySlots(names: seq<Node>, depth: map<Node, nat>, s: Node, a: Node, b: Node)
    requires s != a && s != b && a != b && names == [s, a, b] && depth == map[s := 0, a := 1, b := 1]
    requires forall d :: RowOf(names, depth, d) == if d == 0 then [s] else if d == 1 then [a, b] else []
    ensures IsWidest(names, depth, 2) && IsDeepest(depth, 1)
    ensures InSlot(names, depth, 2, s, Point(134.0, 28.0))
    ensures InSlot(names, depth, 2, a, Point(28.0, 160.0))
    ensures InSlot(names, depth, 2, b, Point(240.0, 160.0))
  {
    hide RowOf;
    assert |RowOf(names, depth, 1)| == 2;
    assert depth[a] == 1;
    var (top, below) := (RowOf(names, depth, 0), RowOf(names, depth, 1));
    assert top[0] == s && below[0] == a && below[1] == b;
    assert Point(134.0, 28.0) == Slot(0, |top|, 2, 0);
  }

  /** The diagram of a branch that goes back for another try: s leads to a and b, and a back to s. */
  lemma RetryBranchIsCrossed(s: Node, a: Node, b: Node)
    requires s != a && s != b && a != b
    ensures var (names, depth) := ([s, a, b], map[s := 0, a := 1, b := 1]);
            var pos := map[s := Point(134.0, 28.0), a := Point(28.0, 160.0), b := Point(240.0, 160.0)];
            IsGrid(names, depth, pos, 436.0, 244.0) && Crosses(pos[a], pos[s], pos[b])
  {
    var (names, depth) := ([s, a, b], map[s := 0, a := 1, b := 1]);
    var pos := map[s := Point(134.0, 28.0), a := Point(28.0, 160.0), b := Point(240.0, 160.0)];
    NextToSource(pos[a], pos[s], pos[b]);
    hide Crosses;
    RetryRows(names, depth, s, a, b);
    RetrySlots(names, depth, s, a, b);
    hide RowOf, InSlot, IsWidest, IsDeepest;
    assert IsGridOf(names, depth, 2, 1, pos, 436.0, 244.0);
  }
}
