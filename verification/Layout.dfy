/**
 Geometry of a workflow diagram: boxes on a centred grid, and the curve of each
 transition (render.py, `_layout`, `_edge_path` and the edge loop of `render_workflow_svg`).
 Pixels are real numbers.
 */
module Layout {
  import opened Graphs
  import opened BackEdges
  import opened Depths

  const BOX_W: real := 168.0
  const BOX_H: real := 56.0
  const GAP_X: real := 44.0
  const GAP_Y: real := 76.0
  const MARGIN: real := 28.0

  datatype Point = Point(x: real, y: real)

  type Row = seq<Node>

  /** The names of row d, in order. */
  ghost function RowOf(names: seq<Node>, depth: map<Node, nat>, d: nat): Row
    requires forall n :: n in names ==> n in depth
  {
    if names == [] then []
    else
      var front := names[..|names| - 1];
      var last := names[|names| - 1];
      RowOf(front, depth, d) + if depth[last] == d then [last] else []
  }

  function RowWidth(boxes: nat): real {
    boxes as real * BOX_W + (boxes as real - 1.0) * GAP_X
  }

  /** The i-th box of row d, when the row holds `boxes` and the widest row `widest`. */
  function Slot(d: nat, boxes: nat, widest: nat, i: nat): Point {
    Point(MARGIN + (RowWidth(widest) - RowWidth(boxes)) / 2.0 + i as real * (BOX_W + GAP_X),
          MARGIN + d as real * (BOX_H + GAP_Y))
  }

  /** The length of the longest row; 1 if there is none. */
  ghost predicate IsWidest(names: seq<Node>, depth: map<Node, nat>, widest: nat)
    requires forall n :: n in names ==> n in depth
  {
    && (forall d :: |RowOf(names, depth, d)| <= widest)
    && (if names == [] then widest == 1 else exists d :: |RowOf(names, depth, d)| == widest)
  }

  ghost predicate IsDeepest(depth: map<Node, nat>, deepest: nat) {
    && (forall n :: n in depth ==> depth[n] <= deepest)
    && (if depth == map[] then deepest == 0 else exists n :: n in depth && depth[n] == deepest)
  }

  ghost predicate InSlot(names: seq<Node>, depth: map<Node, nat>, widest: nat, n: Node, p: Point)
    requires forall m :: m in names ==> m in depth
    requires n in depth
  {
    var row := RowOf(names, depth, depth[n]);
    exists i :: 0 <= i < |row| && row[i] == n && p == Slot(depth[n], |row|, widest, i)
  }

  /** Every name in its slot, on a canvas cut to size. */
  ghost predicate IsGridOf(names: seq<Node>, depth: map<Node, nat>, widest: nat, deepest: nat,
                         pos: map<Node, Point>, width: real, height: real)
    requires forall n :: n in names ==> n in depth
  {
    && IsWidest(names, depth, widest) && IsDeepest(depth, deepest)
    && (forall n :: n in pos <==> n in names)
    && (forall n :: n in names ==> InSlot(names, depth, widest, n, pos[n]))
    && width == 2.0 * MARGIN + RowWidth(widest)
    && height == 2.0 * MARGIN + (deepest + 1) as real * BOX_H + deepest as real * GAP_Y
  }

  /** What `_layout` promises. */
  ghost predicate IsGrid(names: seq<Node>, depth: map<Node, nat>, pos: map<Node, Point>, width: real, height: real)
    requires forall n :: n in names ==> n in depth
  {
    exists widest: nat, deepest: nat :: IsGridOf(names, depth, widest, deepest, pos, width, height)
  }

  // ------------------------------------------------------------------ boxes

  function Abs(x: real): real {
    if x < 0.0 then -x else x
  }

  lemma ColumnsApart(i: nat, j: nat)
    requires i != j
    ensures Abs(i as real * (BOX_W + GAP_X) - j as real * (BOX_W + GAP_X)) >= BOX_W + GAP_X
  {
  }

  lemma RowsApart(d: nat, e: nat)
    ensures d < e ==> d as real * (BOX_H + GAP_Y) + BOX_H + GAP_Y <= e as real * (BOX_H + GAP_Y)
    ensures d <= e ==> d as real * (BOX_H + GAP_Y) <= e as real * (BOX_H + GAP_Y)
  {
  }

  lemma SlotIndex(names: seq<Node>, depth: map<Node, nat>, widest: nat, n: Node, p: Point) returns (i: nat)
    requires forall m :: m in names ==> m in depth
    requires n in depth && InSlot(names, depth, widest, n, p)
    ensures var row := RowOf(names, depth, depth[n]);
            i < |row| && row[i] == n && p == Slot(depth[n], |row|, widest, i)
  {
    var row := RowOf(names, depth, depth[n]);
    i :| 0 <= i < |row| && row[i] == n && p == Slot(depth[n], |row|, widest, i);
  }

  /** Which box of which row a node is. */
  lemma GridSlots(names: seq<Node>, depth: map<Node, nat>, pos: map<Node, Point>, width: real, height: real, u: Node, v: Node)
    returns (widest: nat, i: nat, j: nat)
    requires forall n :: n in names ==> n in depth
    requires IsGrid(names, depth, pos, width, height) && u in names && v in names
    ensures u in pos && v in pos
    ensures var row := RowOf(names, depth, depth[u]);
            i < |row| && row[i] == u && pos[u] == Slot(depth[u], |row|, widest, i)
    ensures var row := RowOf(names, depth, depth[v]);
            j < |row| && row[j] == v && pos[v] == Slot(depth[v], |row|, widest, j)
  {
    hide IsWidest, IsDeepest, InSlot, RowOf, Slot, RowWidth;
    var w: nat, deepest: nat :| IsGridOf(names, depth, w, deepest, pos, width, height);
    widest := w;
    i := SlotIndex(names, depth, widest, u, pos[u]);
    j := SlotIndex(names, depth, widest, v, pos[v]);
  }

  /** Boxes of different nodes keep the gap between columns or the gap between rows. */
  lemma BoxesApart(names: seq<Node>, depth: map<Node, nat>, pos: map<Node, Point>, width: real, height: real, u: Node, v: Node)
    requires forall n :: n in names ==> n in depth
    requires IsGrid(names, depth, pos, width, height) && u in names && v in names && u != v
    ensures u in pos && v in pos
    ensures Abs(pos[u].x - pos[v].x) >= BOX_W + GAP_X || Abs(pos[u].y - pos[v].y) >= BOX_H + GAP_Y
  {
    hide IsGrid, RowOf, RowWidth;
    var widest, i, j := GridSlots(names, depth, pos, width, height, u, v);
    if depth[u] == depth[v] {
      ColumnsApart(i, j);
    } else {
      RowsApart(depth[u], depth[v]);
      RowsApart(depth[v], depth[u]);
    }
  }

  /** Every box lies inside the margins of the canvas. */
  lemma BoxesInsideMargins(names: seq<Node>, depth: map<Node, nat>, pos: map<Node, Point>, width: real, height: real, u: Node)
    requires forall n :: n in names ==> n in depth
    requires IsGrid(names, depth, pos, width, height) && u in names
    ensures u in pos
    ensures MARGIN <= pos[u].x && pos[u].x + BOX_W <= width - MARGIN
    ensures MARGIN <= pos[u].y && pos[u].y + BOX_H <= height - MARGIN
  {
  }

  /** Every row is its own mirror image about the middle of the canvas. */
  lemma RowsAreCentred(d: nat, boxes: nat, widest: nat, i: nat)
    requires i < boxes
    ensures Slot(d, boxes, widest, i).x + (Slot(d, boxes, widest, boxes - 1 - i).x + BOX_W) == 2.0 * MARGIN + RowWidth(widest)
  {
    assert (boxes - 1 - i) as real == boxes as real - 1.0 - i as real;
  }

  // ------------------------------------------------------------------ the code of _layout

  lemma {:induction false} RowMembers(names: seq<Node>, depth: map<Node, nat>, d: nat)
    requires forall n :: n in names ==> n in depth
    ensures forall n :: n in RowOf(names, depth, d) <==> n in names && depth[n] == d
  {
    if names != [] {
      RowMembers(names[..|names| - 1], depth, d);
      assert names == names[..|names| - 1] + [names[|names| - 1]];
    }
  }

  lemma {:induction false} RowDistinct(names: seq<Node>, depth: map<Node, nat>, d: nat)
    requires forall n :: n in names ==> n in depth
    requires Distinct(names)
    ensures Distinct(RowOf(names, depth, d))
  {
    if names != [] {
      var (front, last) := (names[..|names| - 1], names[|names| - 1]);
      RowDistinct(front, depth, d);
      RowMembers(front, depth, d);
      assert last !in front;
      var row := RowOf(front, depth, d);
      forall i | 0 <= i < |row| ensures row[i] != last {
        assert row[i] in row;
      }
    }
  }

  /** Two boxes of a row: their slots tell how far apart they are. */
  lemma SlotsOfRow(names: seq<Node>, depth: map<Node, nat>, pos: map<Node, Point>, width: real, height: real, u: Node, w: Node)
    returns (i: nat, k: nat)
    requires forall n :: n in names ==> n in depth
    requires IsGrid(names, depth, pos, width, height)
    requires u in names && w in names && depth[u] == depth[w]
    ensures u in pos && w in pos
    ensures var row := RowOf(names, depth, depth[u]); i < |row| && k < |row| && row[i] == u && row[k] == w
    ensures pos[w].x == pos[u].x + (k as real - i as real) * (BOX_W + GAP_X) && pos[w].y == pos[u].y
  {
    hide IsGrid, RowOf;
    var widest, s, t := GridSlots(names, depth, pos, width, height, u, w);
    i, k := s, t;
  }

  /** Names that are listed one before the other come so in their row. */
  lemma {:induction false} RowKeepsOrder(names: seq<Node>, depth: map<Node, nat>, i: nat, j: nat) returns (a: nat, b: nat)
    requires forall n :: n in names ==> n in depth
    requires i < j < |names| && depth[names[i]] == depth[names[j]]
    ensures var row := RowOf(names, depth, depth[names[i]]);
            a < b < |row| && row[a] == names[i] && row[b] == names[j]
  {
    var front := names[..|names| - 1];
    var row := RowOf(front, depth, depth[names[i]]);
    if j < |names| - 1 {
      a, b := RowKeepsOrder(front, depth, i, j);
    } else {
      RowMembers(front, depth, depth[names[i]]);
      assert front[i] in row;
      a :| 0 <= a < |row| && row[a] == names[i];
      b := |row|;
    }
  }

  /** Within a row, boxes come from left to right as their names are listed. */
  lemma RowsFollowList(names: seq<Node>, depth: map<Node, nat>, pos: map<Node, Point>, width: real, height: real, i: nat, j: nat)
    requires forall n :: n in names ==> n in depth
    requires IsGrid(names, depth, pos, width, height) && Distinct(names)
    requires i < j < |names| && depth[names[i]] == depth[names[j]]
    ensures names[i] in pos && names[j] in pos
    ensures pos[names[i]].x + BOX_W + GAP_X <= pos[names[j]].x && pos[names[i]].y == pos[names[j]].y
  {
    hide IsGrid, RowOf;
    var a, b := RowKeepsOrder(names, depth, i, j);
    var k, l := SlotsOfRow(names, depth, pos, width, height, names[i], names[j]);
    RowDistinct(names, depth, depth[names[i]]);
    assert k == a && l == b && k as real + 1.0 <= l as real;
  }

  /** The rows collected so far: a dictionary and its insertion order. */
  ghost predicate RowsMatch(names: seq<Node>, depth: map<Node, nat>, rowOrder: seq<nat>, rows: map<nat, Row>)
    requires forall n :: n in names ==> n in depth
  {
    && (forall d :: d in rowOrder <==> d in rows)
    && (forall d :: d in rows <==> RowOf(names, depth, d) != [])
    && (forall d :: d in rows ==> rows[d] == RowOf(names, depth, d))
  }

  lemma NextRowEntry(names: seq<Node>, depth: map<Node, nat>, i: nat)
    requires i < |names| && forall n :: n in names ==> n in depth
    ensures forall d :: RowOf(names[..i + 1], depth, d) == RowOf(names[..i], depth, d) + if depth[names[i]] == d then [names[i]] else []
  {
    assert names[..i + 1][..i] == names[..i];
  }

  method CollectRows(names: seq<Node>, depth: map<Node, nat>) returns (rowOrder: seq<nat>, rows: map<nat, Row>)
    requires forall n :: n in names ==> n in depth
    ensures RowsMatch(names, depth, rowOrder, rows)
  {
    rowOrder, rows := [], map[];
    for i := 0 to |names|
      invariant RowsMatch(names[..i], depth, rowOrder, rows)
    {
      NextRowEntry(names, depth, i);
      var d := depth[names[i]];
      if d !in rows {
        rowOrder := rowOrder + [d];
        rows := rows[d := []];
      }
      rows := rows[d := rows[d] + [names[i]]];
    }
    assert names[..|names|] == names;
  }

  method WidestRow(names: seq<Node>, depth: map<Node, nat>, rowOrder: seq<nat>, rows: map<nat, Row>) returns (widest: nat)
    requires forall n :: n in names ==> n in depth
    requires RowsMatch(names, depth, rowOrder, rows)
    ensures IsWidest(names, depth, widest)
  {
    hide RowOf;
    widest := 0;
    ghost var best := 0;
    for k := 0 to |rowOrder|
      invariant forall l :: 0 <= l < k ==> |rows[rowOrder[l]]| <= widest
      invariant if k == 0 then widest == 0 else best < k && |rows[rowOrder[best]]| == widest
    {
      assert rowOrder[k] in rowOrder && rows[rowOrder[k]] != [];
      if widest < |rows[rowOrder[k]]| {
        widest := |rows[rowOrder[k]]|;
        best := k;
      }
    }
    if rowOrder == [] {
      widest := 1;
    }
    forall d ensures |RowOf(names, depth, d)| <= widest {
      if d in rows {
        var l :| 0 <= l < |rowOrder| && rowOrder[l] == d;
      }
    }
    if names != [] {
      var d := depth[names[0]];
      RowMembers(names, depth, d);
      assert names[0] in RowOf(names, depth, d);
      assert d in rowOrder;
      assert |RowOf(names, depth, rowOrder[best])| == widest;
    } else {
      NoRows(depth);
    }
  }

  lemma NoRows(depth: map<Node, nat>)
    ensures forall d :: RowOf([], depth, d) == []
  {
  }

  method DeepestRow(depth: map<Node, nat>) returns (deepest: nat)
    ensures IsDeepest(depth, deepest)
  {
    deepest := 0;
    var todo := depth.Keys;
    ghost var done: set<Node> := {};
    while todo != {}
      invariant done + todo == depth.Keys
      invariant forall n :: n in done ==> depth[n] <= deepest
      invariant if done == {} then deepest == 0 else exists n :: n in done && depth[n] == deepest
      decreases todo
    {
      var n :| n in todo;
      if deepest < depth[n] {
        deepest := depth[n];
      }
      todo, done := todo - {n}, done + {n};
      assert n in done;
    }
  }

  /** Boxes are only ever placed in their slots, and the boxes of the given rows all are. */
  ghost predicate RowsPlaced(names: seq<Node>, depth: map<Node, nat>, widest: nat, done: seq<nat>, pos: map<Node, Point>)
    requires forall n :: n in names ==> n in depth
  {
    && (forall n :: n in pos ==> n in names && InSlot(names, depth, widest, n, pos[n]))
    && (forall n :: n in names && depth[n] in done ==> n in pos)
  }

  lemma RowAt(names: seq<Node>, depth: map<Node, nat>, rowOrder: seq<nat>, rows: map<nat, Row>, k: nat)
    requires forall n :: n in names ==> n in depth
    requires RowsMatch(names, depth, rowOrder, rows) && k < |rowOrder|
    ensures rowOrder[k] in rows && rows[rowOrder[k]] == RowOf(names, depth, rowOrder[k])
  {
  }

  lemma PlaceOne(names: seq<Node>, depth: map<Node, nat>, widest: nat, done: seq<nat>, pos: map<Node, Point>, d: nat, i: nat)
    requires forall n :: n in names ==> n in depth
    requires RowsPlaced(names, depth, widest, done, pos) && i < |RowOf(names, depth, d)|
    ensures var row := RowOf(names, depth, d);
            RowsPlaced(names, depth, widest, done, pos[row[i] := Slot(d, |row|, widest, i)])
  {
    RowMembers(names, depth, d);
    var row := RowOf(names, depth, d);
    assert row[i] in row;
    assert InSlot(names, depth, widest, row[i], Slot(d, |row|, widest, i));
  }

  lemma RowDone(names: seq<Node>, depth: map<Node, nat>, widest: nat, done: seq<nat>, pos: map<Node, Point>, d: nat)
    requires forall n :: n in names ==> n in depth
    requires RowsPlaced(names, depth, widest, done, pos)
    requires forall j :: 0 <= j < |RowOf(names, depth, d)| ==> RowOf(names, depth, d)[j] in pos
    ensures RowsPlaced(names, depth, widest, done + [d], pos)
  {
    RowMembers(names, depth, d);
  }

  lemma AllRowsDone(names: seq<Node>, depth: map<Node, nat>, widest: nat, rowOrder: seq<nat>, rows: map<nat, Row>, pos: map<Node, Point>)
    requires forall n :: n in names ==> n in depth
    requires RowsMatch(names, depth, rowOrder, rows) && RowsPlaced(names, depth, widest, rowOrder, pos)
    ensures forall n :: n in pos <==> n in names
    ensures forall n :: n in names ==> InSlot(names, depth, widest, n, pos[n])
  {
    forall n | n in names ensures n in pos {
      RowMembers(names, depth, depth[n]);
      assert n in RowOf(names, depth, depth[n]);
    }
  }

  method PlaceBoxes(names: seq<Node>, depth: map<Node, nat>)
    returns (pos: map<Node, Point>, width: real, height: real)
    requires forall n :: n in names ==> n in depth
    ensures IsGrid(names, depth, pos, width, height)
  {
    hide RowsPlaced, InSlot, IsWidest, IsDeepest, RowWidth, RowsMatch, RowOf;
    var rowOrder, rows := CollectRows(names, depth);
    var widest := WidestRow(names, depth, rowOrder, rows);
    var fullW := RowWidth(widest);
    var deepest := DeepestRow(depth);
    pos := map[];
    NoRowsDone(names, depth, widest);
    for k := 0 to |rowOrder|
      invariant RowsPlaced(names, depth, widest, rowOrder[..k], pos)
    {
      var d := rowOrder[k];
      RowAt(names, depth, rowOrder, rows, k);
      var row := rows[d];
      var x0 := MARGIN + (fullW - RowWidth(|row|)) / 2.0;
      for i := 0 to |row|
        invariant RowsPlaced(names, depth, widest, rowOrder[..k], pos)
        invariant forall j :: 0 <= j < i ==> row[j] in pos
      {
        var x := x0 + i as real * (BOX_W + GAP_X);
        var y := MARGIN + d as real * (BOX_H + GAP_Y);
        PlaceOne(names, depth, widest, rowOrder[..k], pos, d, i);
        pos := pos[row[i] := Point(x, y)];
      }
      RowDone(names, depth, widest, rowOrder[..k], pos, d);
      assert rowOrder[..k + 1] == rowOrder[..k] + [d];
    }
    assert rowOrder[..|rowOrder|] == rowOrder;
    AllRowsDone(names, depth, widest, rowOrder, rows, pos);
    width := MARGIN * 2.0 + fullW;
    height := MARGIN * 2.0 + (deepest + 1) as real * BOX_H + deepest as real * GAP_Y;
    assert IsGridOf(names, depth, widest, deepest, pos, width, height);
  }

  lemma NoRowsDone(names: seq<Node>, depth: map<Node, nat>, widest: nat)
    requires forall n :: n in names ==> n in depth
    ensures forall s: seq<nat> :: s == [] ==> RowsPlaced(names, depth, widest, s, map[])
  {
  }

  // ------------------------------------------------------------------ curves

  /** A cubic curve: where it starts and ends, and its two control points. */
  datatype Curve =
    | Downward(start: Point, c1: Point, c2: Point, end: Point)
    | Bowed(start: Point, c1: Point, c2: Point, end: Point)

  datatype EdgePath = EdgePath(curve: Curve, anchor: Point, rightmost: real)

  function Max(a: real, b: real): real {
    if a < b then b else a
  }

  function Min(a: real, b: real): real {
    if a < b then a else b
  }

  function PathOf(src: Point, tgt: Point): EdgePath {
    if tgt.y > src.y then
      var srcCentre, tgtCentre := src.x + BOX_W / 2.0, tgt.x + BOX_W / 2.0;
      var bottom, top := src.y + BOX_H, tgt.y;
      var middle := (bottom + top) / 2.0;
      EdgePath(Downward(Point(srcCentre, bottom), Point(srcCentre, middle), Point(tgtCentre, middle), Point(tgtCentre, top)),
               Point((srcCentre + tgtCentre) / 2.0, middle), Max(srcCentre, tgtCentre))
    else
      var srcSide, srcMiddle := src.x + BOX_W, src.y + BOX_H / 2.0;
      var tgtSide, tgtMiddle := tgt.x + BOX_W, tgt.y + BOX_H / 2.0;
      var bow := Max(srcSide, tgtSide) + GAP_X + 24.0;
      EdgePath(Bowed(Point(srcSide, srcMiddle), Point(bow, srcMiddle), Point(bow, tgtMiddle), Point(tgtSide, tgtMiddle)),
               Point(bow - 6.0, (srcMiddle + tgtMiddle) / 2.0), bow)
  }

  /** The cubic blend of four coordinates, with weights u and t. */
  function Blend(u: real, t: real, w: real, x: real, y: real, z: real): real {
    u * u * u * w + 3.0 * u * u * t * x + 3.0 * u * t * t * y + t * t * t * z
  }

  /** A point of the curve, for 0 <= t <= 1. */
  function At(curve: Curve, t: real): Point {
    Point(Blend(1.0 - t, t, curve.start.x, curve.c1.x, curve.c2.x, curve.end.x),
          Blend(1.0 - t, t, curve.start.y, curve.c1.y, curve.c2.y, curve.end.y))
  }

  lemma ProductNonNegative(x: real, y: real)
    requires x >= 0.0 && y >= 0.0
    ensures x * y >= 0.0
  {
  }

  lemma CubeOfSum(u: real, t: real)
    requires u + t == 1.0
    ensures u * u * u + 3.0 * u * u * t + 3.0 * u * t * t + t * t * t == 1.0
  {
  }

  lemma WeightedAverage(a: real, b: real, c: real, d: real, w: real, x: real, y: real, z: real, m: real)
    requires a >= 0.0 && b >= 0.0 && c >= 0.0 && d >= 0.0 && a + b + c + d == 1.0
    requires w <= m && x <= m && y <= m && z <= m
    ensures a * w + b * x + c * y + d * z <= m
  {
    ProductNonNegative(a, m - w);
    ProductNonNegative(b, m - x);
    ProductNonNegative(c, m - y);
    ProductNonNegative(d, m - z);
    assert a * m + b * m + c * m + d * m == (a + b + c + d) * m;
  }

  /** The text of a downward edge sits on the middle of its curve. */
  lemma DownwardLabelOnCurve(src: Point, tgt: Point)
    requires PathOf(src, tgt).curve.Downward?
    ensures At(PathOf(src, tgt).curve, 0.5) == PathOf(src, tgt).anchor
  {
  }

  lemma ControlPointsLeft(src: Point, tgt: Point)
    ensures var (curve, m) := (PathOf(src, tgt).curve, PathOf(src, tgt).rightmost);
            curve.start.x <= m && curve.c1.x <= m && curve.c2.x <= m && curve.end.x <= m
  {
  }

  lemma WeightsNonNegative(u: real, t: real)
    requires u >= 0.0 && t >= 0.0
    ensures u * u * u >= 0.0 && 3.0 * u * u * t >= 0.0 && 3.0 * u * t * t >= 0.0 && t * t * t >= 0.0
  {
  }

  lemma BlendBound(u: real, t: real, w: real, x: real, y: real, z: real, m: real)
    requires u >= 0.0 && t >= 0.0 && u + t == 1.0
    requires w <= m && x <= m && y <= m && z <= m
    ensures Blend(u, t, w, x, y, z) <= m
  {
    WeightsNonNegative(u, t);
    CubeOfSum(u, t);
    WeightedAverage(u * u * u, 3.0 * u * u * t, 3.0 * u * t * t, t * t * t, w, x, y, z, m);
  }

  /** No point of an edge is drawn to the right of the reported rightmost x. */
  lemma CurveStaysLeft(src: Point, tgt: Point, t: real)
    requires 0.0 <= t <= 1.0
    ensures At(PathOf(src, tgt).curve, t).x <= PathOf(src, tgt).rightmost
  {
    hide PathOf, Blend;
    var (curve, m) := (PathOf(src, tgt).curve, PathOf(src, tgt).rightmost);
    ControlPointsLeft(src, tgt);
    BlendBound(1.0 - t, t, curve.start.x, curve.c1.x, curve.c2.x, curve.end.x, m);
  }

  lemma BlendLowerBound(u: real, t: real, w: real, x: real, y: real, z: real, m: real)
    requires u >= 0.0 && t >= 0.0 && u + t == 1.0
    requires m <= w && m <= x && m <= y && m <= z
    ensures m <= Blend(u, t, w, x, y, z)
  {
    BlendBound(u, t, -w, -x, -y, -z, -m);
    assert Blend(u, t, -w, -x, -y, -z) == -Blend(u, t, w, x, y, z);
  }

  /** Between boxes one below the other, an edge runs from bottom centre to top centre and between their heights. */
  lemma DownwardBetweenBoxes(src: Point, tgt: Point, t: real)
    requires src.y + BOX_H <= tgt.y && 0.0 <= t <= 1.0
    ensures var curve := PathOf(src, tgt).curve;
            && At(curve, 0.0) == Point(src.x + BOX_W / 2.0, src.y + BOX_H)
            && At(curve, 1.0) == Point(tgt.x + BOX_W / 2.0, tgt.y)
            && src.y + BOX_H <= At(curve, t).y <= tgt.y
  {
    CurveEnds(PathOf(src, tgt).curve);
    var (top, bottom) := (src.y + BOX_H, tgt.y);
    var c := (top + bottom) / 2.0;
    BlendBound(1.0 - t, t, top, c, c, bottom, bottom);
    BlendLowerBound(1.0 - t, t, top, c, c, bottom, top);
  }

  /** Any other edge runs from right side to right side, and never left of the nearer of the two. */
  lemma BowedRightOfBoxes(src: Point, tgt: Point, t: real)
    requires tgt.y <= src.y && 0.0 <= t <= 1.0
    ensures var curve := PathOf(src, tgt).curve;
            && At(curve, 0.0) == Point(src.x + BOX_W, src.y + BOX_H / 2.0)
            && At(curve, 1.0) == Point(tgt.x + BOX_W, tgt.y + BOX_H / 2.0)
            && Min(src.x, tgt.x) + BOX_W <= At(curve, t).x
            && tgt.y + BOX_H / 2.0 <= At(curve, t).y <= src.y + BOX_H / 2.0
  {
    var curve := PathOf(src, tgt).curve;
    CurveEnds(curve);
    BlendLowerBound(1.0 - t, t, curve.start.x, curve.c1.x, curve.c2.x, curve.end.x, Min(src.x, tgt.x) + BOX_W);
    BlendBound(1.0 - t, t, curve.start.y, curve.c1.y, curve.c2.y, curve.end.y, curve.start.y);
    BlendLowerBound(1.0 - t, t, curve.start.y, curve.c1.y, curve.c2.y, curve.end.y, curve.end.y);
  }

  lemma CurveEnds(curve: Curve)
    ensures At(curve, 0.0) == curve.start && At(curve, 1.0) == curve.end
  {
  }

  // ------------------------------------------------------------------ what an edge looks like

  /** From 0 to 1, at rest at both ends. */
  function Rise(t: real): real {
    3.0 * t * t - 2.0 * t * t * t
  }

  /** From 0 to 1, slowest in the middle. */
  function Glide(t: real): real {
    1.5 * t * (1.0 - t) + t * t * t
  }

  /** Out into some room and back to d. */
  function Swing(room: real, d: real, t: real): real {
    3.0 * t * (1.0 - t) * room + t * t * t * d
  }

  /** The part r of the way from a to c. */
  function Toward(a: real, c: real, r: real): real {
    a + r * (c - a)
  }

  /** An edge that leaves the middle of its source's bottom vertically and enters the middle of its target's top so. */
  ghost predicate RunsDown(path: EdgePath, src: Point, tgt: Point) {
    && path.curve.Downward?
    && path.anchor == At(path.curve, 0.5)
    && path.rightmost == Max(src.x, tgt.x) + BOX_W / 2.0
    && forall t :: At(path.curve, t) ==
                   Point(Toward(src.x + BOX_W / 2.0, tgt.x + BOX_W / 2.0, Rise(t)), Toward(src.y + BOX_H, tgt.y, Glide(t)))
  }

  /** An edge that leaves its source's right side horizontally, bends back and enters its target's right side so. */
  ghost predicate BowsOut(path: EdgePath, src: Point, tgt: Point) {
    && path.curve.Bowed?
    && path.anchor == Point(Max(src.x, tgt.x) + BOX_W + 62.0, At(path.curve, 0.5).y)
    && path.rightmost == Max(src.x, tgt.x) + BOX_W + 68.0
    && forall t :: At(path.curve, t) ==
                   Point(src.x + BOX_W + Swing(Max(src.x, tgt.x) + 68.0 - src.x, tgt.x - src.x, t),
                         Toward(src.y + BOX_H / 2.0, tgt.y + BOX_H / 2.0, Rise(t)))
  }

  ghost predicate IsEdgeBetween(path: EdgePath, src: Point, tgt: Point) {
    if src.y < tgt.y then RunsDown(path, src, tgt) else BowsOut(path, src, tgt)
  }

  lemma BlendTwice(t: real, a: real, c: real)
    ensures Blend(1.0 - t, t, a, a, c, c) == Toward(a, c, Rise(t))
  {
  }

  lemma BlendMiddle(t: real, a: real, c: real)
    ensures Blend(1.0 - t, t, a, (a + c) / 2.0, (a + c) / 2.0, c) == Toward(a, c, Glide(t))
  {
  }

  lemma BlendSwings(t: real, w: real, bow: real, z: real)
    ensures Blend(1.0 - t, t, w, bow, bow, z) == w + Swing(bow - w, z - w, t)
  {
  }

  lemma DownwardShape(src: Point, tgt: Point)
    requires src.y < tgt.y
    ensures RunsDown(PathOf(src, tgt), src, tgt)
  {
    DownwardLabelOnCurve(src, tgt);
    hide Blend, Toward, Rise, Glide;
    forall t
      ensures At(PathOf(src, tgt).curve, t) ==
              Point(Toward(src.x + BOX_W / 2.0, tgt.x + BOX_W / 2.0, Rise(t)), Toward(src.y + BOX_H, tgt.y, Glide(t)))
    {
      BlendTwice(t, src.x + BOX_W / 2.0, tgt.x + BOX_W / 2.0);
      BlendMiddle(t, src.y + BOX_H, tgt.y);
    }
  }

  lemma HalfWay(a: real, c: real)
    ensures Toward(a, c, Rise(0.5)) == (a + c) / 2.0
  {
  }

  lemma BowedShape(src: Point, tgt: Point)
    requires tgt.y <= src.y
    ensures BowsOut(PathOf(src, tgt), src, tgt)
  {
    var bow := Max(src.x, tgt.x) + BOX_W + 68.0;
    HalfWay(src.y + BOX_H / 2.0, tgt.y + BOX_H / 2.0);
    hide Blend, Toward, Rise, Swing;
    forall t
      ensures At(PathOf(src, tgt).curve, t) ==
              Point(src.x + BOX_W + Swing(Max(src.x, tgt.x) + 68.0 - src.x, tgt.x - src.x, t),
                    Toward(src.y + BOX_H / 2.0, tgt.y + BOX_H / 2.0, Rise(t)))
    {
      BlendSwings(t, src.x + BOX_W, bow, tgt.x + BOX_W);
      BlendTwice(t, src.y + BOX_H / 2.0, tgt.y + BOX_H / 2.0);
      assert bow - (src.x + BOX_W) == Max(src.x, tgt.x) + 68.0 - src.x;
      assert (tgt.x + BOX_W) - (src.x + BOX_W) == tgt.x - src.x;
    }
  }

  /** Every edge has the shape it should have. */
  lemma PathHasShape(src: Point, tgt: Point)
    ensures IsEdgeBetween(PathOf(src, tgt), src, tgt)
  {
    if src.y < tgt.y {
      DownwardShape(src, tgt);
    } else {
      BowedShape(src, tgt);
    }
  }

  // ------------------------------------------------------------------ the main result

  lemma PathsAddUp(e: set<(Node, Node)>, root: Node, u: Node, v: Node, q: seq<Node>, below: nat, above: nat)
    requires IsLongest(e, root, u, below) && IsLongest(e, root, v, above)
    requires IsPathBetween(e, v, q, u)
    ensures above + |q| - 1 <= below
  {
    var p :| IsPathBetween(e, root, p, v) && |p| - 1 == above;
    PathConcat(e, p, q);
    assert IsPathBetween(e, root, p + q[1..], u);
  }

  /** A forward edge leads to a lower row, a back edge does not. */
  lemma RowsFollowEdges(g: Targets, root: Node, back: set<(Node, Node)>, names: seq<Node>, depth: map<Node, nat>, u: Node, v: Node)
    requires root in g && IsBackEdgeSet(g, root, back) && IsLayering(Forward(g, back), root, names, depth)
    requires Reaches(AllEdges(g), root, u) && (u, v) in AllEdges(g)
    ensures u in depth && v in depth
    ensures (u, v) in back <==> depth[v] <= depth[u]
  {
    var e := Forward(g, back);
    ReachesStep(AllEdges(g), root, u, v);
    assert Reaches(e, root, u) && Reaches(e, root, v);
    InReachSet(e, root, u);
    InReachSet(e, root, v);
    assert IsLongest(e, root, u, depth[u]) && IsLongest(e, root, v, depth[v]);
    assert (u, v) in back ==> Reaches(e, v, u);
    hide IsBackEdgeSet, IsLayering, IsLongest, IsPath;
    if (u, v) in back {
      var q :| IsPathBetween(e, v, q, u);
      PathsAddUp(e, root, u, v, q, depth[u], depth[v]);
    } else {
      EdgeIsPath(e, u, v);
      PathsAddUp(e, root, v, u, [u, v], depth[v], depth[u]);
    }
  }

  lemma EdgeIsPath(e: set<(Node, Node)>, u: Node, v: Node)
    requires (u, v) in e
    ensures IsPathBetween(e, u, [u, v], v)
  {
  }

  lemma RowsGiveHeights(names: seq<Node>, depth: map<Node, nat>, pos: map<Node, Point>, width: real, height: real, u: Node, v: Node)
    requires forall n :: n in names ==> n in depth
    requires IsGrid(names, depth, pos, width, height) && u in names && v in names
    ensures u in pos && v in pos
    ensures depth[u] < depth[v] ==> pos[u].y + BOX_H + GAP_Y <= pos[v].y
    ensures depth[u] >= depth[v] ==> pos[u].y >= pos[v].y
  {
  }

  /** One transition as drawn. */
  datatype DrawnEdge = DrawnEdge(source: Node, target: Node, path: EdgePath)

  /** The transitions between nodes of the graph, in drawing order. */
  function Drawable(names: seq<Node>, edges: Targets): seq<(Node, Node)>
    requires forall n :: n in names ==> n in edges
  {
    if names == [] then []
    else
      var front := names[..|names| - 1];
      var src := names[|names| - 1];
      Drawable(front, edges) + Between(src, edges[src], edges)
  }

  function Between(src: Node, targets: seq<Node>, edges: Targets): (pairs: seq<(Node, Node)>)
    ensures forall pair :: pair in pairs <==> pair.0 == src && pair.1 in targets && pair.1 in edges
  {
    if targets == [] then []
    else
      var rest := Between(src, targets[..|targets| - 1], edges);
      var target := targets[|targets| - 1];
      assert targets == targets[..|targets| - 1] + [target];
      rest + if target in edges then [(src, target)] else []
  }

  lemma BetweenNone(src: Node, targets: seq<Node>, edges: Targets, earlier: seq<(Node, Node)>)
    ensures earlier + Between(src, targets[..0], edges) == earlier
  {
  }

  lemma BetweenStep(src: Node, targets: seq<Node>, edges: Targets, j: nat, earlier: seq<(Node, Node)>)
    requires j < |targets|
    ensures var pairs := earlier + Between(src, targets[..j], edges);
            earlier + Between(src, targets[..j + 1], edges) == if targets[j] in edges then pairs + [(src, targets[j])] else pairs
  {
    assert targets[..j + 1][..j] == targets[..j];
  }

  lemma DrawableStep(names: seq<Node>, edges: Targets, i: nat)
    requires i < |names| && forall n :: n in names ==> n in edges
    ensures Drawable(names[..i + 1], edges) ==
            Drawable(names[..i], edges) + Between(names[i], edges[names[i]][..|edges[names[i]]|], edges)
  {
    assert names[..i + 1][..i] == names[..i];
    assert edges[names[i]][..|edges[names[i]]|] == edges[names[i]];
  }

  /** Transition j of name i comes after those of earlier names and the earlier ones of its own. */
  lemma {:induction false} DrawableAt(names: seq<Node>, edges: Targets, i: nat, j: nat)
    requires forall n :: n in names ==> n in edges
    requires i < |names| && j < |edges[names[i]]| && edges[names[i]][j] in edges
    ensures forall n :: n in names[..i] ==> n in edges
    ensures var k := |Drawable(names[..i], edges)| + |Between(names[i], edges[names[i]][..j], edges)|;
            k < |Drawable(names, edges)| && Drawable(names, edges)[k] == (names[i], edges[names[i]][j])
  {
    hide Between;
    var front := names[..|names| - 1];
    if i < |names| - 1 {
      DrawableAt(front, edges, i, j);
      assert front[..i] == names[..i];
    } else {
      BetweenAt(names[i], edges[names[i]], edges, j);
      assert front == names[..i];
    }
  }

  lemma {:induction false} BetweenAt(src: Node, targets: seq<Node>, edges: Targets, j: nat)
    requires j < |targets| && targets[j] in edges
    ensures var k := |Between(src, targets[..j], edges)|;
            k < |Between(src, targets, edges)| && Between(src, targets, edges)[k] == (src, targets[j])
  {
    var front := targets[..|targets| - 1];
    if j < |targets| - 1 {
      BetweenAt(src, front, edges, j);
      assert front[..j] == targets[..j];
    }
  }

  /** What is drawn: every transition once, as an edge between its boxes, on a canvas that holds it. */
  ghost predicate DrawsAll(pairs: seq<(Node, Node)>, pos: map<Node, Point>, drawn: seq<DrawnEdge>, width: real) {
    && |drawn| == |pairs|
    && forall k :: 0 <= k < |drawn| ==>
         && drawn[k].source == pairs[k].0 && drawn[k].target == pairs[k].1
         && drawn[k].source in pos && drawn[k].target in pos
         && IsEdgeBetween(drawn[k].path, pos[drawn[k].source], pos[drawn[k].target])
         && drawn[k].path.rightmost + MARGIN <= width
  }

  lemma {:induction false} DrawableAreEdges(names: seq<Node>, edges: Targets)
    requires forall n :: n in names ==> n in edges
    ensures forall pair :: pair in Drawable(names, edges) <==> pair.0 in names && pair in AllEdges(edges) && pair.1 in edges
  {
    if names != [] {
      DrawableAreEdges(names[..|names| - 1], edges);
      assert names == names[..|names| - 1] + [names[|names| - 1]];
    }
  }

  /** v is listed no later than u is for the first time. */
  ghost predicate ListedBy(names: seq<Node>, v: Node, u: Node) {
    forall i :: 0 <= i < |names| && names[i] == u ==> v in names[..i + 1]
  }

  /**
   Which edges are bowed: within reach of the root exactly the back edges; outside of it
   those to a node within reach, or to one listed no later.
   */
  ghost predicate DirectionsShown(g: Targets, root: Node, back: set<(Node, Node)>, names: seq<Node>, drawn: seq<DrawnEdge>) {
    forall k :: 0 <= k < |drawn| ==>
      (drawn[k].path.curve.Bowed? <==> GoesBack(g, root, back, names, drawn[k].source, drawn[k].target))
  }

  ghost predicate GoesBack(g: Targets, root: Node, back: set<(Node, Node)>, names: seq<Node>, u: Node, v: Node) {
    if Reaches(AllEdges(g), root, u) then (u, v) in back
    else Reaches(AllEdges(g), root, v) || ListedBy(names, v, u)
  }

  /** Rows of an edge that the root does not reach. */
  lemma ParkedRowsFollowList(g: Targets, root: Node, back: set<(Node, Node)>, names: seq<Node>, depth: map<Node, nat>, u: Node, v: Node)
    requires root in g && IsBackEdgeSet(g, root, back) && IsLayering(Forward(g, back), root, names, depth)
    requires !Reaches(AllEdges(g), root, u) && u in names && v in names
    ensures u in depth && v in depth
    ensures depth[v] <= depth[u] <==> Reaches(AllEdges(g), root, v) || ListedBy(names, v, u)
  {
    var e := Forward(g, back);
    SameReach(g, root, back, u);
    SameReach(g, root, back, v);
    hide IsBackEdgeSet;
    if Reaches(e, root, v) {
      UnreachableApart(e, root, names, depth, u, v);
    } else {
      ParkedInOrder(e, root, names, depth, u, v);
    }
  }

  lemma SameReach(g: Targets, root: Node, back: set<(Node, Node)>, n: Node)
    requires root in g && IsBackEdgeSet(g, root, back)
    ensures Reaches(AllEdges(g), root, n) <==> Reaches(Forward(g, back), root, n)
  {
    if Reaches(Forward(g, back), root, n) {
      ReachesMono(Forward(g, back), AllEdges(g), root, n);
    }
  }

  lemma ParkedInOrder(e: set<(Node, Node)>, root: Node, names: seq<Node>, depth: map<Node, nat>, u: Node, v: Node)
    requires IsLayering(e, root, names, depth)
    requires u in names && v in names && !Reaches(e, root, u) && !Reaches(e, root, v)
    ensures u in depth && v in depth
    ensures depth[v] <= depth[u] <==> ListedBy(names, v, u)
  {
    var reached := ReachSet(e, root);
    InReachSet(e, root, u);
    InReachSet(e, root, v);
    var floor: nat :| IsFloor(reached, depth, floor) && ParkedBelow(names, reached, floor, depth);
    var i := FirstOccurrence(names, u);
    var j := FirstOccurrence(names, v);
    assert IsParked(names, reached, i) && IsParked(names, reached, j);
    if i < j {
      ParkedGrows(names, reached, i, j);
      assert v !in names[..i + 1];
    } else {
      if j < i {
        ParkedGrows(names, reached, j, i);
      }
      ListedByFirst(names, v, u, j, i);
    }
  }

  lemma ListedByFirst(names: seq<Node>, v: Node, u: Node, j: nat, i: nat)
    requires j <= i < |names| && names[j] == v && names[i] == u && u !in names[..i]
    ensures ListedBy(names, v, u)
  {
    forall l | 0 <= l < i ensures names[l] != u {
      assert names[..i][l] == names[l];
    }
    forall k | 0 <= k < |names| && names[k] == u ensures v in names[..k + 1] {
      assert names[..k + 1][j] == v;
    }
  }

  lemma RowsFollowDirection(g: Targets, root: Node, back: set<(Node, Node)>, names: seq<Node>, depth: map<Node, nat>, u: Node, v: Node)
    requires root in g && IsBackEdgeSet(g, root, back) && IsLayering(Forward(g, back), root, names, depth)
    requires (u, v) in AllEdges(g) && u in names && v in names
    ensures u in depth && v in depth
    ensures depth[v] <= depth[u] <==> GoesBack(g, root, back, names, u, v)
  {
    hide IsBackEdgeSet, IsLayering, Reaches, ListedBy;
    if Reaches(AllEdges(g), root, u) {
      RowsFollowEdges(g, root, back, names, depth, u, v);
    } else {
      ParkedRowsFollowList(g, root, back, names, depth, u, v);
    }
  }

  lemma CurveFollowsDirection(g: Targets, root: Node, back: set<(Node, Node)>, names: seq<Node>, depth: map<Node, nat>,
                              pos: map<Node, Point>, width: real, height: real, u: Node, v: Node)
    requires forall n :: n in names ==> n in depth
    requires root in g && IsBackEdgeSet(g, root, back) && IsLayering(Forward(g, back), root, names, depth)
    requires IsGrid(names, depth, pos, width, height)
    requires (u, v) in AllEdges(g) && u in names && v in names
    ensures u in pos && v in pos
    ensures pos[v].y <= pos[u].y <==> GoesBack(g, root, back, names, u, v)
  {
    RowsFollowDirection(g, root, back, names, depth, u, v);
    RowsGiveHeights(names, depth, pos, width, height, u, v);
  }

  lemma DirectionsAreShown(g: Targets, root: Node, back: set<(Node, Node)>, names: seq<Node>, depth: map<Node, nat>,
                           pos: map<Node, Point>, gridWidth: real, height: real,
                           drawn: seq<DrawnEdge>, width: real)
    requires forall n :: n in g <==> n in names
    requires forall n :: n in names ==> n in depth
    requires root in g && IsBackEdgeSet(g, root, back) && IsLayering(Forward(g, back), root, names, depth)
    requires IsGrid(names, depth, pos, gridWidth, height)
    requires DrawsAll(Drawable(names, g), pos, drawn, width)
    ensures DirectionsShown(g, root, back, names, drawn)
  {
    DrawableAreEdges(names, g);
    hide IsBackEdgeSet, IsLayering, IsGrid, Drawable, GoesBack, AllEdges, Toward, Rise, Glide, Swing;
    forall k | 0 <= k < |drawn|
      ensures drawn[k].path.curve.Bowed? <==> GoesBack(g, root, back, names, drawn[k].source, drawn[k].target)
    {
      var (u, v) := (drawn[k].source, drawn[k].target);
      assert Drawable(names, g)[k] in Drawable(names, g);
      assert Drawable(names, g)[k] == (u, v);
      CurveFollowsDirection(g, root, back, names, depth, pos, gridWidth, height, u, v);
    }
  }

  lemma DrawOne(pairs: seq<(Node, Node)>, pos: map<Node, Point>, drawn: seq<DrawnEdge>, width: real, u: Node, v: Node)
    requires DrawsAll(pairs, pos, drawn, width) && u in pos && v in pos
    ensures var path := PathOf(pos[u], pos[v]);
            DrawsAll(pairs + [(u, v)], pos, drawn + [DrawnEdge(u, v, path)], Max(width, path.rightmost + MARGIN))
  {
    PathHasShape(pos[u], pos[v]);
    hide PathOf, IsEdgeBetween;
  }

  /** The canvas is no wider than the grid or some edge needs. */
  ghost predicate NoWider(drawn: seq<DrawnEdge>, gridWidth: real, width: real) {
    gridWidth <= width && (width == gridWidth || exists k :: 0 <= k < |drawn| && width == drawn[k].path.rightmost + MARGIN)
  }

  lemma DrawOneNoWider(drawn: seq<DrawnEdge>, gridWidth: real, width: real, edge: DrawnEdge)
    requires NoWider(drawn, gridWidth, width)
    ensures NoWider(drawn + [edge], gridWidth, Max(width, edge.path.rightmost + MARGIN))
  {
    var more := drawn + [edge];
    assert more[|drawn|] == edge;
    if k :| 0 <= k < |drawn| && width == drawn[k].path.rightmost + MARGIN {
      assert more[k] == drawn[k];
    }
  }

  /** The edge loop of `render_workflow_svg`. */
  method DrawEdges(names: seq<Node>, edges: Targets, pos: map<Node, Point>, gridWidth: real)
    returns (drawn: seq<DrawnEdge>, width: real)
    requires forall n :: n in edges <==> n in names
    requires forall n :: n in pos <==> n in names
    ensures DrawsAll(Drawable(names, edges), pos, drawn, width) && NoWider(drawn, gridWidth, width)
  {
    hide DrawsAll, PathOf, Between, Drawable, NoWider;
    drawn, width := [], gridWidth;
    NothingDrawn(names, edges, pos, gridWidth);
    for i := 0 to |names|
      invariant NoWider(drawn, gridWidth, width)
      invariant DrawsAll(Drawable(names[..i], edges), pos, drawn, width)
    {
      var src := names[i];
      assert src in names;
      var targets := edges[src];
      ghost var earlier := Drawable(names[..i], edges);
      BetweenNone(src, targets, edges, earlier);
      for j := 0 to |targets|
        invariant NoWider(drawn, gridWidth, width)
        invariant DrawsAll(earlier + Between(src, targets[..j], edges), pos, drawn, width)
      {
        BetweenStep(src, targets, edges, j, earlier);
        if targets[j] !in pos {
          continue;
        }
        var path := PathOf(pos[src], pos[targets[j]]);
        DrawOne(earlier + Between(src, targets[..j], edges), pos, drawn, width, src, targets[j]);
        DrawOneNoWider(drawn, gridWidth, width, DrawnEdge(src, targets[j], path));
        width := Max(width, path.rightmost + MARGIN);
        drawn := drawn + [DrawnEdge(src, targets[j], path)];
      }
      DrawableStep(names, edges, i);
    }
    assert names[..|names|] == names;
  }

  method DrawWorkflow(names: seq<Node>, edges: Targets, start: Node)
    returns (pos: map<Node, Point>, drawn: seq<DrawnEdge>, width: real, height: real, ghost depth: map<Node, nat>,
             ghost back: set<(Node, Node)>, ghost gridWidth: real)
    requires forall n :: n in edges <==> n in names
    requires "" !in names
    ensures IsBackEdgeSet(edges, Root(names, edges, start), back)
    ensures names != [] ==> IsLayering(Forward(edges, back), Root(names, edges, start), names, depth)
    ensures forall n :: n in names ==> n in depth
    ensures IsGrid(names, depth, pos, gridWidth, height)
    ensures DrawsAll(Drawable(names, edges), pos, drawn, width) && NoWider(drawn, gridWidth, width)
    ensures DirectionsShown(edges, Root(names, edges, start), back, names, drawn)
  {
    hide IsBackEdgeSet, IsLayering, IsGrid, DrawsAll, NoWider, DirectionsShown, Drawable;
    var rows, loops := AssignDepths(names, edges, start);
    depth, back := rows, loops;
    EveryNameHasRow(names, edges, Root(names, edges, start), loops, rows);
    var gridW;
    pos, gridW, height := PlaceBoxes(names, rows);
    GridHoldsNames(names, rows, pos, gridW, height);
    drawn, width := DrawEdges(names, edges, pos, gridW);
    gridWidth := gridW;
    if names == [] {
      NothingShown(edges, Root(names, edges, start), back, pos, drawn, width);
    } else {
      assert names[0] in names;
      DirectionsAreShown(edges, Root(names, edges, start), back, names, depth, pos, gridWidth, height, drawn, width);
    }
  }

  lemma EveryNameHasRow(names: seq<Node>, edges: Targets, root: Node, back: set<(Node, Node)>, depth: map<Node, nat>)
    requires names != [] ==> IsLayering(Forward(edges, back), root, names, depth)
    ensures forall n :: n in names ==> n in depth
  {
  }

  lemma GridHoldsNames(names: seq<Node>, depth: map<Node, nat>, pos: map<Node, Point>, width: real, height: real)
    requires forall n :: n in names ==> n in depth
    requires IsGrid(names, depth, pos, width, height)
    ensures forall n :: n in pos <==> n in names
  {
  }

  lemma NothingDrawn(names: seq<Node>, edges: Targets, pos: map<Node, Point>, width: real)
    ensures DrawsAll(Drawable(names[..0], edges), pos, [], width) && NoWider([], width, width)
  {
  }

  lemma NothingShown(edges: Targets, root: Node, back: set<(Node, Node)>, pos: map<Node, Point>, drawn: seq<DrawnEdge>, width: real)
    requires DrawsAll(Drawable([], edges), pos, drawn, width)
    ensures DirectionsShown(edges, root, back, [], drawn)
  {
  }
}
