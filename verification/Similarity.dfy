/**
 Similarity of texts to sources: from a bounded number of candidates (rag/base.py,
 `compute_similarity_matrix`) and exactly (the override in rag/postgres.py).
 */
module Similarity {
  import opened Wrappers
  import opened Sorting
  import opened Retrieval

  datatype Chunk = Chunk(id: int, source: string)

  /** The indexed chunks, and the distance of text t to the chunk with a given id. */
  datatype Collection = Collection(chunks: seq<Chunk>, distance: (nat, int) -> real)

  function RowsFor(c: Collection, t: nat): seq<Row> {
    seq(|c.chunks|, i requires 0 <= i < |c.chunks| =>
      Row(c.chunks[i].id, c.chunks[i].source, c.distance(t, c.chunks[i].id)))
  }

  const CANDIDATES_PER_SOURCE := 100

  /** WHERE source_id = ANY(source_ids). */
  function Matching(rows: seq<Row>, sourceIds: seq<string>): seq<Row> {
    if rows == [] then []
    else (if rows[0].source in sourceIds then [rows[0]] else []) + Matching(rows[1..], sourceIds)
  }

  /** The distances of the rows of one source. */
  function Distances(rows: seq<Row>, s: string): seq<real> {
    if rows == [] then [] else DistanceIf(rows[0], s) + Distances(rows[1..], s)
  }

  function DistanceIf(r: Row, s: string): seq<real> {
    if r.source == s then [r.distance] else []
  }

  function Similarities(distances: seq<real>): (sims: seq<real>)
    ensures |sims| == |distances|
  {
    seq(|distances|, i requires 0 <= i < |distances| => 1.0 - distances[i])
  }

  function Min(s: seq<real>): real
    requires s != []
  {
    if |s| == 1 then s[0]
    else
      var m := Min(s[1..]);
      if s[0] < m then s[0] else m
  }

  function Max(s: seq<real>): real
    requires s != []
  {
    if |s| == 1 then s[0]
    else
      var m := Max(s[1..]);
      if s[0] > m then s[0] else m
  }

  function Sum(s: seq<real>): real {
    if s == [] then 0.0 else s[0] + Sum(s[1..])
  }

  function Mean(s: seq<real>): real
    requires s != []
  {
    Sum(s) / |s| as real
  }

  // ------------------------------------------------------------------ one cell, both ways

  /** Where a source's column is: at its last position in the list. */
  predicate IsColumnOf(sourceIds: seq<string>, j: nat, s: string) {
    j < |sourceIds| && sourceIds[j] == s && s !in sourceIds[j + 1..]
  }

  /** A cell made from candidates. */
  function CandidateCell(candidates: seq<Row>, sourceIds: seq<string>, j: nat, aggregate: string): real
    requires j < |sourceIds|
  {
    var sims := Similarities(Distances(candidates, sourceIds[j]));
    if IsColumnOf(sourceIds, j, sourceIds[j]) && sims != [] then if aggregate == "min" then Max(sims) else Mean(sims)
    else 0.0
  }

  /** The candidates: the closest rows of the listed sources, so many per source. */
  function Candidates(rows: seq<Row>, sourceIds: seq<string>): seq<Row> {
    Closest(Matching(rows, sourceIds), |sourceIds| * CANDIDATES_PER_SOURCE)
  }

  function DefaultCell(rows: seq<Row>, sourceIds: seq<string>, j: nat, aggregate: string): real
    requires j < |sourceIds|
  {
    CandidateCell(Candidates(rows, sourceIds), sourceIds, j, aggregate)
  }

  function ExactCell(rows: seq<Row>, sourceIds: seq<string>, j: nat, aggregate: string): real
    requires j < |sourceIds|
  {
    var distances := Distances(rows, sourceIds[j]);
    if IsColumnOf(sourceIds, j, sourceIds[j]) && distances != [] then
      1.0 - if aggregate == "min" then Min(distances) else Mean(distances)
    else 0.0
  }

  // ------------------------------------------------------------------ similarities instead of distances

  lemma SimilaritiesRest(d: seq<real>)
    requires d != []
    ensures Similarities(d)[1..] == Similarities(d[1..])
  {
  }

  lemma {:induction false} MaxIsOneMinusMin(d: seq<real>)
    requires d != []
    ensures Max(Similarities(d)) == 1.0 - Min(d)
  {
    SimilaritiesRest(d);
    if |d| > 1 {
      MaxIsOneMinusMin(d[1..]);
    }
  }

  lemma {:induction false} SumOfSimilarities(d: seq<real>)
    ensures Sum(Similarities(d)) == |d| as real - Sum(d)
  {
    if d != [] {
      SimilaritiesRest(d);
      SumOfSimilarities(d[1..]);
    }
  }

  lemma MeanOfSimilarities(d: seq<real>)
    requires d != []
    ensures Mean(Similarities(d)) == 1.0 - Mean(d)
  {
    SumOfSimilarities(d);
    var n := |d| as real;
    assert (n - Sum(d)) / n == n / n - Sum(d) / n;
  }

  /** A cell made from candidates is the exact cell of the candidates. */
  lemma CandidateCellIsExact(candidates: seq<Row>, sourceIds: seq<string>, j: nat, aggregate: string)
    requires j < |sourceIds|
    ensures CandidateCell(candidates, sourceIds, j, aggregate) == ExactCell(candidates, sourceIds, j, aggregate)
  {
    var d := Distances(candidates, sourceIds[j]);
    if d != [] {
      MaxIsOneMinusMin(d);
      MeanOfSimilarities(d);
    }
  }

  // ------------------------------------------------------------------ order does not matter

  lemma {:induction false} DistancesOfParts(a: seq<Row>, b: seq<Row>, s: string)
    ensures Distances(a + b, s) == Distances(a, s) + Distances(b, s)
  {
    hide DistanceIf;
    if a == [] {
      assert a + b == b;
    } else {
      DistancesOfParts(a[1..], b, s);
      assert (a + b)[1..] == a[1..] + b;
      assert DistanceIf(a[0], s) + (Distances(a[1..], s) + Distances(b, s)) ==
             DistanceIf(a[0], s) + Distances(a[1..], s) + Distances(b, s);
    }
  }

  lemma {:induction false} SumOfParts(a: seq<real>, b: seq<real>)
    ensures Sum(a + b) == Sum(a) + Sum(b)
  {
    if a == [] {
      assert a + b == b;
    } else {
      SumOfParts(a[1..], b);
      assert (a + b)[1..] == a[1..] + b;
    }
  }

  lemma DistancesOfOne(x: Row, s: string)
    ensures Distances([x], s) == if x.source == s then [x.distance] else []
  {
  }

  lemma SumOfOne(x: real)
    ensures Sum([x]) == x && Sum([]) == 0.0
  {
  }

  function Share(x: Row, s: string): real {
    if x.source == s then x.distance else 0.0
  }

  lemma SumOfFirst(x: Row, rest: seq<Row>, s: string)
    ensures Sum(Distances([x] + rest, s)) == Share(x, s) + Sum(Distances(rest, s))
  {
    DistancesOfParts([x], rest, s);
    DistancesOfOne(x, s);
    SumOfParts(Distances([x], s), Distances(rest, s));
    SumOfOne(x.distance);
  }

  lemma {:induction false} InsertAddsDistance(rows: seq<Row>, x: Row, s: string)
    ensures Sum(Distances(Insert(rows, x, Closer), s)) == Sum(Distances(rows, s)) + Share(x, s)
  {
    hide Distances, Sum;
    if rows != [] && Closer(rows[0], x) {
      InsertAddsDistance(rows[1..], x, s);
      assert rows == [rows[0]] + rows[1..];
      SumOfFirst(rows[0], rows[1..], s);
      SumOfFirst(rows[0], Insert(rows[1..], x, Closer), s);
    } else {
      SumOfFirst(x, rows, s);
      assert [x] + rows == Insert(rows, x, Closer);
    }
  }

  lemma {:induction false} SortKeepsSum(rows: seq<Row>, s: string)
    ensures Sum(Distances(Sort(rows, Closer), s)) == Sum(Distances(rows, s))
  {
    if rows != [] {
      hide Distances, Sum;
      var front := rows[..|rows| - 1];
      var x := rows[|rows| - 1];
      SortKeepsSum(front, s);
      InsertAddsDistance(Sort(front, Closer), x, s);
      assert rows == front + [x];
      DistancesOfParts(front, [x], s);
      SumOfParts(Distances(front, s), Distances([x], s));
      SumOfFirst(x, [], s);
      assert [x] + [] == [x];
      DistancesOfNone(s);
    }
  }

  lemma DistancesOfNone(s: string)
    ensures Sum(Distances([], s)) == 0.0
  {
  }

  lemma {:induction false} DistancesAre(rows: seq<Row>, s: string)
    ensures |Distances(rows, s)| == Count(rows, s)
    ensures forall d :: d in Distances(rows, s) <==> exists i :: 0 <= i < |rows| && rows[i].source == s && rows[i].distance == d
  {
    if rows != [] {
      DistancesAre(rows[1..], s);
      var rest := Distances(rows[1..], s);
      forall d ensures d in Distances(rows, s) <==> exists i :: 0 <= i < |rows| && rows[i].source == s && rows[i].distance == d {
        if d in rest {
          var i :| 0 <= i < |rows[1..]| && rows[1..][i].source == s && rows[1..][i].distance == d;
          assert rows[i + 1].source == s && rows[i + 1].distance == d;
        }
        if i :| 0 <= i < |rows| && rows[i].source == s && rows[i].distance == d {
          if i > 0 {
            assert rows[1..][i - 1] == rows[i];
          }
        }
      }
    }
  }

  /** Same number, same values, same sum. */
  ghost predicate Alike(a: seq<real>, b: seq<real>) {
    |a| == |b| && Sum(a) == Sum(b) && forall x :: x in a <==> x in b
  }

  lemma SortKeepsDistances(rows: seq<Row>, s: string)
    ensures Alike(Distances(Sort(rows, Closer), s), Distances(rows, s))
  {
    SortKeepsSum(rows, s);
    SortCounts(rows, s);
    DistancesAre(rows, s);
    var sorted := Sort(rows, Closer);
    DistancesAre(sorted, s);
    SortMembers(rows, Closer);
    hide Distances, Sum, Sort;
    forall d ensures d in Distances(sorted, s) <==> d in Distances(rows, s) {
      if d in Distances(rows, s) {
        var i :| 0 <= i < |rows| && rows[i].source == s && rows[i].distance == d;
        assert rows[i] in sorted;
        var j :| 0 <= j < |sorted| && sorted[j] == rows[i];
      }
      if d in Distances(sorted, s) {
        var i :| 0 <= i < |sorted| && sorted[i].source == s && sorted[i].distance == d;
        assert sorted[i] in rows;
        var j :| 0 <= j < |rows| && rows[j] == sorted[i];
      }
    }
  }

  lemma {:induction false} MatchingKeepsDistances(rows: seq<Row>, sourceIds: seq<string>, s: string)
    requires s in sourceIds
    ensures Distances(Matching(rows, sourceIds), s) == Distances(rows, s)
  {
    if rows != [] {
      MatchingKeepsDistances(rows[1..], sourceIds, s);
      DistancesOfParts(if rows[0].source in sourceIds then [rows[0]] else [], Matching(rows[1..], sourceIds), s);
      DistancesOfOne(rows[0], s);
    }
  }

  lemma {:induction false} MinIsLeast(s: seq<real>)
    requires s != []
    ensures Min(s) in s && forall x :: x in s ==> Min(s) <= x
  {
    assert s == [s[0]] + s[1..];
    if |s| > 1 {
      MinIsLeast(s[1..]);
    }
  }

  lemma SameAggregates(a: seq<real>, b: seq<real>)
    requires Alike(a, b) && a != []
    ensures b != [] && Min(a) == Min(b) && Mean(a) == Mean(b)
  {
    MinIsLeast(a);
    MinIsLeast(b);
    assert Min(a) in b && Min(b) in a;
  }

  lemma SameDistancesSameCell(a: seq<Row>, b: seq<Row>, sourceIds: seq<string>, j: nat, aggregate: string)
    requires j < |sourceIds| && Alike(Distances(a, sourceIds[j]), Distances(b, sourceIds[j]))
    ensures ExactCell(a, sourceIds, j, aggregate) == ExactCell(b, sourceIds, j, aggregate)
  {
    if Distances(a, sourceIds[j]) != [] {
      SameAggregates(Distances(a, sourceIds[j]), Distances(b, sourceIds[j]));
    }
  }

  // ------------------------------------------------------------------ when a hundred candidates are enough

  lemma {:induction false} MatchingCounts(rows: seq<Row>, sourceIds: seq<string>, s: string)
    ensures Count(Matching(rows, sourceIds), s) == if s in sourceIds then Count(rows, s) else 0
    ensures forall e :: e in Matching(rows, sourceIds) ==> e.source in sourceIds
  {
    if rows != [] {
      MatchingCounts(rows[1..], sourceIds, s);
      CountOfParts(if rows[0].source in sourceIds then [rows[0]] else [], Matching(rows[1..], sourceIds), s);
      assert [rows[0]][1..] == [];
    }
  }

  lemma {:induction false} ListIsAtLeastItsSet(names: seq<string>, pool: set<string>)
    requires forall s :: s in pool ==> s in names
    ensures |pool| <= |names|
  {
    if names == [] {
      assert pool == {};
    } else {
      ListIsAtLeastItsSet(names[..|names| - 1], pool - {names[|names| - 1]});
    }
  }

  /** Then the candidates are all the rows there are. */
  lemma CandidatesAreAll(rows: seq<Row>, sourceIds: seq<string>)
    requires Keyed(Matching(rows, sourceIds))
    requires forall s :: s in sourceIds ==> Count(rows, s) <= CANDIDATES_PER_SOURCE
    ensures Candidates(rows, sourceIds) == Sort(Matching(rows, sourceIds), Closer)
  {
    var matching := Matching(rows, sourceIds);
    forall s ensures Count(matching, s) <= CANDIDATES_PER_SOURCE {
      MatchingCounts(rows, sourceIds, s);
    }
    MatchingCounts(rows, sourceIds, "");
    var listed := set i | 0 <= i < |sourceIds| :: sourceIds[i];
    forall s | s in Sources(matching) ensures s in listed {
      var i :| 0 <= i < |matching| && matching[i].source == s;
      assert matching[i] in matching;
    }
    FewPerSource(matching, listed, CANDIDATES_PER_SOURCE);
    ListIsAtLeastItsSet(sourceIds, listed);
    SortRanks(matching);
  }

  /** With at most a hundred chunks per source the default matrix is the exact one, for both aggregates. */
  lemma SmallSourcesExact(rows: seq<Row>, sourceIds: seq<string>, j: nat, aggregate: string)
    requires Keyed(Matching(rows, sourceIds)) && j < |sourceIds|
    requires forall s :: s in sourceIds ==> Count(rows, s) <= CANDIDATES_PER_SOURCE
    ensures DefaultCell(rows, sourceIds, j, aggregate) == ExactCell(rows, sourceIds, j, aggregate)
  {
    CandidatesAreAll(rows, sourceIds);
    CandidateCellIsExact(Candidates(rows, sourceIds), sourceIds, j, aggregate);
    SortKeepsDistances(Matching(rows, sourceIds), sourceIds[j]);
    MatchingKeepsDistances(rows, sourceIds, sourceIds[j]);
    SameDistancesSameCell(Candidates(rows, sourceIds), rows, sourceIds, j, aggregate);
  }

  // ------------------------------------------------------------------ and when they are not

  lemma {:induction false} DistancesBounded(rows: seq<Row>, s: string, bound: real, above: bool)
    requires forall r :: r in rows ==> if above then bound <= r.distance else r.distance <= bound
    ensures forall x :: x in Distances(rows, s) ==> if above then bound <= x else x <= bound
  {
    if rows != [] {
      assert rows == [rows[0]] + rows[1..];
      DistancesBounded(rows[1..], s, bound, above);
    }
  }

  /** Cutting a ranking at n separates it by distance. */
  lemma RankingSplits(ranking: seq<Row>, n: nat) returns (bound: real)
    requires Ranked(ranking) && n <= |ranking|
    ensures forall i :: 0 <= i < n ==> ranking[i].distance <= bound
    ensures forall i :: n <= i < |ranking| ==> bound <= ranking[i].distance
  {
    bound := if n < |ranking| then ranking[n].distance else if n > 0 then ranking[n - 1].distance else 0.0;
  }

  /** Every candidate is at most as far away as every row left out. */
  lemma CandidatesComeFirst(rows: seq<Row>, sourceIds: seq<string>) returns (left: seq<Row>, bound: real)
    requires Keyed(Matching(rows, sourceIds))
    ensures Sort(Matching(rows, sourceIds), Closer) == Candidates(rows, sourceIds) + left
    ensures forall r :: r in Candidates(rows, sourceIds) ==> r.distance <= bound
    ensures forall r :: r in left ==> bound <= r.distance
  {
    var sorted := Sort(Matching(rows, sourceIds), Closer);
    var candidates := Candidates(rows, sourceIds);
    SortRanks(Matching(rows, sourceIds));
    var n := |candidates|;
    assert candidates == sorted[..n];
    left := sorted[n..];
    hide Sort, Matching, Candidates, Ranked;
    assert sorted == candidates + left;
    bound := RankingSplits(sorted, n);
    forall r | r in left ensures bound <= r.distance {
      var i :| 0 <= i < |left| && left[i] == r;
      assert sorted[n + i] == r;
    }
  }

  lemma {:induction false} MinOfParts(a: seq<real>, b: seq<real>, bound: real)
    requires a != [] && (forall x :: x in a ==> x <= bound) && (forall x :: x in b ==> bound <= x)
    ensures Min(a + b) == Min(a)
  {
    MinIsLeast(a);
    MinIsLeast(a + b);
    assert Min(a) in a + b;
  }

  lemma {:induction false} SumBounded(s: seq<real>, bound: real, above: bool)
    requires forall x :: x in s ==> if above then bound <= x else x <= bound
    ensures if above then |s| as real * bound <= Sum(s) else Sum(s) <= |s| as real * bound
  {
    if s != [] {
      var rest := s[1..];
      assert s == [s[0]] + rest;
      assert s[0] in s;
      forall x | x in rest ensures x in s {}
      SumBounded(rest, bound, above);
      OneMoreTimes(|rest|, bound);
    }
  }

  lemma OneMoreTimes(n: nat, x: real)
    ensures (n + 1) as real * x == n as real * x + x
  {
    assert (n + 1) as real == n as real + 1.0;
  }

  lemma CrossMultiply(p: real, m: real, q: real, n: real, bound: real)
    requires m > 0.0 && n >= 0.0 && p <= m * bound && n * bound <= q
    ensures p / m <= (p + q) / (m + n)
  {
    assert p * n <= m * bound * n;
    assert m * (n * bound) <= m * q;
    assert p * (m + n) <= (p + q) * m;
    DivideBoth(p, m, p + q, m + n);
  }

  lemma DivideBoth(p: real, m: real, q: real, n: real)
    requires m > 0.0 && n > 0.0 && p * n <= q * m
    ensures p / m <= q / n
  {
  }

  /** The mean of the closest is at most the mean of all. */
  lemma MeanOfParts(a: seq<real>, b: seq<real>, bound: real)
    requires a != [] && (forall x :: x in a ==> x <= bound) && (forall x :: x in b ==> bound <= x)
    ensures Mean(a) <= Mean(a + b)
  {
    SumBounded(a, bound, false);
    SumBounded(b, bound, true);
    SumOfParts(a, b);
    CrossMultiply(Sum(a), |a| as real, Sum(b), |b| as real, bound);
  }

  /** A source with a candidate has its exact "min" cell and at least its exact "avg" cell; the others show 0. */
  lemma LargeSources(rows: seq<Row>, sourceIds: seq<string>, j: nat)
    requires Keyed(Matching(rows, sourceIds)) && j < |sourceIds|
    ensures sourceIds[j] !in Sources(Candidates(rows, sourceIds)) ==>
              forall aggregate :: DefaultCell(rows, sourceIds, j, aggregate) == 0.0
    ensures sourceIds[j] in Sources(Candidates(rows, sourceIds)) ==>
              && DefaultCell(rows, sourceIds, j, "min") == ExactCell(rows, sourceIds, j, "min")
              && forall aggregate :: aggregate != "min" ==>
                   ExactCell(rows, sourceIds, j, aggregate) <= DefaultCell(rows, sourceIds, j, aggregate)
  {
    var s := sourceIds[j];
    var candidates := Candidates(rows, sourceIds);
    var near := Distances(candidates, s);
    DistancesMeanSource(candidates, s);
    hide Distances, Candidates, Sources, Min, Mean, Max, Keyed;
    if s in Sources(candidates) {
      var left, bound := CandidatesComeFirst(rows, sourceIds);
      var far := Distances(left, s);
      DistancesBounded(candidates, s, bound, false);
      DistancesBounded(left, s, bound, true);
      DistancesOfParts(candidates, left, s);
      SortKeepsDistances(Matching(rows, sourceIds), s);
      MatchingKeepsDistances(rows, sourceIds, s);
      SameAggregates(near + far, Distances(rows, s));
      MinOfParts(near, far, bound);
      MeanOfParts(near, far, bound);
      MaxIsOneMinusMin(near);
      MeanOfSimilarities(near);
    }
  }

  lemma {:induction false} DistancesMeanSource(rows: seq<Row>, s: string)
    ensures Distances(rows, s) != [] <==> s in Sources(rows)
  {
    if rows != [] {
      DistancesMeanSource(rows[1..], s);
      assert rows == [rows[0]] + rows[1..];
      SourcesOfParts([rows[0]], rows[1..]);
      assert Sources([rows[0]]) == {rows[0].source} by { assert [rows[0]][0].source == rows[0].source; }
    }
  }

  // ------------------------------------------------------------------ exact cells in terms of the chunks

  /** Chunk i is one of the source's, and this is its similarity to text t. */
  ghost predicate HasSimilarity(c: Collection, t: nat, s: string, i: nat, similarity: real) {
    i < |c.chunks| && c.chunks[i].source == s && similarity == 1.0 - c.distance(t, c.chunks[i].id)
  }

  /** How many of the first n chunks are the source's. */
  ghost function NumberOf(c: Collection, s: string, n: nat): nat
    requires n <= |c.chunks|
  {
    if n == 0 then 0 else NumberOf(c, s, n - 1) + if c.chunks[n - 1].source == s then 1 else 0
  }

  /** The similarities of those chunks to text t, added up. */
  ghost function TotalOf(c: Collection, t: nat, s: string, n: nat): real
    requires n <= |c.chunks|
  {
    if n == 0 then 0.0
    else TotalOf(c, t, s, n - 1) + if c.chunks[n - 1].source == s then 1.0 - c.distance(t, c.chunks[n - 1].id) else 0.0
  }

  ghost predicate IsHighest(c: Collection, t: nat, s: string, cell: real) {
    && (exists i: nat :: HasSimilarity(c, t, s, i, cell))
    && (forall i: nat, similarity :: HasSimilarity(c, t, s, i, similarity) ==> similarity <= cell)
  }

  /**
   What a cell is to hold: the similarity of the most similar chunk, or the mean of all; 0.0
   for a source without chunks, and in every column of a repeated source but the last.
   */
  ghost predicate CellMeans(c: Collection, t: nat, sourceIds: seq<string>, j: nat, aggregate: string, cell: real)
    requires j < |sourceIds|
  {
    var s := sourceIds[j];
    if s in sourceIds[j + 1..] || forall i :: 0 <= i < |c.chunks| ==> c.chunks[i].source != s then cell == 0.0
    else if aggregate == "min" then IsHighest(c, t, s, cell)
    else cell * NumberOf(c, s, |c.chunks|) as real == TotalOf(c, t, s, |c.chunks|)
  }

  lemma {:induction false} DistancesAddUp(c: Collection, t: nat, s: string, n: nat)
    requires n <= |c.chunks|
    ensures var d := Distances(RowsFor(c, t)[..n], s);
            |d| == NumberOf(c, s, n) && TotalOf(c, t, s, n) == |d| as real - Sum(d)
  {
    var rows := RowsFor(c, t);
    if n == 0 {
      assert rows[..0] == [];
    } else {
      DistancesAddUp(c, t, s, n - 1);
      assert rows[..n] == rows[..n - 1] + [rows[n - 1]];
      DistancesOfMore(rows[..n - 1], rows[n - 1], s);
      SumOfParts(Distances(rows[..n - 1], s), [rows[n - 1].distance]);
      SumOfOne(rows[n - 1].distance);
    }
  }

  lemma SourceHasDistances(c: Collection, t: nat, s: string)
    ensures Distances(RowsFor(c, t), s) == [] <==> forall i :: 0 <= i < |c.chunks| ==> c.chunks[i].source != s
  {
    SourcesOfCollection(c, t, s);
  }

  lemma RowHasSimilarity(c: Collection, t: nat, s: string)
    ensures var rows := RowsFor(c, t);
            forall i: nat, x: real :: HasSimilarity(c, t, s, i, x) <==> i < |rows| && rows[i].source == s && rows[i].distance == 1.0 - x
  {
  }

  lemma MinCellMeans(c: Collection, t: nat, s: string)
    requires Distances(RowsFor(c, t), s) != []
    ensures IsHighest(c, t, s, 1.0 - Min(Distances(RowsFor(c, t), s)))
  {
    var (rows, d) := (RowsFor(c, t), Distances(RowsFor(c, t), s));
    DistancesAre(rows, s);
    MinIsLeast(d);
    RowHasSimilarity(c, t, s);
    hide Distances, Min, HasSimilarity, RowsFor;
    var cell := 1.0 - Min(d);
    var i :| 0 <= i < |rows| && rows[i].source == s && rows[i].distance == Min(d);
    assert HasSimilarity(c, t, s, i, cell);
    forall k: nat, similarity | HasSimilarity(c, t, s, k, similarity) ensures similarity <= cell {
      assert rows[k].distance in d;
    }
  }

  lemma MeanCellMeans(c: Collection, t: nat, s: string)
    requires Distances(RowsFor(c, t), s) != []
    ensures (1.0 - Mean(Distances(RowsFor(c, t), s))) * NumberOf(c, s, |c.chunks|) as real == TotalOf(c, t, s, |c.chunks|)
  {
    var d := Distances(RowsFor(c, t), s);
    DistancesAddUp(c, t, s, |c.chunks|);
    assert RowsFor(c, t)[..|c.chunks|] == RowsFor(c, t);
    DivideAndMultiply(Sum(d), |d| as real);
  }

  lemma DivideAndMultiply(sum: real, n: real)
    requires n > 0.0
    ensures (1.0 - sum / n) * n == n - sum
  {
    assert (sum / n) * n == sum;
  }

  /** The exact cell is what it is to be. */
  lemma ExactCellMeans(c: Collection, t: nat, sourceIds: seq<string>, j: nat, aggregate: string)
    requires j < |sourceIds|
    ensures CellMeans(c, t, sourceIds, j, aggregate, ExactCell(RowsFor(c, t), sourceIds, j, aggregate))
  {
    hide Distances, RowsFor, Min, Mean, IsHighest;
    var s := sourceIds[j];
    SourceHasDistances(c, t, s);
    if Distances(RowsFor(c, t), s) != [] {
      MinCellMeans(c, t, s);
      MeanCellMeans(c, t, s);
    }
  }

  /** And so is the default one for sources of at most a hundred chunks. */
  lemma DefaultCellMeans(c: Collection, t: nat, sourceIds: seq<string>, j: nat, aggregate: string)
    requires Keyed(Matching(RowsFor(c, t), sourceIds)) && j < |sourceIds|
    requires forall s :: s in sourceIds ==> Count(RowsFor(c, t), s) <= CANDIDATES_PER_SOURCE
    ensures CellMeans(c, t, sourceIds, j, aggregate, DefaultCell(RowsFor(c, t), sourceIds, j, aggregate))
  {
    hide CellMeans, DefaultCell, ExactCell, RowsFor, Keyed, Matching, Count;
    SmallSourcesExact(RowsFor(c, t), sourceIds, j, aggregate);
    ExactCellMeans(c, t, sourceIds, j, aggregate);
  }

  // ------------------------------------------------------------------ the code

  /** `{sid: i for i, sid in enumerate(source_ids)}`: the last position wins. */
  method ColumnIndex(sourceIds: seq<string>) returns (column: map<string, nat>)
    ensures forall s :: s in column <==> s in sourceIds
    ensures forall s :: s in column ==> IsColumnOf(sourceIds, column[s], s)
  {
    column := map[];
    for i := 0 to |sourceIds|
      invariant forall s :: s in column <==> s in sourceIds[..i]
      invariant forall s :: s in column ==> column[s] < i && sourceIds[column[s]] == s && s !in sourceIds[column[s] + 1..i]
    {
      assert sourceIds[..i + 1] == sourceIds[..i] + [sourceIds[i]];
      forall s | s in column && s != sourceIds[i] ensures s !in sourceIds[column[s] + 1..i + 1] {
        assert sourceIds[column[s] + 1..i + 1] == sourceIds[column[s] + 1..i] + [sourceIds[i]];
      }
      column := column[sourceIds[i] := i];
    }
    assert sourceIds[..|sourceIds|] == sourceIds;
    forall s | s in column ensures s !in sourceIds[column[s] + 1..] {
      assert sourceIds[column[s] + 1..] == sourceIds[column[s] + 1..|sourceIds|];
    }
  }

  /** The similarities of each source that occurs, in order of occurrence. */
  ghost predicate Grouped(groups: map<string, seq<real>>, results: seq<Row>) {
    && (forall s :: s in groups <==> Distances(results, s) != [])
    && (forall s :: s in groups ==> groups[s] == Similarities(Distances(results, s)))
  }

  lemma DistancesOfMore(results: seq<Row>, r: Row, s: string)
    ensures Distances(results + [r], s) == if r.source == s then Distances(results, s) + [r.distance] else Distances(results, s)
  {
    DistancesOfParts(results, [r], s);
    DistancesOfOne(r, s);
  }

  lemma GroupOne(groups: map<string, seq<real>>, results: seq<Row>, r: Row)
    requires Grouped(groups, results)
    ensures var sims := if r.source in groups then groups[r.source] else [];
            Grouped(groups[r.source := sims + [1.0 - r.distance]], results + [r])
  {
    hide Distances, Similarities;
    forall s ensures Distances(results + [r], s) == if r.source == s then Distances(results, s) + [r.distance] else Distances(results, s) {
      DistancesOfMore(results, r, s);
    }
    SimilaritiesOfMore(Distances(results, r.source), r.distance);
    SimilaritiesOfNone();
  }

  lemma SimilaritiesOfNone()
    ensures Similarities([]) == []
  {
  }

  lemma SimilaritiesOfMore(d: seq<real>, x: real)
    ensures Similarities(d + [x]) == Similarities(d) + [1.0 - x]
  {
  }

  lemma NothingGrouped()
    ensures Grouped(map[], [])
  {
  }

  method GroupSimilarities(results: seq<Row>) returns (groups: map<string, seq<real>>)
    ensures Grouped(groups, results)
  {
    hide Grouped;
    groups := map[];
    NothingGrouped();
    for i := 0 to |results|
      invariant Grouped(groups, results[..i])
    {
      var r := results[i];
      assert results[..i + 1] == results[..i] + [r];
      GroupOne(groups, results[..i], r);
      var sims := if r.source in groups then groups[r.source] else [];
      groups := groups[r.source := sims + [1.0 - r.distance]];
    }
    assert results[..|results|] == results;
  }

  /** The default implementation: cells from candidate lists, one list per text. */
  method DefaultMatrix(results: seq<seq<Row>>, sourceIds: seq<string>, aggregate: string) returns (matrix: array2<real>)
    ensures matrix.Length0 == |results| && matrix.Length1 == |sourceIds|
    ensures forall t, j :: 0 <= t < |results| && 0 <= j < |sourceIds| ==>
              matrix[t, j] == CandidateCell(results[t], sourceIds, j, aggregate)
  {
    hide Distances, Similarities, Max, Mean, IsColumnOf;
    matrix := new real[|results|, |sourceIds|]((t, j) => 0.0);
    var column := ColumnIndex(sourceIds);
    for t := 0 to |results|
      invariant forall u, j :: 0 <= u < t && 0 <= j < |sourceIds| ==> matrix[u, j] == CandidateCell(results[u], sourceIds, j, aggregate)
      invariant forall u, j :: t <= u < |results| && 0 <= j < |sourceIds| ==> matrix[u, j] == 0.0
    {
      var groups := GroupSimilarities(results[t]);
      FillRow(matrix, t, groups, column, sourceIds, aggregate, results[t]);
    }
  }

  /** Writes the groups of one text into its row. */
  method FillRow(matrix: array2<real>, t: nat, groups: map<string, seq<real>>, column: map<string, nat>,
                 sourceIds: seq<string>, aggregate: string, ghost results: seq<Row>)
    requires t < matrix.Length0 && matrix.Length1 == |sourceIds|
    requires Grouped(groups, results)
    requires forall s :: s in column <==> s in sourceIds
    requires forall s :: s in column ==> IsColumnOf(sourceIds, column[s], s)
    requires forall j :: 0 <= j < |sourceIds| ==> matrix[t, j] == 0.0
    modifies matrix
    ensures forall j :: 0 <= j < |sourceIds| ==> matrix[t, j] == CandidateCell(results, sourceIds, j, aggregate)
    ensures forall u, j :: 0 <= u < matrix.Length0 && u != t && 0 <= j < |sourceIds| ==> matrix[u, j] == old(matrix[u, j])
  {
    hide Similarities, Distances, Max, Mean;
    var todo := groups.Keys;
    while todo != {}
      invariant todo <= groups.Keys
      invariant forall j :: 0 <= j < |sourceIds| ==>
                  matrix[t, j] == if sourceIds[j] in todo then 0.0 else CandidateCell(results, sourceIds, j, aggregate)
      invariant forall u, j :: 0 <= u < matrix.Length0 && u != t && 0 <= j < |sourceIds| ==> matrix[u, j] == old(matrix[u, j])
      decreases todo
    {
      var sid :| sid in todo;
      todo := todo - {sid};
      if sid in column {
        var sims := groups[sid];
        matrix[t, column[sid]] := if aggregate == "min" then Max(sims) else Mean(sims);
      }
    }
  }

  /** `compute_similarity_matrix` of the base class over an exact `query_batch`. */
  method ComputeDefault(c: Collection, texts: nat, sourceIds: seq<string>, aggregate: string) returns (matrix: array2<real>)
    ensures matrix.Length0 == texts && matrix.Length1 == |sourceIds|
    ensures forall t, j :: 0 <= t < texts && 0 <= j < |sourceIds| ==>
              matrix[t, j] == DefaultCell(RowsFor(c, t), sourceIds, j, aggregate)
  {
    if texts == 0 || sourceIds == [] {
      return new real[texts, |sourceIds|]((t, j) => 0.0);
    }
    var results := seq(texts, t requires 0 <= t < texts => Candidates(RowsFor(c, t), sourceIds));
    matrix := DefaultMatrix(results, sourceIds, aggregate);
  }

  lemma {:induction false} SourcesOfCollection(c: Collection, t: nat, s: string)
    ensures Distances(RowsFor(c, t), s) != [] <==> exists i :: 0 <= i < |c.chunks| && c.chunks[i].source == s
  {
    var rows := RowsFor(c, t);
    DistancesMeanSource(rows, s);
    if s in Sources(rows) {
      var i :| 0 <= i < |rows| && rows[i].source == s;
      assert c.chunks[i].source == s;
    }
    if i :| 0 <= i < |c.chunks| && c.chunks[i].source == s {
      assert rows[i].source == s;
    }
  }

  /** The override: one aggregated distance per source and text, `1 - distance` in its cell. */
  method ComputeExact(c: Collection, texts: nat, sourceIds: seq<string>, aggregate: string) returns (matrix: array2<real>)
    ensures matrix.Length0 == texts && matrix.Length1 == |sourceIds|
    ensures forall t, j :: 0 <= t < texts && 0 <= j < |sourceIds| ==>
              && matrix[t, j] == ExactCell(RowsFor(c, t), sourceIds, j, aggregate)
              && CellMeans(c, t, sourceIds, j, aggregate, matrix[t, j])
  {
    hide Distances, RowsFor, Min, Mean, CellMeans;
    forall t, j | 0 <= t < texts && 0 <= j < |sourceIds|
      ensures CellMeans(c, t, sourceIds, j, aggregate, ExactCell(RowsFor(c, t), sourceIds, j, aggregate))
    {
      ExactCellMeans(c, t, sourceIds, j, aggregate);
    }
    matrix := new real[texts, |sourceIds|]((t, j) => 0.0);
    var column := ColumnIndex(sourceIds);
    var groups := set i | 0 <= i < |c.chunks| && c.chunks[i].source in sourceIds :: c.chunks[i].source;
    forall t, s | s in sourceIds ensures s in groups <==> Distances(RowsFor(c, t), s) != [] {
      SourcesOfCollection(c, t, s);
    }
    var todo := groups;
    while todo != {}
      invariant todo <= groups
      invariant forall t, j :: 0 <= t < texts && 0 <= j < |sourceIds| ==>
                  matrix[t, j] == if sourceIds[j] in todo then 0.0 else ExactCell(RowsFor(c, t), sourceIds, j, aggregate)
      decreases todo
    {
      var sid :| sid in todo;
      var col := column[sid];
      for u := 0 to texts
        invariant forall t, j :: 0 <= t < texts && 0 <= j < |sourceIds| ==>
                    matrix[t, j] ==
                    if sourceIds[j] in todo && !(j == col && t < u) then 0.0
                    else ExactCell(RowsFor(c, t), sourceIds, j, aggregate)
      {
        var distances := Distances(RowsFor(c, u), sid);
        var dist := if aggregate == "min" then Min(distances) else Mean(distances);
        matrix[u, col] := 1.0 - dist;
      }
      todo := todo - {sid};
    }
  }
}
