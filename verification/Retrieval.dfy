/**
 What the vector queries of rag/postgres.py compute over a set of rows, taking an exact
 scan and breaking ties of distance by id; the best-chunk-per-source query in particular.
 */
module Retrieval {
  import opened Sets
  import opened Sorting

  /** An indexed chunk and its distance to the query at hand. */
  datatype Row = Row(id: int, source: string, distance: real)

  ghost predicate Keyed(rows: seq<Row>) {
    forall i, j :: 0 <= i < j < |rows| ==> rows[i].id != rows[j].id
  }

  predicate Closer(a: Row, b: Row) {
    a.distance < b.distance || (a.distance == b.distance && a.id <= b.id)
  }

  /** ORDER BY distance ASC LIMIT n. */
  function Closest(rows: seq<Row>, n: nat): seq<Row> {
    Take(Sort(rows, Closer), n)
  }

  // ------------------------------------------------------------------ rows in order

  ghost predicate Ranked(rows: seq<Row>) {
    StrictlySorted(rows, Closer)
  }

  lemma SortRanks(rows: seq<Row>)
    requires Keyed(rows)
    ensures Ranked(Sort(rows, Closer)) && |Sort(rows, Closer)| == |rows|
    ensures forall e :: e in Sort(rows, Closer) <==> e in rows
  {
    SortStrictly(rows, Closer);
  }

  // ------------------------------------------------------------------ best per source

  /** DISTINCT ON (source) over rows already in order: the first row of each source. */
  function FirstPerSource(rows: seq<Row>, seen: set<string>): seq<Row> {
    if rows == [] then []
    else if rows[0].source in seen then FirstPerSource(rows[1..], seen)
    else [rows[0]] + FirstPerSource(rows[1..], seen + {rows[0].source})
  }

  function ScanLimit(topK: nat): nat {
    if topK * 10 > 100 then topK * 10 else 100
  }

  /** The query with keep_best: deduplicate a window, rank again, cut at top_k. */
  function KeepBest(rows: seq<Row>, topK: nat): seq<Row> {
    Take(Sort(FirstPerSource(Closest(rows, ScanLimit(topK)), {}), Closer), topK)
  }

  /** No row of the same source is closer. */
  predicate IsBest(rows: seq<Row>, r: Row) {
    forall i :: 0 <= i < |rows| && rows[i].source == r.source ==> Closer(r, rows[i])
  }

  function KeepIfBest(some: seq<Row>, all: seq<Row>): seq<Row> {
    if some == [] then [] else (if IsBest(all, some[0]) then [some[0]] else []) + KeepIfBest(some[1..], all)
  }

  /** What keep_best is meant to rank: each source's closest chunk among all rows. */
  function ExactRanking(rows: seq<Row>): seq<Row> {
    KeepIfBest(Sort(rows, Closer), rows)
  }

  function Sources(rows: seq<Row>): set<string> {
    set i | 0 <= i < |rows| :: rows[i].source
  }

  lemma SourcesOfParts(a: seq<Row>, b: seq<Row>)
    ensures Sources(a + b) == Sources(a) + Sources(b)
  {
    forall s ensures s in Sources(a + b) <==> s in Sources(a) + Sources(b) {
      if s in Sources(a) {
        var i :| 0 <= i < |a| && a[i].source == s;
        assert (a + b)[i].source == s;
      }
      if s in Sources(b) {
        var i :| 0 <= i < |b| && b[i].source == s;
        assert (a + b)[|a| + i].source == s;
      }
    }
  }

  lemma {:induction false} FirstPerSourceOfParts(a: seq<Row>, b: seq<Row>, seen: set<string>)
    ensures FirstPerSource(a + b, seen) == FirstPerSource(a, seen) + FirstPerSource(b, seen + Sources(a))
  {
    if a == [] {
      assert a + b == b && seen + Sources(a) == seen;
    } else {
      assert (a + b)[1..] == a[1..] + b;
      assert a == [a[0]] + a[1..];
      SourcesOfParts([a[0]], a[1..]);
      assert Sources([a[0]]) == {a[0].source} by { assert [a[0]][0].source == a[0].source; }
      if a[0].source in seen {
        FirstPerSourceOfParts(a[1..], b, seen);
        assert seen + Sources(a) == seen + Sources(a[1..]);
      } else {
        FirstPerSourceOfParts(a[1..], b, seen + {a[0].source});
        assert seen + Sources(a) == seen + {a[0].source} + Sources(a[1..]);
      }
    }
  }

  lemma {:induction false} OnePerSource(rows: seq<Row>, seen: set<string>)
    ensures |FirstPerSource(rows, seen)| == |Sources(rows) - seen|
  {
    if rows != [] {
      assert rows == [rows[0]] + rows[1..];
      SourcesOfParts([rows[0]], rows[1..]);
      assert Sources([rows[0]]) == {rows[0].source} by { assert [rows[0]][0].source == rows[0].source; }
      if rows[0].source in seen {
        OnePerSource(rows[1..], seen);
        assert Sources(rows) - seen == Sources(rows[1..]) - seen;
      } else {
        OnePerSource(rows[1..], seen + {rows[0].source});
        assert Sources(rows) - seen == (Sources(rows[1..]) - (seen + {rows[0].source})) + {rows[0].source};
      }
    } else {
      assert Sources(rows) == {};
    }
  }

  /** In a ranking, the first row of a source is its best. */
  lemma {:induction false} FirstIsBest(all: seq<Row>, k: nat)
    requires Ranked(all) && k <= |all|
    ensures FirstPerSource(all[k..], Sources(all[..k])) == KeepIfBest(all[k..], all)
    decreases |all| - k
  {
    if k < |all| {
      var r := all[k];
      FirstIsBest(all, k + 1);
      assert all[k..] == [r] + all[k + 1..];
      assert all[..k + 1] == all[..k] + [r];
      SourcesOfParts(all[..k], [r]);
      assert Sources([r]) == {r.source} by { assert [r][0].source == r.source; }
      if r.source in Sources(all[..k]) {
        var i :| 0 <= i < k && all[..k][i].source == r.source;
        assert all[i].source == r.source && !Closer(r, all[i]);
        assert !IsBest(all, r);
        assert Sources(all[..k + 1]) == Sources(all[..k]);
      } else {
        forall i | 0 <= i < k ensures all[i].source != r.source {
          assert all[..k][i] == all[i];
        }
        assert IsBest(all, r);
      }
    }
  }

  lemma {:induction false} SameMembersSameBest(some: seq<Row>, a: seq<Row>, b: seq<Row>)
    requires forall e :: e in a <==> e in b
    ensures KeepIfBest(some, a) == KeepIfBest(some, b)
  {
    if some != [] {
      SameMembersSameBest(some[1..], a, b);
      if IsBest(a, some[0]) {
        forall i | 0 <= i < |b| && b[i].source == some[0].source ensures Closer(some[0], b[i]) {
          assert b[i] in a;
        }
      }
      if IsBest(b, some[0]) {
        forall i | 0 <= i < |a| && a[i].source == some[0].source ensures Closer(some[0], a[i]) {
          assert a[i] in b;
        }
      }
    }
  }

  lemma ExactIsFirstPerSource(rows: seq<Row>)
    requires Keyed(rows)
    ensures ExactRanking(rows) == FirstPerSource(Sort(rows, Closer), {})
  {
    var sorted := Sort(rows, Closer);
    SortRanks(rows);
    FirstIsBest(sorted, 0);
    assert sorted[0..] == sorted && Sources(sorted[..0]) == {};
    SameMembersSameBest(sorted, sorted, rows);
  }

  lemma {:induction false} FirstPerSourceRanked(rows: seq<Row>, seen: set<string>)
    requires Ranked(rows)
    ensures Ranked(FirstPerSource(rows, seen))
    ensures forall e :: e in FirstPerSource(rows, seen) ==> e in rows
  {
    if rows != [] {
      var more := if rows[0].source in seen then seen else seen + {rows[0].source};
      FirstPerSourceRanked(rows[1..], more);
      var rest := FirstPerSource(rows[1..], more);
      forall j | 0 <= j < |rest| ensures Closer(rows[0], rest[j]) && !Closer(rest[j], rows[0]) {
        assert rest[j] in rows[1..];
        var k :| 0 <= k < |rows[1..]| && rows[1..][k] == rest[j];
        assert rows[k + 1] == rest[j];
      }
    }
  }

  /** Sorting what is in order changes nothing. */
  lemma {:induction false} SortOfRanked(rows: seq<Row>)
    requires Ranked(rows)
    ensures Sort(rows, Closer) == rows
  {
    if rows != [] {
      var front := rows[..|rows| - 1];
      SortOfRanked(front);
      InsertAtEnd(front, rows[|rows| - 1]);
      assert rows == front + [rows[|rows| - 1]];
    }
  }

  lemma {:induction false} InsertAtEnd(s: seq<Row>, x: Row)
    requires forall i :: 0 <= i < |s| ==> Closer(s[i], x)
    ensures Insert(s, x, Closer) == s + [x]
  {
    if s != [] {
      InsertAtEnd(s[1..], x);
    }
  }

  lemma RankedPrefix(rows: seq<Row>, n: nat)
    requires Ranked(rows)
    ensures Ranked(Take(rows, n))
  {
  }

  /** The window's best chunks are the exact ranking, cut at the number of sources in the window. */
  lemma KeepBestIsPrefix(rows: seq<Row>, topK: nat)
    requires Keyed(rows)
    ensures var found := |Sources(Closest(rows, ScanLimit(topK)))|;
            && found <= |ExactRanking(rows)|
            && KeepBest(rows, topK) == Take(ExactRanking(rows)[..found], topK)
  {
    var sorted := Sort(rows, Closer);
    var window := Closest(rows, ScanLimit(topK));
    SortRanks(rows);
    ExactIsFirstPerSource(rows);
    RankedPrefix(sorted, ScanLimit(topK));
    FirstPerSourceRanked(window, {});
    SortOfRanked(FirstPerSource(window, {}));
    OnePerSource(window, {});
    assert Sources(window) - {} == Sources(window);
    var rest := sorted[|window|..];
    assert sorted == window + rest;
    FirstPerSourceOfParts(window, rest, {});
  }

  lemma ExactRankingSize(rows: seq<Row>)
    requires Keyed(rows)
    ensures |ExactRanking(rows)| == |Sources(rows)|
  {
    ExactIsFirstPerSource(rows);
    OnePerSource(Sort(rows, Closer), {});
    SortRanks(rows);
    SameMembersSameSources(Sort(rows, Closer), rows);
    assert Sources(Sort(rows, Closer)) - {} == Sources(rows);
  }

  lemma SameMembersSameSources(a: seq<Row>, b: seq<Row>)
    requires forall e :: e in a <==> e in b
    ensures Sources(a) == Sources(b)
  {
    forall s ensures s in Sources(a) <==> s in Sources(b) {
      if s in Sources(a) {
        var i :| 0 <= i < |a| && a[i].source == s;
        assert a[i] in b;
      }
      if s in Sources(b) {
        var i :| 0 <= i < |b| && b[i].source == s;
        assert b[i] in a;
      }
    }
  }

  function Least(a: nat, b: nat): nat {
    if a < b then a else b
  }

  /** The answer is the true top_k exactly when the window shows enough sources. */
  lemma KeepBestExactIff(rows: seq<Row>, topK: nat)
    requires Keyed(rows)
    ensures KeepBest(rows, topK) == Take(ExactRanking(rows), topK) <==>
            |Sources(Closest(rows, ScanLimit(topK)))| >= Least(topK, |Sources(rows)|)
  {
    KeepBestIsPrefix(rows, topK);
    ExactRankingSize(rows);
  }

  // ------------------------------------------------------------------ the ranking in terms of distances

  lemma {:induction false} KeptAreBest(some: seq<Row>, all: seq<Row>)
    ensures forall r :: r in KeepIfBest(some, all) <==> r in some && IsBest(all, r)
  {
    if some != [] {
      KeptAreBest(some[1..], all);
      hide IsBest;
      assert some == [some[0]] + some[1..];
    }
  }

  lemma {:induction false} FirstPerSourceCovers(rows: seq<Row>, seen: set<string>, r: Row)
    requires r in rows && r.source !in seen
    ensures exists f :: f in FirstPerSource(rows, seen) && f.source == r.source
  {
    assert rows == [rows[0]] + rows[1..];
    if rows[0].source in seen {
      FirstPerSourceCovers(rows[1..], seen, r);
    } else if rows[0].source == r.source {
      assert rows[0] in FirstPerSource(rows, seen);
    } else {
      FirstPerSourceCovers(rows[1..], seen + {rows[0].source}, r);
    }
  }

  /** Rows of different sources in order of distance, equally distant ones in order of id. */
  ghost predicate InOrderOfDistance(ranking: seq<Row>) {
    forall i, j :: 0 <= i < j < |ranking| ==>
      && ranking[i].source != ranking[j].source
      && (ranking[i].distance < ranking[j].distance || (ranking[i].distance == ranking[j].distance && ranking[i].id < ranking[j].id))
  }

  /** The exact ranking lists for each source a row of it that none of its rows is closer than. */
  lemma ExactRankingMeans(rows: seq<Row>)
    requires Keyed(rows)
    ensures var ranking := ExactRanking(rows);
            && InOrderOfDistance(ranking)
            && (forall r :: r in ranking ==> r in rows)
            && (forall r, other :: r in ranking && other in rows && other.source == r.source ==> r.distance <= other.distance)
            && (forall r :: r in rows ==> exists f :: f in ranking && f.source == r.source)
  {
    var sorted := Sort(rows, Closer);
    SortRanks(rows);
    ExactIsFirstPerSource(rows);
    FirstPerSourceRanked(sorted, {});
    KeptAreBest(sorted, rows);
    var ranking := ExactRanking(rows);
    BestAreClosest(rows, ranking);
    forall r | r in rows ensures exists f :: f in ranking && f.source == r.source {
      FirstPerSourceCovers(sorted, {}, r);
    }
  }

  lemma BestAreClosest(rows: seq<Row>, ranking: seq<Row>)
    requires Ranked(ranking) && forall r :: r in ranking ==> r in rows && IsBest(rows, r)
    ensures InOrderOfDistance(ranking)
    ensures forall r, other :: r in ranking && other in rows && other.source == r.source ==> r.distance <= other.distance
  {
    forall r, other | r in ranking && other in rows && other.source == r.source ensures Closer(r, other) {
      assert IsBest(rows, r);
    }
    forall i, j | 0 <= i < j < |ranking| ensures Closer(ranking[i], ranking[j]) && ranking[i].source != ranking[j].source {
      assert ranking[i] in ranking && ranking[j] in ranking;
      assert !Closer(ranking[j], ranking[i]);
    }
  }

  // ------------------------------------------------------------------ the pigeonhole behind the window's width

  function Count(rows: seq<Row>, s: string): nat {
    if rows == [] then 0 else (if rows[0].source == s then 1 else 0) + Count(rows[1..], s)
  }

  function Without(rows: seq<Row>, s: string): seq<Row> {
    if rows == [] then [] else (if rows[0].source == s then [] else [rows[0]]) + Without(rows[1..], s)
  }

  lemma {:induction false} CountOfParts(a: seq<Row>, b: seq<Row>, s: string)
    ensures Count(a + b, s) == Count(a, s) + Count(b, s)
  {
    if a == [] {
      assert a + b == b;
    } else {
      CountOfParts(a[1..], b, s);
      assert (a + b)[1..] == a[1..] + b;
    }
  }

  lemma {:induction false} InsertCounts(rows: seq<Row>, x: Row, s: string)
    ensures Count(Insert(rows, x, Closer), s) == Count(rows, s) + (if x.source == s then 1 else 0)
  {
    if rows != [] && Closer(rows[0], x) {
      InsertCounts(rows[1..], x, s);
    }
  }

  lemma {:induction false} SortCounts(rows: seq<Row>, s: string)
    ensures Count(Sort(rows, Closer), s) == Count(rows, s)
  {
    if rows != [] {
      var front := rows[..|rows| - 1];
      var x := rows[|rows| - 1];
      SortCounts(front, s);
      InsertCounts(Sort(front, Closer), x, s);
      assert rows == front + [x];
      CountOfParts(front, [x], s);
    }
  }

  lemma {:induction false} WithoutCounts(rows: seq<Row>, s: string)
    ensures |Without(rows, s)| + Count(rows, s) == |rows|
    ensures forall t :: t != s ==> Count(Without(rows, s), t) == Count(rows, t)
    ensures Sources(Without(rows, s)) == Sources(rows) - {s}
  {
    if rows != [] {
      WithoutCounts(rows[1..], s);
      assert rows == [rows[0]] + rows[1..];
      SourcesOfParts([rows[0]], rows[1..]);
      assert Sources([rows[0]]) == {rows[0].source} by { assert [rows[0]][0].source == rows[0].source; }
      if rows[0].source == s {
        assert [] + Without(rows[1..], s) == Without(rows[1..], s);
      } else {
        var rest := Without(rows[1..], s);
        SourcesOfParts([rows[0]], rest);
        assert ([rows[0]] + rest)[1..] == rest;
      }
    }
  }

  lemma FirstHasSource(rows: seq<Row>)
    ensures rows != [] ==> rows[0].source in Sources(rows)
  {
  }

  /** Pigeonhole: rows of few sources with few rows each are few. */
  lemma {:induction false} FewPerSource(rows: seq<Row>, sources: set<string>, each: nat)
    requires Sources(rows) <= sources && forall s :: Count(rows, s) <= each
    ensures |rows| <= each * |sources|
    decreases |sources|
  {
    if sources == {} {
      FirstHasSource(rows);
    } else {
      var s :| s in sources;
      WithoutCounts(rows, s);
      forall t ensures Count(Without(rows, s), t) <= each {
        if t == s {
          CountOfAbsent(Without(rows, s), s);
        }
      }
      FewPerSource(Without(rows, s), sources - {s}, each);
      assert each * |sources| == each * |sources - {s}| + each;
    }
  }

  lemma {:induction false} CountOfAbsent(rows: seq<Row>, s: string)
    requires s !in Sources(rows)
    ensures Count(rows, s) == 0
  {
    if rows != [] {
      assert rows[0].source in Sources(rows);
      assert rows == [rows[0]] + rows[1..];
      SourcesOfParts([rows[0]], rows[1..]);
      CountOfAbsent(rows[1..], s);
    }
  }

  ghost predicate AtMostPerSource(rows: seq<Row>, each: nat) {
    forall s :: Count(rows, s) <= each
  }

  lemma WindowKeepsBound(rows: seq<Row>, limit: nat, each: nat)
    requires AtMostPerSource(rows, each)
    ensures AtMostPerSource(Closest(rows, limit), each)
  {
    var sorted := Sort(rows, Closer);
    var window := Closest(rows, limit);
    forall s ensures Count(window, s) <= each {
      SortCounts(rows, s);
      assert sorted == window + sorted[|window|..];
      CountOfParts(window, sorted[|window|..], s);
    }
  }

  lemma WindowHoldsAll(rows: seq<Row>, limit: nat)
    requires Keyed(rows)
    ensures |Closest(rows, limit)| == if |rows| <= limit then |rows| else limit
    ensures |rows| <= limit ==> Sources(Closest(rows, limit)) == Sources(rows)
  {
    SortRanks(rows);
    if |rows| <= limit {
      SameMembersSameSources(Closest(rows, limit), rows);
    }
  }

  /** Fewer rows than the window holds, in all sources but one of the top_k: then the window shows enough. */
  lemma FewEnoughIsExact(rows: seq<Row>, topK: nat, each: nat)
    requires Keyed(rows) && AtMostPerSource(rows, each)
    requires topK == 0 || each * (topK - 1) < ScanLimit(topK)
    ensures KeepBest(rows, topK) == Take(ExactRanking(rows), topK)
  {
    hide KeepBest, ExactRanking, Keyed, Closest, Sources, Count;
    var limit := ScanLimit(topK);
    var window := Closest(rows, limit);
    KeepBestExactIff(rows, topK);
    WindowHoldsAll(rows, limit);
    if |rows| > limit {
      WindowKeepsBound(rows, limit, each);
      FewPerSource(window, Sources(window), each);
      TimesAtMost(each, |Sources(window)|, topK - 1);
    }
  }

  lemma TimesAtMost(a: nat, b: int, c: int)
    ensures b <= c ==> a * b <= a * c
  {
  }

  /** keep_best is exact whenever no source has more than ten matching rows. */
  lemma TenPerSourceIsExact(rows: seq<Row>, topK: nat)
    requires Keyed(rows) && AtMostPerSource(rows, 10)
    ensures KeepBest(rows, topK) == Take(ExactRanking(rows), topK)
  {
    FewEnoughIsExact(rows, topK, 10);
  }

  // ------------------------------------------------------------------ the bound cannot be improved

  ghost function SourceName(j: nat): (s: string)
    ensures |s| == j
  {
    seq(j, _ => 'x')
  }

  ghost function SourceNames(k: nat): set<string> {
    set j | 0 <= j < k :: SourceName(j)
  }

  lemma {:induction false} SourceNamesCount(k: nat)
    ensures |SourceNames(k)| == k
  {
    if k > 0 {
      SourceNamesCount(k - 1);
      assert SourceNames(k) == SourceNames(k - 1) + {SourceName(k - 1)};
    }
  }

  /** n rows in order of distance; each source has the next `each` of them. */
  ghost function Crowd(each: nat, n: nat): seq<Row>
    requires each > 0
  {
    seq(n, i requires 0 <= i < n => Row(i, SourceName(i / each), i as real))
  }

  lemma {:induction false} CrowdCounts(each: nat, n: nat, s: string)
    requires each > 0
    ensures Count(Crowd(each, n), s) <= each
    ensures Count(Crowd(each, n), s) == 0 || Count(Crowd(each, n), s) <= n - |s| * each
  {
    if n > 0 {
      CrowdCounts(each, n - 1, s);
      var last := Crowd(each, n)[n - 1];
      assert Crowd(each, n) == Crowd(each, n - 1) + [last];
      CountOfParts(Crowd(each, n - 1), [last], s);
      if last.source == s {
        var j := (n - 1) / each;
        assert j == |s| && j * each <= n - 1 < j * each + each;
      }
    }
  }

  lemma CrowdIsRanked(each: nat, n: nat)
    requires each > 0
    ensures Keyed(Crowd(each, n)) && Ranked(Crowd(each, n))
  {
  }

  lemma CrowdWindow(each: nat, n: nat, limit: nat)
    requires each > 0 && limit <= n
    ensures Closest(Crowd(each, n), limit) == Crowd(each, limit)
  {
    CrowdIsRanked(each, n);
    SortOfRanked(Crowd(each, n));
  }

  lemma QuotientBelow(i: nat, each: nat, k: nat)
    requires each > 0 && i < each * k
    ensures i / each < k
  {
    if k <= i / each {
      TimesAtMost(each, k, i / each);
    }
  }

  lemma QuotientOfMultiple(j: nat, each: nat)
    requires each > 0
    ensures (each * j) / each == j
  {
    var q := (each * j) / each;
    assert each * q <= each * j < each * q + each;
    assert each * (q + 1) == each * q + each && each * (j + 1) == each * j + each;
    if q < j {
      TimesAtMost(each, q + 1, j);
    } else if j < q {
      TimesAtMost(each, j + 1, q);
    }
  }

  lemma CrowdSources(each: nat, n: nat, k: nat)
    requires each > 0 && n <= each * k
    ensures Sources(Crowd(each, n)) <= SourceNames(k)
    ensures k > 0 && each * (k - 1) < n ==> Sources(Crowd(each, n)) == SourceNames(k)
  {
    var rows := Crowd(each, n);
    forall i | 0 <= i < n ensures rows[i].source in SourceNames(k) {
      QuotientBelow(i, each, k);
    }
    if k > 0 && each * (k - 1) < n {
      forall j | 0 <= j < k ensures SourceName(j) in Sources(rows) {
        TimesAtMost(each, j, k - 1);
        QuotientOfMultiple(j, each);
        assert rows[each * j].source == SourceName(j);
      }
    }
  }

  /** A window filled by all but one of the top_k sources misses that one. */
  lemma CrowdIsMissed(each: nat, topK: nat)
    requires topK > 0 && each * (topK - 1) >= ScanLimit(topK)
    ensures each > 0
    ensures var rows := Crowd(each, each * (topK - 1) + 1);
            && Keyed(rows) && AtMostPerSource(rows, each)
            && KeepBest(rows, topK) != Take(ExactRanking(rows), topK)
  {
    hide KeepBest, ExactRanking, Closest, Sources, SourceNames, Keyed, Crowd, Count;
    var n := each * (topK - 1) + 1;
    var rows := Crowd(each, n);
    CrowdIsRanked(each, n);
    forall s ensures Count(rows, s) <= each {
      CrowdCounts(each, n, s);
    }
    var limit := ScanLimit(topK);
    CrowdWindow(each, n, limit);
    CrowdSources(each, limit, topK - 1);
    assert each * topK == each * (topK - 1) + each;
    CrowdSources(each, n, topK);
    SourceNamesCount(topK - 1);
    SourceNamesCount(topK);
    SubsetSize(Sources(Crowd(each, limit)), SourceNames(topK - 1));
    KeepBestExactIff(rows, topK);
  }

  /** So keep_best is exact for every table of at most `each` rows a source exactly below this bound. */
  lemma ExactForAllTablesIff(topK: nat, each: nat)
    ensures (forall rows :: Keyed(rows) && AtMostPerSource(rows, each) ==> KeepBest(rows, topK) == Take(ExactRanking(rows), topK))
            <==> topK == 0 || each * (topK - 1) < 10 * topK || each * (topK - 1) < 100
  {
    if topK == 0 || each * (topK - 1) < ScanLimit(topK) {
      forall rows | Keyed(rows) && AtMostPerSource(rows, each)
        ensures KeepBest(rows, topK) == Take(ExactRanking(rows), topK)
      {
        FewEnoughIsExact(rows, topK, each);
      }
    } else {
      CrowdIsMissed(each, topK);
    }
  }
}
