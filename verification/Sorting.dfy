/** Stable sorting of a sequence by a total preorder. */
module Sorting {

  /** LIMIT n. */
  function Take<T>(s: seq<T>, n: nat): seq<T> {
    if n <= |s| then s[..n] else s
  }

  ghost predicate TotalPreorder<T(!new)>(leq: (T, T) -> bool) {
    && (forall a, b :: leq(a, b) || leq(b, a))
    && (forall a, b, c :: leq(a, b) && leq(b, c) ==> leq(a, c))
  }

  ghost predicate Sorted<T>(s: seq<T>, leq: (T, T) -> bool) {
    forall i, j :: 0 <= i < j < |s| ==> leq(s[i], s[j])
  }

  /** Puts x behind everything that is not above it. */
  function Insert<T>(s: seq<T>, x: T, leq: (T, T) -> bool): seq<T> {
    if s == [] then [x]
    else if leq(s[0], x) then [s[0]] + Insert(s[1..], x, leq)
    else [x] + s
  }

  /** A stable sort: equal elements keep their order. */
  function Sort<T>(s: seq<T>, leq: (T, T) -> bool): seq<T> {
    if s == [] then [] else Insert(Sort(s[..|s| - 1], leq), s[|s| - 1], leq)
  }

  lemma {:induction false} InsertKeepsElements<T>(s: seq<T>, x: T, leq: (T, T) -> bool)
    ensures multiset(Insert(s, x, leq)) == multiset(s) + multiset{x}
  {
    if s != [] {
      InsertKeepsElements(s[1..], x, leq);
      assert s == [s[0]] + s[1..];
    }
  }

  lemma {:induction false} SortKeepsElements<T>(s: seq<T>, leq: (T, T) -> bool)
    ensures multiset(Sort(s, leq)) == multiset(s)
  {
    if s != [] {
      var front := s[..|s| - 1];
      SortKeepsElements(front, leq);
      InsertKeepsElements(Sort(front, leq), s[|s| - 1], leq);
      assert s == front + [s[|s| - 1]];
    }
  }

  lemma {:induction false} InsertSorts<T(!new)>(s: seq<T>, x: T, leq: (T, T) -> bool)
    requires TotalPreorder(leq) && Sorted(s, leq)
    ensures Sorted(Insert(s, x, leq), leq)
  {
    if s != [] && leq(s[0], x) {
      InsertSorts(s[1..], x, leq);
      InsertKeepsElements(s[1..], x, leq);
      var t := Insert(s[1..], x, leq);
      forall j | 0 <= j < |t| ensures leq(s[0], t[j]) {
        assert t[j] in multiset(t);
        if t[j] != x {
          assert t[j] in s[1..];
        }
      }
    }
  }

  lemma {:induction false} SortSorts<T(!new)>(s: seq<T>, leq: (T, T) -> bool)
    requires TotalPreorder(leq)
    ensures Sorted(Sort(s, leq), leq)
  {
    if s != [] {
      SortSorts(s[..|s| - 1], leq);
      InsertSorts(Sort(s[..|s| - 1], leq), s[|s| - 1], leq);
    }
  }

  lemma SortMembers<T>(s: seq<T>, leq: (T, T) -> bool)
    ensures |Sort(s, leq)| == |s|
    ensures forall x :: x in Sort(s, leq) <==> x in s
  {
    SortKeepsElements(s, leq);
    assert |multiset(s)| == |multiset(Sort(s, leq))|;
    forall x ensures x in Sort(s, leq) <==> x in s {
      assert x in multiset(s) <==> x in multiset(Sort(s, leq));
    }
  }

  // ------------------------------------------------------------------ sorting without ties

  ghost predicate StrictlySorted<T>(s: seq<T>, leq: (T, T) -> bool) {
    forall i, j :: 0 <= i < j < |s| ==> leq(s[i], s[j]) && !leq(s[j], s[i])
  }

  ghost predicate NoTies<T>(s: seq<T>, leq: (T, T) -> bool) {
    forall i, j :: 0 <= i < j < |s| ==> !(leq(s[i], s[j]) && leq(s[j], s[i]))
  }

  lemma {:induction false} InsertStrictly<T(!new)>(s: seq<T>, x: T, leq: (T, T) -> bool)
    requires TotalPreorder(leq) && StrictlySorted(s, leq)
    requires forall i :: 0 <= i < |s| ==> !(leq(s[i], x) && leq(x, s[i]))
    ensures StrictlySorted(Insert(s, x, leq), leq)
    ensures forall e :: e in Insert(s, x, leq) <==> e in s || e == x
    ensures |Insert(s, x, leq)| == |s| + 1
  {
    if s != [] {
      assert s == [s[0]] + s[1..];
      if leq(s[0], x) {
        InsertStrictly(s[1..], x, leq);
        var t := Insert(s[1..], x, leq);
        forall j | 0 <= j < |t| ensures leq(s[0], t[j]) && !leq(t[j], s[0]) {
          assert t[j] in t;
        }
      }
    }
  }

  lemma {:induction false} SortStrictly<T(!new)>(s: seq<T>, leq: (T, T) -> bool)
    requires TotalPreorder(leq) && NoTies(s, leq)
    ensures StrictlySorted(Sort(s, leq), leq) && |Sort(s, leq)| == |s|
    ensures forall e :: e in Sort(s, leq) <==> e in s
  {
    if s != [] {
      var (front, x) := (s[..|s| - 1], s[|s| - 1]);
      SortStrictly(front, leq);
      assert s == front + [x];
      var sorted := Sort(front, leq);
      forall i | 0 <= i < |sorted| ensures !(leq(sorted[i], x) && leq(x, sorted[i])) {
        assert sorted[i] in front;
      }
      InsertStrictly(sorted, x, leq);
    }
  }
}
