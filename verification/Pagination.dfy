/** Keyset pagination over a table that may change between batches (rag/postgres.py, `iter_entries`). */
module Pagination {
  import opened Wrappers
  import opened Sorting

  datatype Entry = Entry(id: int, content: string)

  /** A table at one moment, its rows in any order. */
  type Table = seq<Entry>

  /** `id` is the primary key. */
  ghost predicate Keyed(table: Table) {
    forall i, j :: 0 <= i < j < |table| ==> table[i].id != table[j].id
  }

  predicate ById(a: Entry, b: Entry) {
    a.id <= b.id
  }

  /** WHERE id > last, if there is a last. */
  function Beyond(rows: seq<Entry>, last: Option<int>): seq<Entry> {
    if rows == [] then []
    else (if last.None? || rows[0].id > last.value then [rows[0]] else []) + Beyond(rows[1..], last)
  }

  /** All entries beyond `last`, in order of their id. */
  function Scan(table: Table, last: Option<int>): seq<Entry> {
    Beyond(Sort(table, ById), last)
  }

  /** The query of one batch. */
  function Page(table: Table, last: Option<int>, batchSize: nat): seq<Entry> {
    Take(Scan(table, last), batchSize)
  }

  datatype Scanned = Scanned(entries: seq<Entry>, batches: nat, finished: bool)

  /** The whole iteration, batch k reading snapshots[k]; it ends early if the snapshots run out. */
  function Iterate(snapshots: seq<Table>, last: Option<int>, batchSize: nat): Scanned {
    if snapshots == [] then Scanned([], 0, false)
    else
      var page := Page(snapshots[0], last, batchSize);
      if page == [] then Scanned([], 1, true)
      else
        var rest := Iterate(snapshots[1..], Some(page[|page| - 1].id), batchSize);
        Scanned(page + rest.entries, rest.batches + 1, rest.finished)
  }

  // ------------------------------------------------------------------ one scan

  ghost predicate Increasing(entries: seq<Entry>) {
    forall i, j :: 0 <= i < j < |entries| ==> entries[i].id < entries[j].id
  }

  ghost predicate IsBeyond(entries: seq<Entry>, last: Option<int>) {
    last.Some? ==> forall i :: 0 <= i < |entries| ==> last.value < entries[i].id
  }

  lemma SortIncreases(table: Table)
    requires Keyed(table)
    ensures Increasing(Sort(table, ById))
    ensures forall e :: e in Sort(table, ById) <==> e in table
  {
    SortStrictly(table, ById);
  }

  lemma {:induction false} AllBeyond(rows: seq<Entry>, last: Option<int>)
    requires IsBeyond(rows, last)
    ensures Beyond(rows, last) == rows
  {
    if rows != [] {
      AllBeyond(rows[1..], last);
      assert rows == [rows[0]] + rows[1..];
    }
  }

  /** Of rows in order, those beyond an id are a final stretch. */
  lemma {:induction false} BeyondIsSuffix(rows: seq<Entry>, last: Option<int>) returns (k: nat)
    requires Increasing(rows)
    ensures k <= |rows| && Beyond(rows, last) == rows[k..]
    ensures forall i :: 0 <= i < k ==> last.Some? && rows[i].id <= last.value
    ensures IsBeyond(rows[k..], last)
  {
    if rows == [] || last.None? || rows[0].id > last.value {
      k := 0;
      AllBeyond(rows, last);
    } else {
      var l := BeyondIsSuffix(rows[1..], last);
      k := l + 1;
      assert rows[1..][l..] == rows[k..];
      forall i | 0 < i < k ensures rows[i].id <= last.value {
        assert rows[i] == rows[1..][i - 1];
      }
    }
  }

  /** What a scan holds. */
  lemma ScanHolds(table: Table, last: Option<int>)
    requires Keyed(table)
    ensures Increasing(Scan(table, last)) && IsBeyond(Scan(table, last), last)
    ensures forall e :: e in Scan(table, last) <==> e in table && (last.Some? ==> last.value < e.id)
  {
    SortIncreases(table);
    var rows := Sort(table, ById);
    var k := BeyondIsSuffix(rows, last);
    forall e | e in table && (last.Some? ==> last.value < e.id) ensures e in Scan(table, last) {
      assert e in rows;
      var i :| 0 <= i < |rows| && rows[i] == e;
      assert rows[k..][i - k] == e;
    }
  }

  lemma BeyondContinues(rows: seq<Entry>, last: Option<int>, n: nat)
    requires Increasing(rows) && 0 < n <= |Beyond(rows, last)|
    ensures Beyond(rows, last)[n..] == Beyond(rows, Some(Beyond(rows, last)[n - 1].id))
  {
    hide Beyond;
    var k := BeyondIsSuffix(rows, last);
    var m := k + n - 1;
    var l := BeyondIsSuffix(rows, Some(rows[m].id));
    forall i | l <= i < |rows| ensures rows[m].id < rows[i].id {
      assert rows[l..][i - l] == rows[i];
    }
    assert m + 1 < |rows| ==> rows[m].id < rows[m + 1].id;
    assert l == m + 1;
    assert rows[k..][n..] == rows[l..];
  }

  /** A page is as long as it may be, and the beginning of the scan. */
  lemma PageIsFull(table: Table, last: Option<int>, batchSize: nat)
    ensures var (page, scan) := (Page(table, last, batchSize), Scan(table, last));
            page == scan[..|page|] && |page| == if batchSize < |scan| then batchSize else |scan|
  {
  }

  /** What follows a page is the scan from the page's last id. */
  lemma ScanContinues(table: Table, last: Option<int>, n: nat)
    requires Keyed(table) && 0 < n <= |Scan(table, last)|
    ensures Scan(table, last)[n..] == Scan(table, Some(Scan(table, last)[n - 1].id))
  {
    SortIncreases(table);
    hide Beyond, Sort, Increasing;
    BeyondContinues(Sort(table, ById), last, n);
  }

  // ------------------------------------------------------------------ order

  lemma {:induction false} EntriesIncrease(snapshots: seq<Table>, last: Option<int>, batchSize: nat)
    requires forall k :: 0 <= k < |snapshots| ==> Keyed(snapshots[k])
    ensures Increasing(Iterate(snapshots, last, batchSize).entries)
    ensures IsBeyond(Iterate(snapshots, last, batchSize).entries, last)
  {
    if snapshots != [] {
      var page := Page(snapshots[0], last, batchSize);
      ScanHolds(snapshots[0], last);
      hide Scan, Keyed;
      if page != [] {
        var next := Some(page[|page| - 1].id);
        EntriesIncrease(snapshots[1..], next, batchSize);
        PagesIncrease(page, Iterate(snapshots[1..], next, batchSize).entries, last);
      }
    }
  }

  lemma PagesIncrease(page: seq<Entry>, rest: seq<Entry>, last: Option<int>)
    requires page != [] && Increasing(page) && IsBeyond(page, last)
    requires Increasing(rest) && IsBeyond(rest, Some(page[|page| - 1].id))
    ensures Increasing(page + rest) && IsBeyond(page + rest, last)
  {
  }

  // ------------------------------------------------------------------ completeness under change

  /** Every entry comes from a batch's snapshot. */
  lemma {:induction false} EntriesWereThere(snapshots: seq<Table>, last: Option<int>, batchSize: nat, e: Entry)
    requires forall k :: 0 <= k < |snapshots| ==> Keyed(snapshots[k])
    requires e in Iterate(snapshots, last, batchSize).entries
    ensures exists k :: 0 <= k < Iterate(snapshots, last, batchSize).batches && k < |snapshots| && e in snapshots[k]
  {
    var page := Page(snapshots[0], last, batchSize);
    ScanHolds(snapshots[0], last);
    hide Scan, Keyed;
    if e in page {
      assert e in Scan(snapshots[0], last);
    } else {
      var next := Some(page[|page| - 1].id);
      EntriesWereThere(snapshots[1..], next, batchSize, e);
      var k :| 0 <= k < Iterate(snapshots[1..], next, batchSize).batches && k < |snapshots[1..]| && e in snapshots[1..][k];
      assert snapshots[k + 1] == snapshots[1..][k];
    }
  }

  ghost predicate HasId(entries: seq<Entry>, id: int) {
    exists i :: 0 <= i < |entries| && entries[i].id == id
  }

  /** A row of the scan is in the page or lies beyond it. */
  lemma InPageOrBeyond(table: Table, last: Option<int>, batchSize: nat, id: int)
    requires Keyed(table) && batchSize >= 1 && HasId(table, id) && (last.Some? ==> last.value < id)
    ensures var page := Page(table, last, batchSize);
            page != [] && (HasId(page, id) || page[|page| - 1].id < id)
  {
    ScanHolds(table, last);
    hide Scan, Keyed;
    var scan := Scan(table, last);
    var j :| 0 <= j < |table| && table[j].id == id;
    assert table[j] in scan;
    var i :| 0 <= i < |scan| && scan[i] == table[j];
    var page := Page(table, last, batchSize);
    if i < |page| {
      assert page[i].id == id;
    }
  }

  lemma HasIdOfParts(a: seq<Entry>, b: seq<Entry>, id: int)
    ensures HasId(a + b, id) <==> HasId(a, id) || HasId(b, id)
  {
    forall i | 0 <= i < |a| ensures (a + b)[i] == a[i] {}
    forall i | 0 <= i < |b| ensures (a + b)[|a| + i] == b[i] {}
  }

  /** What a finished iteration is made of. */
  lemma FirstPage(snapshots: seq<Table>, last: Option<int>, batchSize: nat)
    requires Iterate(snapshots, last, batchSize).finished
    ensures snapshots != []
    ensures var (all, page) := (Iterate(snapshots, last, batchSize), Page(snapshots[0], last, batchSize));
            page != [] ==>
              var rest := Iterate(snapshots[1..], Some(page[|page| - 1].id), batchSize);
              all.entries == page + rest.entries && all.batches == rest.batches + 1 && rest.finished
    ensures Iterate(snapshots, last, batchSize).batches > 0
  {
  }

  /** A row that is there for every batch is never missed, whatever is inserted or deleted meanwhile. */
  lemma {:induction false} NothingMissed(snapshots: seq<Table>, last: Option<int>, batchSize: nat, id: int)
    requires forall k :: 0 <= k < |snapshots| ==> Keyed(snapshots[k])
    requires batchSize >= 1 && Iterate(snapshots, last, batchSize).finished
    requires last.Some? ==> last.value < id
    requires forall k :: 0 <= k < Iterate(snapshots, last, batchSize).batches && k < |snapshots| ==> HasId(snapshots[k], id)
    ensures HasId(Iterate(snapshots, last, batchSize).entries, id)
  {
    hide Iterate, Page, Keyed, HasId;
    FirstPage(snapshots, last, batchSize);
    var page := Page(snapshots[0], last, batchSize);
    InPageOrBeyond(snapshots[0], last, batchSize, id);
    var next := Some(page[|page| - 1].id);
    var rest := Iterate(snapshots[1..], next, batchSize);
    HasIdOfParts(page, rest.entries, id);
    if !HasId(page, id) {
      forall k | 0 <= k < rest.batches && k < |snapshots[1..]| ensures HasId(snapshots[1..][k], id) {
        assert snapshots[k + 1] == snapshots[1..][k];
      }
      NothingMissed(snapshots[1..], next, batchSize, id);
    }
  }

  // ------------------------------------------------------------------ a table that does not change

  ghost predicate Unchanging(snapshots: seq<Table>, table: Table) {
    forall k :: 0 <= k < |snapshots| ==> snapshots[k] == table
  }

  /** Page by page is the same as one sorted scan, for every batch size but 0, and the iteration ends. */
  lemma {:induction false} PagesEqualScan(snapshots: seq<Table>, table: Table, last: Option<int>, batchSize: nat)
    requires Keyed(table) && Unchanging(snapshots, table) && |snapshots| > |Scan(table, last)|
    ensures Iterate(snapshots, last, batchSize).finished
    ensures Iterate(snapshots, last, batchSize).entries == Scan(table, last) <==> batchSize >= 1 || Scan(table, last) == []
    decreases |snapshots|
  {
    hide Scan, Keyed;
    var scan := Scan(table, last);
    var page := Page(snapshots[0], last, batchSize);
    if page != [] {
      ScanContinues(table, last, |page|);
      assert Unchanging(snapshots[1..], table);
      PagesEqualScan(snapshots[1..], table, Some(page[|page| - 1].id), batchSize);
      assert scan == page + scan[|page|..];
    }
  }

  // ------------------------------------------------------------------ the code

  method IterEntries(snapshots: seq<Table>, batchSize: nat) returns (entries: seq<Entry>, finished: bool)
    requires forall k :: 0 <= k < |snapshots| ==> Keyed(snapshots[k])
    ensures var all := Iterate(snapshots, None, batchSize); entries == all.entries && finished == all.finished
    ensures Increasing(entries)
  {
    EntriesIncrease(snapshots, None, batchSize);
    hide Keyed, Page, Increasing;
    ghost var all := Iterate(snapshots, None, batchSize);
    entries, finished := [], false;
    var lastId: Option<int> := None;
    for k := 0 to |snapshots|
      invariant !finished
      invariant var rest := Iterate(snapshots[k..], lastId, batchSize);
                all.entries == entries + rest.entries && all.finished == rest.finished
    {
      var rows := Page(snapshots[k], lastId, batchSize);
      assert snapshots[k..][1..] == snapshots[k + 1..];
      if rows == [] {
        finished := true;
        return;
      }
      ghost var rest := Iterate(snapshots[k + 1..], Some(rows[|rows| - 1].id), batchSize);
      assert entries + (rows + rest.entries) == (entries + rows) + rest.entries;
      entries := entries + rows;
      lastId := Some(rows[|rows| - 1].id);
    }
  }
}
