/** Dotted paths into nested data, and searching for a key (resolvers.py). */
module Resolvers {
  import opened Strings

  /** Data as it comes from JSON; None is Python's None. Dictionaries keep their order. */
  datatype Value =
    | None
    | Bool(b: bool)
    | Number(n: real)
    | Text(s: string)
    | List(items: seq<Value>)
    | Tuple(items: seq<Value>)
    | Dict(entries: seq<Entry>)

  datatype Entry = Entry(key: string, value: Value)

  predicate Has(entries: seq<Entry>, key: string) {
    exists i :: 0 <= i < |entries| && entries[i].key == key
  }

  function Get(entries: seq<Entry>, key: string): Value
    requires Has(entries, key)
  {
    if entries[0].key == key then entries[0].value
    else
      assert Has(entries[1..], key) by {
        var i :| 0 <= i < |entries| && entries[i].key == key;
        assert entries[1..][i - 1].key == key;
      }
      Get(entries[1..], key)
  }

  /** `len`, or None where that raises. */
  function Length(v: Value): Value {
    match v
    case Text(s) => Number(|s| as real)
    case List(items) => Number(|items| as real)
    case Tuple(items) => Number(|items| as real)
    case Dict(entries) => Number(|entries| as real)
    case _ => None
  }

  /** One segment other than "length". */
  function Enter(cur: Value, part: string): Value {
    match cur
    case List(items) => if IsDigits(part) && ToNat(part) < |items| then items[ToNat(part)] else None
    case Tuple(items) => if IsDigits(part) && ToNat(part) < |items| then items[ToNat(part)] else None
    case Dict(entries) => if Has(entries, part) then Get(entries, part) else None
    case _ => None
  }

  function ResolveParts(cur: Value, parts: seq<string>): Value
    decreases |parts|
  {
    if parts == [] then cur
    else if cur.None? then None
    else if parts[0] == "length" then Length(cur)
    else ResolveParts(Enter(cur, parts[0]), parts[1..])
  }

  function ResolvePath(obj: Value, path: string): Value {
    if path == "" then obj else ResolveParts(obj, Split(path, '.'))
  }

  /** The loop of `resolve_path`. */
  method WalkPath(obj: Value, path: string) returns (found: Value)
    ensures found == ResolvePath(obj, path)
  {
    if path == "" {
      return obj;
    }
    var parts := Split(path, '.');
    var cur := obj;
    for i := 0 to |parts|
      invariant ResolveParts(cur, parts[i..]) == ResolvePath(obj, path)
    {
      var part := parts[i];
      if cur.None? {
        return None;
      }
      if part == "length" {
        return Length(cur);
      }
      assert parts[i..][1..] == parts[i + 1..];
      cur := Enter(cur, part);
    }
    return cur;
  }

  // ------------------------------------------------------------------ paths of one segment

  /** Entry i is the first with the key; a dictionary's keys being different, the only one. */
  ghost predicate IsEntryOf(entries: seq<Entry>, key: string, i: nat) {
    i < |entries| && entries[i].key == key && forall j :: 0 <= j < i ==> entries[j].key != key
  }

  lemma {:induction false} GetsEntry(entries: seq<Entry>, key: string, i: nat)
    requires IsEntryOf(entries, key, i)
    ensures Has(entries, key) && Get(entries, key) == entries[i].value
  {
    assert Has(entries, key);
    if i > 0 {
      assert forall j :: 0 <= j < |entries| - 1 ==> entries[1..][j] == entries[j + 1];
      GetsEntry(entries[1..], key, i - 1);
    }
  }

  /** What a single segment leads to: an entry by its key, an element by its number, and nothing anywhere else. */
  ghost predicate LeadsTo(cur: Value, part: string, found: Value) {
    match cur
    case Dict(entries) =>
      && (forall i: nat :: IsEntryOf(entries, part, i) ==> found == entries[i].value)
      && ((forall i :: 0 <= i < |entries| ==> entries[i].key != part) ==> found == None)
    case List(items) => IsElement(items, part, found)
    case Tuple(items) => IsElement(items, part, found)
    case _ => found == None
  }

  lemma EnterLeadsTo(cur: Value, part: string)
    ensures LeadsTo(cur, part, Enter(cur, part))
  {
    match cur {
      case Dict(entries) =>
        forall i: nat | IsEntryOf(entries, part, i) ensures Get(entries, part) == entries[i].value && Has(entries, part) {
          GetsEntry(entries, part, i);
        }
      case List(items) => ElementByNumber(items, part);
      case Tuple(items) => ElementByNumber(items, part);
      case _ =>
    }
  }

  lemma SegmentLeadsTo(cur: Value, part: string)
    requires part != "" && part != "length" && '.' !in part
    ensures LeadsTo(cur, part, ResolvePath(cur, part))
  {
    SplitWithout(part, '.');
    assert [part][1..] == [];
    assert ResolveParts(cur, [part]) == if cur.None? then None else ResolveParts(Enter(cur, part), []);
    EnterLeadsTo(cur, part);
  }

  ghost predicate IsElement(items: seq<Value>, part: string, found: Value) {
    && (!IsDigits(part) ==> found == None)
    && forall i: nat :: part == Decimal(i) ==> found == if i < |items| then items[i] else None
  }

  lemma ElementByNumber(items: seq<Value>, part: string)
    ensures IsElement(items, part, if IsDigits(part) && ToNat(part) < |items| then items[ToNat(part)] else None)
  {
    forall i: nat | part == Decimal(i) ensures ToNat(part) == i {
      ToNatOfDecimal(i);
    }
  }

  /** The segment "length" counts characters, elements or entries. */
  lemma LengthSegment(cur: Value)
    ensures ResolvePath(cur, "length") ==
            match cur
            case Text(s) => Number(|s| as real)
            case List(items) => Number(|items| as real)
            case Tuple(items) => Number(|items| as real)
            case Dict(entries) => Number(|entries| as real)
            case _ => None
  {
    assert '.' !in "length";
    SplitWithout("length", '.');
  }

  // ------------------------------------------------------------------ paths compose

  /** Walking the parts ends early, at a "length" segment that yields a number. */
  predicate StopsAtLength(cur: Value, parts: seq<string>)
    decreases |parts|
  {
    parts != [] && !cur.None? &&
    if parts[0] == "length" then !Length(cur).None? else StopsAtLength(Enter(cur, parts[0]), parts[1..])
  }

  lemma {:induction false} NothingBelowNothing(parts: seq<string>)
    ensures ResolveParts(None, parts) == None
  {
  }

  lemma NothingBelowNumber(n: real, parts: seq<string>)
    requires parts != []
    ensures ResolveParts(Number(n), parts) == None
  {
  }

  /** Two stretches of a path, one after the other, are the whole path: exactly unless the first stops at a length. */
  lemma {:induction false} PartsCompose(cur: Value, p: seq<string>, q: seq<string>)
    requires q != []
    ensures ResolveParts(cur, p + q) == ResolveParts(ResolveParts(cur, p), q) <==> !StopsAtLength(cur, p)
    decreases |p|
  {
    if p == [] {
      assert p + q == q;
    } else {
      assert (p + q)[1..] == p[1..] + q;
      NothingBelowNothing(q);
      if !cur.None? && p[0] != "length" {
        PartsCompose(Enter(cur, p[0]), p[1..], q);
      } else if !cur.None? && !Length(cur).None? {
        NothingBelowNumber(Length(cur).n, q);
      }
    }
  }

  /** The same for dotted strings. */
  lemma PathsCompose(obj: Value, p: string, q: string)
    requires p != "" && q != ""
    ensures ResolvePath(obj, p + "." + q) == ResolvePath(ResolvePath(obj, p), q) <==> !StopsAtLength(obj, Split(p, '.'))
  {
    SplitConcat(p, '.', q);
    PartsCompose(obj, Split(p, '.'), Split(q, '.'));
  }

  /** A path without a "length" segment never stops early. */
  lemma {:induction false} NoLengthNoStop(cur: Value, parts: seq<string>)
    requires "length" !in parts
    ensures !StopsAtLength(cur, parts)
    decreases |parts|
  {
    if parts != [] {
      assert parts[0] in parts;
      NoLengthNoStop(Enter(cur, parts[0]), parts[1..]);
    }
  }

  // ------------------------------------------------------------------ searching for a key

  /** `find_key_recursive`. */
  function FindKey(v: Value, target: string): Value {
    match v
    case Dict(entries) => if Has(entries, target) then Get(entries, target) else FindInEntries(entries, target)
    case List(items) => FindInItems(items, target)
    case Tuple(items) => FindInItems(items, target)
    case _ => None
  }

  function FindInItems(items: seq<Value>, target: string): Value {
    if items == [] then None
    else
      var found := FindKey(items[0], target);
      if found.None? then FindInItems(items[1..], target) else found
  }

  function FindInEntries(entries: seq<Entry>, target: string): Value {
    if entries == [] then None
    else
      var found := FindKey(entries[0].value, target);
      if found.None? then FindInEntries(entries[1..], target) else found
  }

  /** A dictionary that has the key is not looked into. */
  lemma FindsOwnEntry(entries: seq<Entry>, target: string, i: nat)
    requires IsEntryOf(entries, target, i)
    ensures FindKey(Dict(entries), target) == entries[i].value
  {
    GetsEntry(entries, target, i);
  }

  /** The values stored under the key, in document order, not looking below a dictionary that has it. */
  function Occurrences(v: Value, target: string): seq<Value> {
    match v
    case Dict(entries) => if Has(entries, target) then [Get(entries, target)] else InEntries(entries, target)
    case List(items) => InItems(items, target)
    case Tuple(items) => InItems(items, target)
    case _ => []
  }

  function InItems(items: seq<Value>, target: string): seq<Value> {
    if items == [] then [] else Occurrences(items[0], target) + InItems(items[1..], target)
  }

  function InEntries(entries: seq<Entry>, target: string): seq<Value> {
    if entries == [] then [] else Occurrences(entries[0].value, target) + InEntries(entries[1..], target)
  }

  function FirstNotNone(values: seq<Value>): Value {
    if values == [] then None else if values[0].None? then FirstNotNone(values[1..]) else values[0]
  }

  lemma {:induction false} FirstNotNoneOfParts(a: seq<Value>, b: seq<Value>)
    ensures FirstNotNone(a + b) == if FirstNotNone(a).None? then FirstNotNone(b) else FirstNotNone(a)
  {
    if a == [] {
      assert a + b == b;
    } else {
      FirstNotNoneOfParts(a[1..], b);
      assert (a + b)[1..] == a[1..] + b;
    }
  }

  /** The search finds the first occurrence that holds something; occurrences holding None are passed over. */
  lemma {:induction false} FindsFirstOccurrence(v: Value, target: string)
    ensures FindKey(v, target) == FirstNotNone(Occurrences(v, target))
    decreases v, 1
  {
    match v {
      case Dict(entries) =>
        if Has(entries, target) {
          assert [Get(entries, target)][1..] == [];
        } else {
          FindsFirstInEntries(v, entries, target);
        }
      case List(items) => FindsFirstInItems(v, items, target);
      case Tuple(items) => FindsFirstInItems(v, items, target);
      case _ =>
    }
  }

  lemma {:induction false} FindsFirstInItems(parent: Value, items: seq<Value>, target: string)
    requires forall i :: 0 <= i < |items| ==> items[i] < parent
    ensures FindInItems(items, target) == FirstNotNone(InItems(items, target))
    decreases parent, 0, |items|
  {
    if items != [] {
      FindsFirstOccurrence(items[0], target);
      FindsFirstInItems(parent, items[1..], target);
      FirstNotNoneOfParts(Occurrences(items[0], target), InItems(items[1..], target));
    }
  }

  lemma {:induction false} FindsFirstInEntries(parent: Value, entries: seq<Entry>, target: string)
    requires forall i :: 0 <= i < |entries| ==> entries[i].value < parent
    ensures FindInEntries(entries, target) == FirstNotNone(InEntries(entries, target))
    decreases parent, 0, |entries|
  {
    if entries != [] {
      FindsFirstOccurrence(entries[0].value, target);
      FindsFirstInEntries(parent, entries[1..], target);
      FirstNotNoneOfParts(Occurrences(entries[0].value, target), InEntries(entries[1..], target));
    }
  }
}
