/** Inlining the references of an OpenAPI document (openapi_spec_parser.py, `_resolve_all`). */
module SpecParser {
  import opened Wrappers
  import opened Graphs
  import opened Sets
  import opened Strings
  import opened Json
  import opened JsonPointers

  /** A dictionary with a "$ref" entry. */
  predicate IsRef(d: Json) {
    d.Dict? && "$ref" in d.fields
  }

  // ------------------------------------------------------------------ why it stops

  /** All reference strings anywhere in a document. */
  ghost function AllRefs(d: Json): set<string> {
    match d
    case Dict(fields) =>
      (if "$ref" in fields && fields["$ref"].Text? then {fields["$ref"].s} else {})
      + set k, r | k in fields && r in AllRefs(fields[k]) :: r
    case List(items) => set i, r | 0 <= i < |items| && r in AllRefs(items[i]) :: r
    case _ => {}
  }

  lemma ChildRefs(d: Json, key: Key)
    ensures Child(d, key).Some? ==> AllRefs(Child(d, key).value) <= AllRefs(d)
  {
  }

  lemma {:induction false} NavigateRefs(d: Json, parts: seq<string>)
    ensures Navigate(d, parts).Some? ==> AllRefs(Navigate(d, parts).value) <= AllRefs(d)
  {
    if parts != [] && Enter(d, parts[0]).Some? {
      ChildRefs(d, if d.Dict? then Field(parts[0]) else Index(ToNat(parts[0])));
      NavigateRefs(Enter(d, parts[0]).value, parts[1..]);
    }
  }

  lemma ReferencedRefs(spec: Json, ref: string)
    ensures Referenced(spec, ref).Some? ==> AllRefs(Referenced(spec, ref).value) <= AllRefs(spec)
  {
    match ParsePointer(ref)
    case None =>
    case Some(parts) => NavigateRefs(spec, parts);
  }

  /** How many reference strings the expansion of d may still meet for the first time. */
  ghost function Unseen(spec: Json, d: Json, seen: set<string>): nat {
    |(AllRefs(spec) + AllRefs(d)) - seen|
  }

  lemma ChildUnseen(spec: Json, d: Json, key: Key, seen: set<string>)
    ensures Child(d, key).Some? ==> Unseen(spec, Child(d, key).value, seen) <= Unseen(spec, d, seen)
  {
    if Child(d, key).Some? {
      ChildRefs(d, key);
      SubsetSize((AllRefs(spec) + AllRefs(Child(d, key).value)) - seen, (AllRefs(spec) + AllRefs(d)) - seen);
    }
  }

  lemma FieldsUnseen(spec: Json, d: Json, seen: set<string>)
    requires d.Dict?
    ensures forall k :: k in d.fields ==> Unseen(spec, d.fields[k], seen) <= Unseen(spec, d, seen)
  {
    forall k | k in d.fields ensures Unseen(spec, d.fields[k], seen) <= Unseen(spec, d, seen) {
      ChildUnseen(spec, d, Field(k), seen);
    }
  }

  lemma ItemsUnseen(spec: Json, d: Json, seen: set<string>)
    requires d.List?
    ensures forall i :: 0 <= i < |d.items| ==> Unseen(spec, d.items[i], seen) <= Unseen(spec, d, seen)
  {
    forall i | 0 <= i < |d.items| ensures Unseen(spec, d.items[i], seen) <= Unseen(spec, d, seen) {
      ChildUnseen(spec, d, Index(i), seen);
    }
  }

  lemma TargetUnseen(spec: Json, d: Json, seen: set<string>)
    requires IsRef(d) && d.fields["$ref"].Text? && d.fields["$ref"].s !in seen
    ensures var ref := d.fields["$ref"].s;
            Referenced(spec, ref).Some? ==> Unseen(spec, Referenced(spec, ref).value, seen + {ref}) < Unseen(spec, d, seen)
  {
    var ref := d.fields["$ref"].s;
    if Referenced(spec, ref).Some? {
      ReferencedRefs(spec, ref);
      assert ref in AllRefs(d);
      hide AllRefs, Referenced;
      var before := (AllRefs(spec) + AllRefs(d)) - seen;
      var after := (AllRefs(spec) + AllRefs(Referenced(spec, ref).value)) - (seen + {ref});
      assert ref in before && ref !in after && after <= before - {ref};
      SubsetSize(after, before - {ref});
    }
  }

  // ------------------------------------------------------------------ the expansion

  /** The document with its references inlined; None if that raises. */
  function ResolveAll(spec: Json, d: Json, seen: set<string>): Option<Json>
    decreases Unseen(spec, d, seen), d
  {
    match d
    case Dict(fields) =>
      if "$ref" in fields then
        if !fields["$ref"].Text? then None
        else
          var ref := fields["$ref"].s;
          if ref in seen then Some(d)
          else
            TargetUnseen(spec, d, seen);
            match Referenced(spec, ref)
            case None => None
            case Some(target) => ResolveAll(spec, target, seen + {ref})
      else
        FieldsUnseen(spec, d, seen);
        if forall k :: k in fields ==> ResolveAll(spec, fields[k], seen).Some? then
          Some(Dict(map k | k in fields :: ResolveAll(spec, fields[k], seen).value))
        else None
    case List(items) =>
      ItemsUnseen(spec, d, seen);
      if forall i :: 0 <= i < |items| ==> ResolveAll(spec, items[i], seen).Some? then
        Some(List(seq(|items|, i requires 0 <= i < |items| => ResolveAll(spec, items[i], seen).value)))
      else None
    case _ => Some(d)
  }

  /** Below a node that is not a reference, the output has the children of the input, each expanded. */
  lemma ResolveChild(spec: Json, d: Json, seen: set<string>, key: Key)
    requires !IsRef(d) && ResolveAll(spec, d, seen).Some?
    ensures var out := ResolveAll(spec, d, seen).value;
            && !IsRef(out)
            && Child(out, key) == match Child(d, key) case None => None case Some(c) => ResolveAll(spec, c, seen)
    ensures Child(d, key).Some? ==> ResolveAll(spec, Child(d, key).value, seen).Some?
  {
  }

  /**
   What an output node has in common with the node of the original that it comes from, its
   children apart: a reference that is left is left whole, dictionaries and lists keep
   their keys and length, and anything else is unchanged.
   */
  ghost predicate LooksLike(out: Json, original: Json) {
    if IsRef(original) then out == original
    else match original
         case Dict(fields) => out.Dict? && out.fields.Keys == fields.Keys
         case List(items) => out.List? && |out.items| == |items|
         case _ => out == original
  }

  lemma ResolvedLooksLike(spec: Json, d: Json, seen: set<string>)
    requires ResolveAll(spec, d, seen).Some?
    requires IsRef(d) ==> d.fields["$ref"].Text? && d.fields["$ref"].s in seen
    ensures LooksLike(ResolveAll(spec, d, seen).value, d)
  {
  }

  lemma ResolveRef(spec: Json, d: Json, seen: set<string>)
    requires IsRef(d) && ResolveAll(spec, d, seen).Some?
    ensures d.fields["$ref"].Text?
    ensures var ref := d.fields["$ref"].s;
            ref !in seen ==>
              && Referenced(spec, ref).Some?
              && ResolveAll(spec, d, seen) == ResolveAll(spec, Referenced(spec, ref).value, seen + {ref})
              && Unseen(spec, Referenced(spec, ref).value, seen + {ref}) < Unseen(spec, d, seen)
  {
    if d.fields["$ref"].Text? && d.fields["$ref"].s !in seen {
      TargetUnseen(spec, d, seen);
    }
  }

  /** No reference is left anywhere. */
  ghost predicate NoRefs(d: Json) {
    !IsRef(d) && forall key :: Child(d, key).Some? ==> (ChildIsSmaller(d, key); NoRefs(Child(d, key).value))
  }

  /** Expanding d succeeds and leaves no reference. */
  ghost predicate Inlines(spec: Json, d: Json, seen: set<string>) {
    ResolveAll(spec, d, seen).Some? && NoRefs(ResolveAll(spec, d, seen).value)
  }

  /** A reference that is inlined is expanded as what it refers to. */
  lemma InlinedRef(spec: Json, d: Json, seen: set<string>)
    requires IsRef(d) && Inlines(spec, d, seen)
    ensures d.fields["$ref"].Text?
    ensures var ref := d.fields["$ref"].s;
            && ref !in seen
            && Referenced(spec, ref).Some?
            && Inlines(spec, Referenced(spec, ref).value, seen + {ref})
            && ResolveAll(spec, d, seen) == ResolveAll(spec, Referenced(spec, ref).value, seen + {ref})
            && Unseen(spec, Referenced(spec, ref).value, seen + {ref}) < Unseen(spec, d, seen)
  {
    ResolveRef(spec, d, seen);
  }

  lemma InlinedChild(spec: Json, d: Json, seen: set<string>, key: Key)
    requires !IsRef(d) && Inlines(spec, d, seen)
    ensures Child(ResolveAll(spec, d, seen).value, key) == match Child(d, key) case None => None case Some(c) => ResolveAll(spec, c, seen)
    ensures Child(d, key).Some? ==>
              && Inlines(spec, Child(d, key).value, seen)
              && Unseen(spec, Child(d, key).value, seen) <= Unseen(spec, d, seen)
              && Child(d, key).value < d
  {
    ResolveChild(spec, d, seen, key);
    ChildUnseen(spec, d, key, seen);
    ChildIsSmaller(d, key);
  }

  // ------------------------------------------------------------------ meaning: following references step by step

  /**
   The node at a path of the original document when every reference on the way is
   followed, at most `fuel` of them. No output is built and nothing is remembered.
   */
  function Follow(spec: Json, d: Json, path: seq<Key>, fuel: nat): Option<Json>
    decreases fuel, |path|
  {
    if IsRef(d) then
      if fuel == 0 || !d.fields["$ref"].Text? then None
      else match Referenced(spec, d.fields["$ref"].s)
           case None => None
           case Some(target) => Follow(spec, target, path, fuel - 1)
    else if path == [] then Some(d)
    else match Child(d, path[0])
         case None => None
         case Some(c) => Follow(spec, c, path[1..], fuel)
  }

  /** Where nothing was cut off, having seen fewer references makes no difference. */
  lemma {:induction false} SeenDoesNotMatter(spec: Json, d: Json, seen: set<string>, fewer: set<string>)
    requires fewer <= seen && Inlines(spec, d, seen)
    ensures ResolveAll(spec, d, fewer) == ResolveAll(spec, d, seen)
    decreases Unseen(spec, d, seen), d
  {
    hide Inlines, NoRefs, Unseen;
    if IsRef(d) {
      InlinedRef(spec, d, seen);
      var ref := d.fields["$ref"].s;
      SeenDoesNotMatter(spec, Referenced(spec, ref).value, seen + {ref}, fewer + {ref});
    } else {
      forall key | Child(d, key).Some?
        ensures ResolveAll(spec, Child(d, key).value, fewer) == ResolveAll(spec, Child(d, key).value, seen)
      {
        InlinedChild(spec, d, seen, key);
        SeenDoesNotMatter(spec, Child(d, key).value, seen, fewer);
      }
      SameChildrenSameResult(spec, d, seen, fewer);
    }
  }

  lemma SameChildrenSameResult(spec: Json, d: Json, seen: set<string>, fewer: set<string>)
    requires !IsRef(d)
    requires forall key :: Child(d, key).Some? ==>
               ResolveAll(spec, Child(d, key).value, fewer) == ResolveAll(spec, Child(d, key).value, seen)
    ensures ResolveAll(spec, d, fewer) == ResolveAll(spec, d, seen)
  {
    match d {
      case Dict(fields) =>
        forall k | k in fields ensures ResolveAll(spec, fields[k], fewer) == ResolveAll(spec, fields[k], seen) {
          assert Child(d, Field(k)) == Some(fields[k]);
        }
        SameFields(spec, d, seen, fewer);
      case List(items) => SameItems(spec, d, seen, fewer);
      case _ =>
    }
  }

  lemma SameFields(spec: Json, d: Json, seen: set<string>, fewer: set<string>)
    requires d.Dict? && !IsRef(d)
    requires forall k :: k in d.fields ==> ResolveAll(spec, d.fields[k], fewer) == ResolveAll(spec, d.fields[k], seen)
    ensures ResolveAll(spec, d, fewer) == ResolveAll(spec, d, seen)
  {
    hide Unseen, Referenced, Child;
    if ResolveAll(spec, d, seen).Some? {
      assert ResolveAll(spec, d, fewer).value.fields == ResolveAll(spec, d, seen).value.fields;
    }
  }

  lemma SameItems(spec: Json, d: Json, seen: set<string>, fewer: set<string>)
    requires d.List?
    requires forall key :: Child(d, key).Some? ==>
               ResolveAll(spec, Child(d, key).value, fewer) == ResolveAll(spec, Child(d, key).value, seen)
    ensures ResolveAll(spec, d, fewer) == ResolveAll(spec, d, seen)
  {
    forall i | 0 <= i < |d.items| ensures ResolveAll(spec, d.items[i], fewer) == ResolveAll(spec, d.items[i], seen) {
      assert Child(d, Index(i)) == Some(d.items[i]);
    }
    if ResolveAll(spec, d, seen).Some? {
      assert ResolveAll(spec, d, fewer).value.items == ResolveAll(spec, d, seen).value.items;
    }
  }

  /** Navigating the output is following references in the original: one direction ... */
  lemma {:induction false} OutputFollowsOriginal(spec: Json, d: Json, seen: set<string>, path: seq<Key>) returns (fuel: nat)
    requires Inlines(spec, d, seen) && Nav(ResolveAll(spec, d, seen).value, path).Some?
    ensures var e := Follow(spec, d, path, fuel);
            && e.Some?
            && ResolveAll(spec, e.value, {}) == Nav(ResolveAll(spec, d, seen).value, path)
            && !IsRef(e.value) && LooksLike(Nav(ResolveAll(spec, d, seen).value, path).value, e.value)
    decreases Unseen(spec, d, seen), d
  {
    hide Inlines, ResolveAll, NoRefs, Unseen, LooksLike;
    if IsRef(d) {
      InlinedRef(spec, d, seen);
      var ref := d.fields["$ref"].s;
      var n := OutputFollowsOriginal(spec, Referenced(spec, ref).value, seen + {ref}, path);
      fuel := n + 1;
    } else if path == [] {
      SeenDoesNotMatter(spec, d, seen, {});
      InlinesMeansSome(spec, d, seen);
      ResolvedLooksLike(spec, d, seen);
      fuel := 0;
    } else {
      InlinedChild(spec, d, seen, path[0]);
      fuel := OutputFollowsOriginal(spec, Child(d, path[0]).value, seen, path[1..]);
    }
  }

  /** ... and the other: whatever can be reached by following is in the output, expanded. */
  lemma {:induction false} OriginalReachedInOutput(spec: Json, d: Json, seen: set<string>, path: seq<Key>, fuel: nat)
    requires Inlines(spec, d, seen) && Follow(spec, d, path, fuel).Some?
    ensures Nav(ResolveAll(spec, d, seen).value, path) == ResolveAll(spec, Follow(spec, d, path, fuel).value, {})
    ensures ResolveAll(spec, Follow(spec, d, path, fuel).value, {}).Some?
    ensures LooksLike(Nav(ResolveAll(spec, d, seen).value, path).value, Follow(spec, d, path, fuel).value)
    decreases fuel, |path|
  {
    hide Inlines, ResolveAll, NoRefs, Unseen, LooksLike;
    if IsRef(d) {
      InlinedRef(spec, d, seen);
      var ref := d.fields["$ref"].s;
      OriginalReachedInOutput(spec, Referenced(spec, ref).value, seen + {ref}, path, fuel - 1);
    } else if path == [] {
      SeenDoesNotMatter(spec, d, seen, {});
      InlinesMeansSome(spec, d, seen);
      ResolvedLooksLike(spec, d, seen);
    } else {
      InlinedChild(spec, d, seen, path[0]);
      OriginalReachedInOutput(spec, Child(d, path[0]).value, seen, path[1..], fuel);
    }
  }

  lemma InlinesMeansSome(spec: Json, d: Json, seen: set<string>)
    requires Inlines(spec, d, seen)
    ensures ResolveAll(spec, d, seen).Some?
  {
  }

  /** The path leads to a node without passing through a reference. */
  ghost predicate InTheOpen(d: Json, path: seq<Key>) {
    path != [] ==> !IsRef(d) && Child(d, path[0]).Some? && InTheOpen(Child(d, path[0]).value, path[1..])
  }

  /**
   The node at a path when no reference is followed a second time, with the references met
   on the way (and those seen before).
   */
  ghost function FollowUnseen(spec: Json, d: Json, path: seq<Key>, seen: set<string>): Option<(Json, set<string>)>
    decreases Unseen(spec, d, seen), d
  {
    if IsRef(d) then
      if !d.fields["$ref"].Text? then None
      else
        var ref := d.fields["$ref"].s;
        if ref in seen then if path == [] then Some((d, seen)) else None
        else
          TargetUnseen(spec, d, seen);
          match Referenced(spec, ref)
          case None => None
          case Some(target) => FollowUnseen(spec, target, path, seen + {ref})
    else if path == [] then Some((d, seen))
    else
      ChildUnseen(spec, d, path[0], seen);
      ChildIsSmaller(d, path[0]);
      match Child(d, path[0])
      case None => None
      case Some(c) => FollowUnseen(spec, c, path[1..], seen)
  }

  /** Circular or not: a node in the open of the output is the expansion, under what was met, of the node followed to. */
  lemma {:induction false} OutputIsExpansion(spec: Json, d: Json, seen: set<string>, path: seq<Key>)
    requires ResolveAll(spec, d, seen).Some?
    ensures var (out, to) := (ResolveAll(spec, d, seen).value, FollowUnseen(spec, d, path, seen));
            && (to.Some? <==> InTheOpen(out, path))
            && (to.Some? ==> Nav(out, path).Some? && ResolveAll(spec, to.value.0, to.value.1) == Nav(out, path))
            && (to.Some? ==> LooksLike(Nav(out, path).value, to.value.0))
    decreases Unseen(spec, d, seen), d
  {
    hide Unseen, LooksLike;
    if IsRef(d) {
      ResolveRef(spec, d, seen);
      var ref := d.fields["$ref"].s;
      if ref in seen {
        ResolvedLooksLike(spec, d, seen);
      } else {
        hide ResolveAll;
        OutputIsExpansion(spec, Referenced(spec, ref).value, seen + {ref}, path);
      }
    } else if path != [] {
      ResolveChild(spec, d, seen, path[0]);
      hide ResolveAll;
      ChildUnseen(spec, d, path[0], seen);
      ChildIsSmaller(d, path[0]);
      if Child(d, path[0]).Some? {
        OutputIsExpansion(spec, Child(d, path[0]).value, seen, path[1..]);
      }
    } else {
      ResolvedLooksLike(spec, d, seen);
    }
  }

  lemma FollowUnseenRef(spec: Json, d: Json, path: seq<Key>, seen: set<string>)
    requires var to := FollowUnseen(spec, d, path, seen); IsRef(d) && to.Some? && !IsRef(to.value.0)
    ensures d.fields["$ref"].Text?
    ensures var ref := d.fields["$ref"].s;
            && Referenced(spec, ref).Some?
            && FollowUnseen(spec, d, path, seen) == FollowUnseen(spec, Referenced(spec, ref).value, path, seen + {ref})
            && Unseen(spec, Referenced(spec, ref).value, seen + {ref}) < Unseen(spec, d, seen)
  {
    TargetUnseen(spec, d, seen);
    hide Unseen, Referenced;
  }

  lemma FollowUnseenChild(spec: Json, d: Json, path: seq<Key>, seen: set<string>)
    requires !IsRef(d) && path != [] && FollowUnseen(spec, d, path, seen).Some?
    ensures Child(d, path[0]).Some?
    ensures var c := Child(d, path[0]).value;
            && FollowUnseen(spec, d, path, seen) == FollowUnseen(spec, c, path[1..], seen)
            && Unseen(spec, c, seen) <= Unseen(spec, d, seen)
            && c < d
  {
    ChildUnseen(spec, d, path[0], seen);
    ChildIsSmaller(d, path[0]);
    hide Unseen;
  }

  /** Not following a reference a second time makes no difference to where one gets. */
  lemma {:induction false} FollowUnseenFollows(spec: Json, d: Json, path: seq<Key>, seen: set<string>) returns (fuel: nat)
    requires var to := FollowUnseen(spec, d, path, seen); to.Some? && !IsRef(to.value.0)
    ensures Follow(spec, d, path, fuel) == Some(FollowUnseen(spec, d, path, seen).value.0)
    decreases Unseen(spec, d, seen), d
  {
    hide Unseen, Referenced, Child;
    if IsRef(d) {
      FollowUnseenRef(spec, d, path, seen);
      hide FollowUnseen;
      var ref := d.fields["$ref"].s;
      var n := FollowUnseenFollows(spec, Referenced(spec, ref).value, path, seen + {ref});
      fuel := n + 1;
    } else if path == [] {
      fuel := 0;
    } else {
      FollowUnseenChild(spec, d, path, seen);
      hide FollowUnseen;
      fuel := FollowUnseenFollows(spec, Child(d, path[0]).value, path[1..], seen);
    }
  }

  /**
   For every document that resolves and every path in the open of its output: following
   references in the original, none a second time, leads to a node whose expansion the
   output has there. If no reference is left, that is so for every path whatsoever, and the
   node is the one that following references with no memory leads to.
   */
  lemma MeaningPreserved(spec: Json, path: seq<Key>)
    requires ResolveAll(spec, spec, {}).Some?
    ensures var (out, to) := (ResolveAll(spec, spec, {}).value, FollowUnseen(spec, spec, path, {}));
            && (InTheOpen(out, path) <==> to.Some?)
            && (to.Some? ==> Nav(out, path) == ResolveAll(spec, to.value.0, to.value.1))
            && (to.Some? ==> Nav(out, path).Some? && LooksLike(Nav(out, path).value, to.value.0))
            && (to.Some? && !IsRef(to.value.0) ==> exists fuel :: Follow(spec, spec, path, fuel) == Some(to.value.0))
    ensures Inlines(spec, spec, {}) ==>
              var out := ResolveAll(spec, spec, {}).value;
              && (Nav(out, path).Some? <==> exists fuel :: Follow(spec, spec, path, fuel).Some?)
              && forall fuel :: Follow(spec, spec, path, fuel).Some? ==>
                   Nav(out, path) == ResolveAll(spec, Follow(spec, spec, path, fuel).value, {})
  {
    hide ResolveAll, FollowUnseen, Inlines, InTheOpen, LooksLike;
    OutputIsExpansion(spec, spec, {}, path);
    var to := FollowUnseen(spec, spec, path, {});
    if to.Some? && !IsRef(to.value.0) {
      var fuel := FollowUnseenFollows(spec, spec, path, {});
    }
    if Inlines(spec, spec, {}) {
      InlinedMeaning(spec, path);
    }
  }

  /** The output has the nodes that following references gets to, one by one as they look in the original. */
  ghost predicate IsInlined(spec: Json, out: Json) {
    forall path :: var to := FollowUnseen(spec, spec, path, {});
                   && (InTheOpen(out, path) <==> to.Some?)
                   && (to.Some? ==> Nav(out, path).Some? && LooksLike(Nav(out, path).value, to.value.0))
  }

  lemma ExpansionIsInlined(spec: Json)
    requires ResolveAll(spec, spec, {}).Some?
    ensures IsInlined(spec, ResolveAll(spec, spec, {}).value)
  {
    hide ResolveAll, FollowUnseen, InTheOpen, LooksLike;
    var out := ResolveAll(spec, spec, {}).value;
    forall path
      ensures var to := FollowUnseen(spec, spec, path, {});
              && (InTheOpen(out, path) <==> to.Some?)
              && (to.Some? ==> Nav(out, path).Some? && LooksLike(Nav(out, path).value, to.value.0))
    {
      OutputIsExpansion(spec, spec, {}, path);
    }
  }

  /** The same paths are in the open, and what is there looks like the same node. */
  ghost predicate Alike(a: Json, b: Json) {
    forall path ::
      && (InTheOpen(a, path) <==> InTheOpen(b, path))
      && (InTheOpen(a, path) && Nav(a, path).Some? && Nav(b, path).Some? ==> LookTheSame(Nav(a, path).value, Nav(b, path).value))
  }

  ghost predicate LookTheSame(a: Json, b: Json) {
    exists original :: LooksLike(a, original) && LooksLike(b, original)
  }

  lemma AlikeBelow(a: Json, b: Json, key: Key)
    requires Alike(a, b) && !IsRef(a) && !IsRef(b) && Child(a, key).Some? && Child(b, key).Some?
    ensures Alike(Child(a, key).value, Child(b, key).value)
  {
    var (c, d) := (Child(a, key).value, Child(b, key).value);
    forall path
      ensures InTheOpen(c, path) <==> InTheOpen(d, path)
      ensures InTheOpen(c, path) && Nav(c, path).Some? && Nav(d, path).Some? ==> LookTheSame(Nav(c, path).value, Nav(d, path).value)
    {
      var longer := [key] + path;
      assert longer[0] == key && longer[1..] == path;
      assert InTheOpen(a, longer) <==> InTheOpen(c, path);
      assert InTheOpen(b, longer) <==> InTheOpen(d, path);
      assert Nav(a, longer) == Nav(c, path) && Nav(b, longer) == Nav(d, path);
    }
  }

  lemma {:induction false} AlikeMeansEqual(a: Json, b: Json)
    requires Alike(a, b)
    ensures a == b
    decreases a
  {
    assert InTheOpen(a, []) && Nav(a, []) == Some(a) && Nav(b, []) == Some(b);
    var original :| LooksLike(a, original) && LooksLike(b, original);
    if !IsRef(original) {
      match original {
        case Dict(fields) =>
          forall k | k in fields ensures a.fields[k] == b.fields[k] {
            AlikeBelow(a, b, Field(k));
            ChildIsSmaller(a, Field(k));
            AlikeMeansEqual(a.fields[k], b.fields[k]);
          }
          assert a.fields == b.fields;
        case List(items) =>
          forall i | 0 <= i < |items| ensures a.items[i] == b.items[i] {
            AlikeBelow(a, b, Index(i));
            ChildIsSmaller(a, Index(i));
            AlikeMeansEqual(a.items[i], b.items[i]);
          }
          assert a.items == b.items;
        case _ =>
      }
    }
  }

  /** That leaves no choice: the expansion is the only document of which it is true. */
  lemma OnlyOneIsInlined(spec: Json, a: Json, b: Json)
    requires IsInlined(spec, a) && IsInlined(spec, b)
    ensures a == b
  {
    hide FollowUnseen, InTheOpen, LooksLike, Nav;
    forall path
      ensures InTheOpen(a, path) <==> InTheOpen(b, path)
      ensures InTheOpen(a, path) && Nav(a, path).Some? && Nav(b, path).Some? ==> LookTheSame(Nav(a, path).value, Nav(b, path).value)
    {
      var to := FollowUnseen(spec, spec, path, {});
      if to.Some? {
        assert LooksLike(Nav(a, path).value, to.value.0) && LooksLike(Nav(b, path).value, to.value.0);
      }
    }
    AlikeMeansEqual(a, b);
  }

  lemma InlinedMeaning(spec: Json, path: seq<Key>)
    requires Inlines(spec, spec, {})
    ensures var out := ResolveAll(spec, spec, {}).value;
            && (Nav(out, path).Some? <==> exists fuel :: Follow(spec, spec, path, fuel).Some?)
            && forall fuel :: Follow(spec, spec, path, fuel).Some? ==>
                 Nav(out, path) == ResolveAll(spec, Follow(spec, spec, path, fuel).value, {})
  {
    var out := ResolveAll(spec, spec, {}).value;
    if Nav(out, path).Some? {
      var fuel := OutputFollowsOriginal(spec, spec, {}, path);
    }
    forall fuel: nat | Follow(spec, spec, path, fuel).Some?
      ensures Nav(out, path).Some? && Nav(out, path) == ResolveAll(spec, Follow(spec, spec, path, fuel).value, {})
    {
      OriginalReachedInOutput(spec, spec, {}, path, fuel);
    }
  }

  // ------------------------------------------------------------------ when no reference is left

  /** The references that expanding d meets first. */
  ghost function FirstRefs(d: Json): set<string> {
    if IsRef(d) then if d.fields["$ref"].Text? then {d.fields["$ref"].s} else {}
    else match d
         case Dict(fields) => set k, r | k in fields && r in FirstRefs(fields[k]) :: r
         case List(items) => set i, r | 0 <= i < |items| && r in FirstRefs(items[i]) :: r
         case _ => {}
  }

  /** No "$ref" that expanding d meets first is anything but a string. */
  ghost predicate TextRefs(d: Json) {
    if IsRef(d) then d.fields["$ref"].Text?
    else forall key :: Child(d, key).Some? ==> (ChildIsSmaller(d, key); TextRefs(Child(d, key).value))
  }

  /** References met one inside the expansion of the other, starting in d. */
  ghost predicate IsChain(spec: Json, d: Json, chain: seq<string>)
    decreases |chain|
  {
    && chain != []
    && chain[0] in FirstRefs(d)
    && (|chain| > 1 ==> Referenced(spec, chain[0]).Some? && IsChain(spec, Referenced(spec, chain[0]).value, chain[1..]))
  }

  /** The chain comes back neither to a reference of its own nor to one seen before. */
  ghost predicate NoRepetition(seen: set<string>, chain: seq<string>) {
    Distinct(chain) && forall i :: 0 <= i < |chain| ==> chain[i] !in seen
  }

  /** Its last reference resolves to something whose references are strings. */
  ghost predicate EndsWell(spec: Json, chain: seq<string>)
    requires chain != []
  {
    var last := Referenced(spec, chain[|chain| - 1]);
    last.Some? && TextRefs(last.value)
  }

  ghost predicate SoundChain(spec: Json, seen: set<string>, chain: seq<string>)
    requires chain != []
  {
    NoRepetition(seen, chain) && EndsWell(spec, chain)
  }

  ghost predicate AllChainsSound(spec: Json, d: Json, seen: set<string>) {
    TextRefs(d) && forall chain :: IsChain(spec, d, chain) ==> SoundChain(spec, seen, chain)
  }

  lemma FirstRefsFromChild(d: Json, r: string) returns (key: Key)
    requires !IsRef(d) && r in FirstRefs(d)
    ensures Child(d, key).Some? && r in FirstRefs(Child(d, key).value)
  {
    match d {
      case Dict(fields) =>
        var k :| k in fields && r in FirstRefs(fields[k]);
        key := Field(k);
      case List(items) =>
        var i :| 0 <= i < |items| && r in FirstRefs(items[i]);
        key := Index(i);
    }
  }

  /** Putting a reference in front of a chain. */
  lemma OneMoreRef(seen: set<string>, ref: string, chain: seq<string>)
    ensures NoRepetition(seen, [ref] + chain) <==> ref !in seen && NoRepetition(seen + {ref}, chain)
  {
    var longer := [ref] + chain;
    assert longer[0] == ref;
    assert forall i :: 0 <= i < |chain| ==> chain[i] == longer[i + 1];
    assert forall i :: 0 < i < |longer| ==> longer[i] == chain[i - 1];
  }

  lemma SoundRef(spec: Json, d: Json, seen: set<string>)
    requires IsRef(d) && AllChainsSound(spec, d, seen)
    ensures d.fields["$ref"].Text?
    ensures var ref := d.fields["$ref"].s;
            && ref !in seen
            && Referenced(spec, ref).Some?
            && AllChainsSound(spec, Referenced(spec, ref).value, seen + {ref})
  {
    var ref := d.fields["$ref"].s;
    assert IsChain(spec, d, [ref]);
    assert SoundChain(spec, seen, [ref]);
    assert [ref][0] == ref;
    var target := Referenced(spec, ref).value;
    forall chain | IsChain(spec, target, chain) ensures SoundChain(spec, seen + {ref}, chain) {
      assert ([ref] + chain)[1..] == chain;
      assert IsChain(spec, d, [ref] + chain);
      assert SoundChain(spec, seen, [ref] + chain);
      OneMoreRef(seen, ref, chain);
    }
  }

  lemma SoundChild(spec: Json, d: Json, seen: set<string>, key: Key)
    requires !IsRef(d) && Child(d, key).Some? && AllChainsSound(spec, d, seen)
    ensures AllChainsSound(spec, Child(d, key).value, seen)
  {
  }

  /** Sound chains are enough. */
  lemma {:induction false} SoundMeansInlined(spec: Json, d: Json, seen: set<string>)
    requires AllChainsSound(spec, d, seen)
    ensures Inlines(spec, d, seen)
    decreases Unseen(spec, d, seen), d
  {
    hide AllChainsSound, NoRefs, Unseen;
    if IsRef(d) {
      SoundRef(spec, d, seen);
      var ref := d.fields["$ref"].s;
      TargetUnseen(spec, d, seen);
      SoundMeansInlined(spec, Referenced(spec, ref).value, seen + {ref});
    } else {
      forall key | Child(d, key).Some? ensures Inlines(spec, Child(d, key).value, seen) {
        SoundChild(spec, d, seen, key);
        ChildUnseen(spec, d, key, seen);
        ChildIsSmaller(d, key);
        SoundMeansInlined(spec, Child(d, key).value, seen);
      }
      InlinedChildrenSuffice(spec, d, seen);
    }
  }

  lemma ExpandedChildrenSuffice(spec: Json, d: Json, seen: set<string>)
    requires !IsRef(d)
    requires forall key :: Child(d, key).Some? ==> ResolveAll(spec, Child(d, key).value, seen).Some?
    ensures ResolveAll(spec, d, seen).Some?
  {
    match d {
      case Dict(fields) =>
        forall k | k in fields ensures ResolveAll(spec, fields[k], seen).Some? {
          assert Child(d, Field(k)) == Some(fields[k]);
        }
      case List(items) =>
        forall i | 0 <= i < |items| ensures ResolveAll(spec, items[i], seen).Some? {
          assert Child(d, Index(i)) == Some(items[i]);
        }
      case _ =>
    }
  }

  lemma InlinedChildrenSuffice(spec: Json, d: Json, seen: set<string>)
    requires !IsRef(d)
    requires forall key :: Child(d, key).Some? ==> Inlines(spec, Child(d, key).value, seen)
    ensures Inlines(spec, d, seen)
  {
    ExpandedChildrenSuffice(spec, d, seen);
    var out := ResolveAll(spec, d, seen).value;
    forall key | Child(out, key).Some? ensures NoRefs(Child(out, key).value) {
      ResolveChild(spec, d, seen, key);
    }
    ResolveChild(spec, d, seen, Field("$ref"));
  }

  lemma {:induction false} ResolvedHasTextRefs(spec: Json, d: Json, seen: set<string>)
    requires ResolveAll(spec, d, seen).Some?
    ensures TextRefs(d)
    decreases d
  {
    if IsRef(d) {
      ResolveRef(spec, d, seen);
    } else {
      forall key | Child(d, key).Some? ensures TextRefs(Child(d, key).value) {
        ResolveChild(spec, d, seen, key);
        ChildIsSmaller(d, key);
        ResolvedHasTextRefs(spec, Child(d, key).value, seen);
      }
    }
  }

  /** And they are necessary. */
  lemma {:induction false} InlinedMeansSound(spec: Json, d: Json, seen: set<string>, chain: seq<string>)
    requires Inlines(spec, d, seen) && IsChain(spec, d, chain)
    ensures SoundChain(spec, seen, chain)
    decreases Unseen(spec, d, seen), d
  {
    hide Inlines, ResolveAll, NoRefs, Unseen, SoundChain;
    if IsRef(d) {
      InlinedRef(spec, d, seen);
      var ref := d.fields["$ref"].s;
      var target := Referenced(spec, ref).value;
      InlinesMeansSome(spec, target, seen + {ref});
      ResolvedHasTextRefs(spec, target, seen + {ref});
      if |chain| > 1 {
        InlinedMeansSound(spec, target, seen + {ref}, chain[1..]);
      }
      LongerSoundChain(spec, seen, ref, target, chain);
    } else {
      var key := FirstRefsFromChild(d, chain[0]);
      InlinedChild(spec, d, seen, key);
      InlinedMeansSound(spec, Child(d, key).value, seen, chain);
    }
  }

  lemma LongerSoundChain(spec: Json, seen: set<string>, ref: string, target: Json, chain: seq<string>)
    requires chain != [] && chain[0] == ref && ref !in seen
    requires Referenced(spec, ref) == Some(target) && TextRefs(target)
    requires |chain| > 1 ==> SoundChain(spec, seen + {ref}, chain[1..])
    ensures SoundChain(spec, seen, chain)
  {
    assert chain == [ref] + chain[1..];
    OneMoreRef(seen, ref, chain[1..]);
  }

  /** The parser inlines a document completely exactly when its references are not circular and all resolve. */
  lemma InlinedIffSound(spec: Json)
    ensures Inlines(spec, spec, {}) <==> AllChainsSound(spec, spec, {})
  {
    if AllChainsSound(spec, spec, {}) {
      SoundMeansInlined(spec, spec, {});
    }
    if Inlines(spec, spec, {}) {
      ResolvedHasTextRefs(spec, spec, {});
      forall chain | IsChain(spec, spec, chain) ensures SoundChain(spec, {}, chain) {
        InlinedMeansSound(spec, spec, {}, chain);
      }
    }
  }

  // ------------------------------------------------------------------ when the document cannot be expanded

  /** Every chain that is followed, which those without repetition are, ends well. */
  ghost predicate FollowedChainsEndWell(spec: Json, d: Json, seen: set<string>) {
    TextRefs(d) && forall chain :: IsChain(spec, d, chain) && NoRepetition(seen, chain) ==> EndsWell(spec, chain)
  }

  lemma EndsWellThroughRef(spec: Json, d: Json, seen: set<string>)
    requires IsRef(d) && FollowedChainsEndWell(spec, d, seen)
    ensures d.fields["$ref"].Text?
    ensures var ref := d.fields["$ref"].s;
            ref !in seen ==>
              Referenced(spec, ref).Some? && FollowedChainsEndWell(spec, Referenced(spec, ref).value, seen + {ref})
  {
    var ref := d.fields["$ref"].s;
    if ref !in seen {
      assert IsChain(spec, d, [ref]) && NoRepetition(seen, [ref]);
      assert EndsWell(spec, [ref]);
      var target := Referenced(spec, ref).value;
      forall chain | IsChain(spec, target, chain) && NoRepetition(seen + {ref}, chain) ensures EndsWell(spec, chain) {
        OneMoreRef(seen, ref, chain);
        assert ([ref] + chain)[1..] == chain;
        assert IsChain(spec, d, [ref] + chain);
        assert EndsWell(spec, [ref] + chain);
      }
    }
  }

  lemma EndsWellThroughChild(spec: Json, d: Json, seen: set<string>, key: Key)
    requires !IsRef(d) && Child(d, key).Some? && FollowedChainsEndWell(spec, d, seen)
    ensures FollowedChainsEndWell(spec, Child(d, key).value, seen)
  {
    forall chain | IsChain(spec, Child(d, key).value, chain) ensures IsChain(spec, d, chain) {
      FirstRefsOfChild(d, key, chain[0]);
    }
  }

  lemma FirstRefsOfChild(d: Json, key: Key, r: string)
    requires !IsRef(d) && Child(d, key).Some? && r in FirstRefs(Child(d, key).value)
    ensures r in FirstRefs(d)
  {
  }

  lemma {:induction false} EndsWellMeansExpands(spec: Json, d: Json, seen: set<string>)
    requires FollowedChainsEndWell(spec, d, seen)
    ensures ResolveAll(spec, d, seen).Some?
    decreases Unseen(spec, d, seen), d
  {
    hide FollowedChainsEndWell, Unseen;
    if IsRef(d) {
      EndsWellThroughRef(spec, d, seen);
      var ref := d.fields["$ref"].s;
      if ref !in seen {
        TargetUnseen(spec, d, seen);
        EndsWellMeansExpands(spec, Referenced(spec, ref).value, seen + {ref});
      }
    } else {
      forall key | Child(d, key).Some? ensures ResolveAll(spec, Child(d, key).value, seen).Some? {
        EndsWellThroughChild(spec, d, seen, key);
        ChildUnseen(spec, d, key, seen);
        ChildIsSmaller(d, key);
        EndsWellMeansExpands(spec, Child(d, key).value, seen);
      }
      ExpandedChildrenSuffice(spec, d, seen);
    }
  }

  lemma {:induction false} ExpandsMeansEndsWell(spec: Json, d: Json, seen: set<string>, chain: seq<string>)
    requires ResolveAll(spec, d, seen).Some? && IsChain(spec, d, chain) && NoRepetition(seen, chain)
    ensures EndsWell(spec, chain)
    decreases Unseen(spec, d, seen), d
  {
    hide Unseen, Referenced, Child;
    if IsRef(d) {
      ResolveRef(spec, d, seen);
      hide ResolveAll;
      var ref := d.fields["$ref"].s;
      assert chain == [ref] + chain[1..];
      OneMoreRef(seen, ref, chain[1..]);
      var target := Referenced(spec, ref).value;
      if |chain| > 1 {
        ExpandsMeansEndsWell(spec, target, seen + {ref}, chain[1..]);
      } else {
        ResolvedHasTextRefs(spec, target, seen + {ref});
      }
    } else {
      var key := FirstRefsFromChild(d, chain[0]);
      ResolveChild(spec, d, seen, key);
      hide ResolveAll;
      ChildUnseen(spec, d, key, seen);
      ChildIsSmaller(d, key);
      ExpandsMeansEndsWell(spec, Child(d, key).value, seen, chain);
    }
  }

  /** The parser raises exactly when a chain of references without repetition ends in one that does not resolve. */
  lemma ExpandsIff(spec: Json)
    ensures ResolveAll(spec, spec, {}).Some? <==> FollowedChainsEndWell(spec, spec, {})
  {
    if FollowedChainsEndWell(spec, spec, {}) {
      EndsWellMeansExpands(spec, spec, {});
    }
    if ResolveAll(spec, spec, {}).Some? {
      ResolvedHasTextRefs(spec, spec, {});
      forall chain | IsChain(spec, spec, chain) && NoRepetition({}, chain) ensures EndsWell(spec, chain) {
        ExpandsMeansEndsWell(spec, spec, {}, chain);
      }
    }
  }

  // ------------------------------------------------------------------ what is left when references are circular

  /** A chain that ends in r, which it has met before (or which was excluded from the start). */
  ghost predicate ComesBack(spec: Json, d: Json, seen: set<string>, chain: seq<string>, r: string) {
    && IsChain(spec, d, chain)
    && chain[|chain| - 1] == r
    && (r in seen || r in chain[..|chain| - 1])
  }

  lemma ComesBackThroughRef(spec: Json, d: Json, seen: set<string>, rest: seq<string>, r: string)
    requires IsRef(d) && d.fields["$ref"].Text?
    requires var ref := d.fields["$ref"].s;
             Referenced(spec, ref).Some? && ComesBack(spec, Referenced(spec, ref).value, seen + {ref}, rest, r)
    ensures ComesBack(spec, d, seen, [d.fields["$ref"].s] + rest, r)
  {
  }

  lemma ComesBackThroughChild(spec: Json, d: Json, seen: set<string>, key: Key, chain: seq<string>, r: string)
    requires !IsRef(d) && Child(d, key).Some? && ComesBack(spec, Child(d, key).value, seen, chain, r)
    ensures ComesBack(spec, d, seen, chain, r)
  {
  }

  /** A reference left in the open occurs earlier on its own expansion chain. */
  lemma {:induction false} LeftoverIsCircular(spec: Json, d: Json, seen: set<string>, path: seq<Key>) returns (chain: seq<string>)
    requires ResolveAll(spec, d, seen).Some?
    requires var out := ResolveAll(spec, d, seen).value;
             InTheOpen(out, path) && Nav(out, path).Some? && IsRef(Nav(out, path).value)
    ensures var left := Nav(ResolveAll(spec, d, seen).value, path).value.fields["$ref"];
            left.Text? && ComesBack(spec, d, seen, chain, left.s)
    decreases Unseen(spec, d, seen), d
  {
    hide ComesBack, Unseen;
    if IsRef(d) {
      ResolveRef(spec, d, seen);
      var ref := d.fields["$ref"].s;
      if ref in seen {
        chain := [ref];
        LeftAtOnce(spec, d, seen);
      } else {
        hide ResolveAll;
        var rest := LeftoverIsCircular(spec, Referenced(spec, ref).value, seen + {ref}, path);
        var left := Nav(ResolveAll(spec, d, seen).value, path).value.fields["$ref"];
        ComesBackThroughRef(spec, d, seen, rest, left.s);
        chain := [ref] + rest;
      }
    } else {
      ResolveChild(spec, d, seen, if path == [] then Field("$ref") else path[0]);
      hide ResolveAll;
      ChildUnseen(spec, d, path[0], seen);
      ChildIsSmaller(d, path[0]);
      chain := LeftoverIsCircular(spec, Child(d, path[0]).value, seen, path[1..]);
      var left := Nav(ResolveAll(spec, d, seen).value, path).value.fields["$ref"];
      ComesBackThroughChild(spec, d, seen, path[0], chain, left.s);
    }
  }

  lemma LeftAtOnce(spec: Json, d: Json, seen: set<string>)
    requires IsRef(d) && d.fields["$ref"].Text? && d.fields["$ref"].s in seen
    ensures ComesBack(spec, d, seen, [d.fields["$ref"].s], d.fields["$ref"].s)
  {
  }

  // ------------------------------------------------------------------ the parser

  class OpenApiSpecParser {
    const fullSpec: Json
    const resolvedSpec: Option<Json>

    constructor (spec: Json)
      ensures fullSpec == spec && resolvedSpec == ResolveAll(spec, spec, {})
      ensures resolvedSpec.Some? ==> IsInlined(spec, resolvedSpec.value)
      ensures resolvedSpec.Some? <==> FollowedChainsEndWell(spec, spec, {})
      ensures resolvedSpec.Some? && NoRefs(resolvedSpec.value) <==> AllChainsSound(spec, spec, {})
    {
      ExpandsIff(spec);
      InlinedIffSound(spec);
      hide ResolveAll, FollowedChainsEndWell, AllChainsSound, NoRefs, IsInlined;
      if ResolveAll(spec, spec, {}).Some? {
        ExpansionIsInlined(spec);
      }
      fullSpec := spec;
      resolvedSpec := ResolveAll(spec, spec, {});
    }

    /** Walks the parts of a pointer, decoding each as it goes. */
    method GetReferencedData(refPath: string) returns (data: Option<Json>)
      ensures data == Referenced(fullSpec, refPath)
      ensures !("#/" <= refPath) ==> data == Some(Dict(map["error" := Text("External reference " + refPath + " not supported")]))
    {
      hide Decode, Enter;
      if !(|refPath| >= 2 && refPath[0] == '#' && refPath[1] == '/') {
        return Some(Dict(map["error" := Text("External reference " + refPath + " not supported")]));
      }
      var parts := Split(LStrip(refPath), '/');
      var current := fullSpec;
      for i := 0 to |parts|
        invariant Navigate(current, DecodeAll(parts[i..])) == Referenced(fullSpec, refPath)
      {
        var part := Decode(parts[i]);
        assert parts[i..] == [parts[i]] + parts[i + 1..];
        DecodeFirst(parts[i], parts[i + 1..]);
        assert DecodeAll(parts[i..])[1..] == DecodeAll(parts[i + 1..]);
        var next := Enter(current, part);
        if next.None? {
          return None;
        }
        current := next.value;
      }
      return Some(current);
    }
  }
}
