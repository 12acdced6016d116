/**
 Evaluating the expressions of `if` and `switch` steps over a context
 (workflow/expressions.py), from the syntax tree. Python's own operators are parameters.
 */
module Expressions {
  import opened Wrappers
  import opened Strings
  import opened Resolvers

  datatype BinaryOp = Add | Sub | Mult | Div | FloorDiv | Mod | OtherBinary
  datatype CompareOp = Eq | NotEq | Lt | LtE | Gt | GtE | In | NotIn | Is | IsNot
  datatype UnaryOp = Not | Minus | Plus | OtherUnary

  datatype Expr =
    | Constant(value: Value)
    | Name(id: string)
    | Attribute(base: Expr, attr: string)
    | Subscript(base: Expr, key: Expr)
    | And(operands: seq<Expr>)
    | Or(operands: seq<Expr>)
    | Unary(uop: UnaryOp, operand: Expr)
    | Binary(bop: BinaryOp, left: Expr, right: Expr)
    | Compare(first: Expr, ops: seq<CompareOp>, comparators: seq<Expr>)
    | ListDisplay(elements: seq<Expr>)
    | TupleDisplay(elements: seq<Expr>)
    | DictDisplay(entries: seq<Entry>)
    | Unsupported

  datatype Entry = Entry(key: Expr, value: Expr)

  type Evaluated = Result<Value, string>

  const UNSUPPORTED: Evaluated := Err("unsupported")

  /**
   What Python's operators give, or raise; `item` is None where indexing raises, and
   `store` is a dictionary with one more entry.
   */
  datatype Python = Python(
    unary: (UnaryOp, Value) -> Evaluated,
    binary: (BinaryOp, Value, Value) -> Evaluated,
    compare: (CompareOp, Value, Value) -> Result<bool, string>,
    item: (Value, Value) -> Value,
    store: (Value, Value, Value) -> Evaluated)

  predicate Truthy(v: Value) {
    match v
    case None => false
    case Bool(b) => b
    case Number(n) => n != 0.0
    case Text(s) => s != ""
    case List(items) => items != []
    case Tuple(items) => items != []
    case Dict(entries) => entries != []
  }

  function Eval(py: Python, e: Expr, ctx: Value): Evaluated
    decreases e
  {
    match e
    case Constant(value) => Ok(value)
    case Name(id) => Ok(ResolvePath(ctx, id))
    case Attribute(base, attr) =>
      var b := Eval(py, base, ctx);
      if b.Err? then b else Ok(ResolvePath(b.value, attr))
    case Subscript(base, key) =>
      var b := Eval(py, base, ctx);
      if b.Err? then b
      else
        var k := Eval(py, key, ctx);
        if k.Err? then k else Ok(if b.value.None? then Value.None else py.item(b.value, k.value))
    case And(operands) => EvalAnd(py, operands, ctx)
    case Or(operands) => EvalOr(py, operands, ctx)
    case Unary(op, operand) =>
      if op.OtherUnary? then UNSUPPORTED
      else
        var v := Eval(py, operand, ctx);
        if v.Err? then v else if op.Not? then Ok(Bool(!Truthy(v.value))) else py.unary(op, v.value)
    case Binary(op, left, right) =>
      if op.OtherBinary? then UNSUPPORTED
      else
        var l := Eval(py, left, ctx);
        if l.Err? then l
        else
          var r := Eval(py, right, ctx);
          if r.Err? then r else py.binary(op, l.value, r.value)
    case Compare(first, ops, comparators) =>
      var l := Eval(py, first, ctx);
      if l.Err? then l else EvalLinks(py, l.value, ops, comparators, ctx)
    case ListDisplay(elements) =>
      var vs := EvalAll(py, elements, ctx);
      if vs.Err? then Err(vs.error) else Ok(List(vs.value))
    case TupleDisplay(elements) =>
      var vs := EvalAll(py, elements, ctx);
      if vs.Err? then Err(vs.error) else Ok(Tuple(vs.value))
    case DictDisplay(entries) => EvalEntries(py, Dict([]), entries, ctx)
    case Unsupported => UNSUPPORTED
  }

  /** The last value, or the first that is not truthy. */
  function EvalAnd(py: Python, es: seq<Expr>, ctx: Value): Evaluated
    decreases es
  {
    if es == [] then Ok(Bool(true))
    else
      var v := Eval(py, es[0], ctx);
      if v.Err? || !Truthy(v.value) || |es| == 1 then v else EvalAnd(py, es[1..], ctx)
  }

  function EvalOr(py: Python, es: seq<Expr>, ctx: Value): Evaluated
    decreases es
  {
    if es == [] then Ok(Bool(false))
    else
      var v := Eval(py, es[0], ctx);
      if v.Err? || Truthy(v.value) || |es| == 1 then v else EvalOr(py, es[1..], ctx)
  }

  /** The operators and comparators are taken in pairs, as far as both go. */
  function EvalLinks(py: Python, left: Value, ops: seq<CompareOp>, comparators: seq<Expr>, ctx: Value): Evaluated
    decreases comparators
  {
    if ops == [] || comparators == [] then Ok(Bool(true))
    else
      var right := Eval(py, comparators[0], ctx);
      if right.Err? then right
      else
        var holds := py.compare(ops[0], left, right.value);
        if holds.Err? then Err(holds.error)
        else if !holds.value then Ok(Bool(false))
        else EvalLinks(py, right.value, ops[1..], comparators[1..], ctx)
  }

  function EvalAll(py: Python, es: seq<Expr>, ctx: Value): Result<seq<Value>, string>
    decreases es
  {
    if es == [] then Ok([])
    else
      var v := Eval(py, es[0], ctx);
      if v.Err? then Err(v.error)
      else
        var rest := EvalAll(py, es[1..], ctx);
        if rest.Err? then rest else Ok([v.value] + rest.value)
  }

  /** The key, then the value. */
  function EvalEntry(py: Python, entry: Entry, ctx: Value): Result<(Value, Value), string>
    decreases entry
  {
    var k := Eval(py, entry.key, ctx);
    if k.Err? then Err(k.error)
    else
      var v := Eval(py, entry.value, ctx);
      if v.Err? then Err(v.error) else Ok((k.value, v.value))
  }

  /** Each entry goes into the dictionary before the next one is evaluated. */
  function EvalEntries(py: Python, done: Value, entries: seq<Entry>, ctx: Value): Evaluated
    decreases entries
  {
    if entries == [] then Ok(done)
    else
      var entry := EvalEntry(py, entries[0], ctx);
      if entry.Err? then Err(entry.error)
      else
        var more := py.store(done, entry.value.0, entry.value.1);
        if more.Err? then more else EvalEntries(py, more.value, entries[1..], ctx)
  }

  // ------------------------------------------------------------------ chains of attributes are paths

  function AttributeChain(names: seq<string>): Expr
    requires names != []
  {
    if |names| == 1 then Name(names[0])
    else Attribute(AttributeChain(names[..|names| - 1]), names[|names| - 1])
  }

  function Dotted(names: seq<string>): string
    requires names != []
  {
    if |names| == 1 then names[0] else Dotted(names[..|names| - 1]) + "." + names[|names| - 1]
  }

  ghost predicate AreIdentifiers(names: seq<string>) {
    forall i :: 0 <= i < |names| ==> names[i] != "" && '.' !in names[i]
  }

  lemma {:induction false} SplitUndoesDotted(names: seq<string>)
    requires names != [] && AreIdentifiers(names)
    ensures Split(Dotted(names), '.') == names && Dotted(names) != ""
  {
    SplitWithout(names[|names| - 1], '.');
    if |names| > 1 {
      var front := names[..|names| - 1];
      SplitUndoesDotted(front);
      SplitConcat(Dotted(front), '.', names[|names| - 1]);
      assert names == front + [names[|names| - 1]];
    } else {
      assert names == [names[0]];
    }
  }

  /** A chain that stops at a length yields None from the next attribute on. */
  lemma {:induction false} ChainStepwise(py: Python, names: seq<string>, ctx: Value)
    requires names != [] && AreIdentifiers(names)
    ensures Eval(py, AttributeChain(names), ctx).Ok?
    ensures |names| == 1 ==> Eval(py, AttributeChain(names), ctx).value == ResolveParts(ctx, names)
    ensures |names| > 1 ==>
              Eval(py, AttributeChain(names), ctx).value ==
              ResolveParts(Eval(py, AttributeChain(names[..|names| - 1]), ctx).value, [names[|names| - 1]])
  {
    SplitWithout(names[|names| - 1], '.');
    if |names| > 1 {
      ChainStepwise(py, names[..|names| - 1], ctx);
    } else {
      assert names == [names[0]];
    }
  }

  lemma {:induction false} StopsWithin(cur: Value, p: seq<string>, last: string)
    ensures StopsAtLength(cur, p + [last]) <==> StopsAtLength(cur, p) || StopsAtLength(ResolveParts(cur, p), [last])
    decreases |p|
  {
    if p == [] {
      assert p + [last] == [last];
    } else {
      assert (p + [last])[1..] == p[1..] + [last];
      NothingBelowNothing(p);
      if !cur.None? && p[0] == "length" && Length(cur).Number? {
        assert [last][1..] == [];
      } else if !cur.None? && p[0] != "length" {
        StopsWithin(Enter(cur, p[0]), p[1..], last);
      }
    }
  }

  /** One more name on a chain whose value is known. */
  lemma OneMoreName(ctx: Value, front: seq<string>, last: string, soFar: Value)
    requires front != []
    requires var (inner, name) := (front[..|front| - 1], front[|front| - 1]);
             soFar == if StopsAtLength(ctx, inner) then Value.None else ResolveParts(ctx, front)
    ensures ResolveParts(soFar, [last]) ==
            if StopsAtLength(ctx, front) then Value.None else ResolveParts(ctx, front + [last])
    ensures StopsAtLength(ctx, front) ==> ResolveParts(ctx, front + [last]).Number?
  {
    var (inner, name) := (front[..|front| - 1], front[|front| - 1]);
    assert front == inner + [name];
    StopsWithin(ctx, inner, name);
    NothingBelowNothing([last]);
    PartsCompose(ctx, front, [last]);
    if StopsAtLength(ctx, front) {
      StoppedIsNumber(ctx, front, [last]);
      if !StopsAtLength(ctx, inner) {
        NothingBelowNumber(ResolveParts(ctx, front).n, [last]);
      }
    }
  }

  /**
   `a.b.c` in an expression is the path "a.b.c" of the context, unless a name before
   the last is "length" and measures something: then the path gives the length, the
   expression None.
   */
  lemma {:induction false} ChainIsPath(py: Python, names: seq<string>, ctx: Value)
    requires names != [] && AreIdentifiers(names)
    ensures Eval(py, AttributeChain(names), ctx) ==
            if StopsAtLength(ctx, names[..|names| - 1]) then Ok(Value.None) else Ok(ResolvePath(ctx, Dotted(names)))
    ensures StopsAtLength(ctx, names[..|names| - 1]) ==> ResolvePath(ctx, Dotted(names)).Number?
  {
    hide Eval, ResolveParts, StopsAtLength, Split;
    ChainStepwise(py, names, ctx);
    SplitUndoesDotted(names);
    assert ResolvePath(ctx, Dotted(names)) == ResolveParts(ctx, names);
    if |names| > 1 {
      var (front, last) := (names[..|names| - 1], names[|names| - 1]);
      assert names == front + [last];
      ChainIsPath(py, front, ctx);
      SplitUndoesDotted(front);
      OneMoreName(ctx, front, last, Eval(py, AttributeChain(front), ctx).value);
    } else {
      NeverStopsOnNothing(ctx, names);
    }
  }

  lemma NeverStopsOnNothing(ctx: Value, names: seq<string>)
    requires |names| == 1
    ensures !StopsAtLength(ctx, names[..|names| - 1])
  {
  }

  lemma {:induction false} StoppedIsNumber(cur: Value, p: seq<string>, q: seq<string>)
    requires StopsAtLength(cur, p)
    ensures ResolveParts(cur, p + q).Number? && ResolveParts(cur, p).Number?
    decreases |p|
  {
    assert (p + q)[1..] == p[1..] + q;
    if p[0] != "length" {
      StoppedIsNumber(Enter(cur, p[0]), p[1..], q);
    }
  }

  // ------------------------------------------------------------------ chained comparisons

  /** `a < b <= c` as `a < b and b <= c`. */
  function LinkByLink(first: Expr, ops: seq<CompareOp>, comparators: seq<Expr>): seq<Expr>
    decreases |ops|
  {
    if ops == [] || comparators == [] then []
    else [Compare(first, [ops[0]], [comparators[0]])] + LinkByLink(comparators[0], ops[1..], comparators[1..])
  }

  lemma EvalOneLink(py: Python, left: Value, op: CompareOp, comparator: Expr, ctx: Value)
    ensures EvalLinks(py, left, [op], [comparator], ctx) ==
            var right := Eval(py, comparator, ctx);
            if right.Err? then right
            else
              var holds := py.compare(op, left, right.value);
              if holds.Err? then Err(holds.error) else Ok(Bool(holds.value))
  {
  }

  lemma {:induction false} LinksAreConjunction(py: Python, first: Expr, ops: seq<CompareOp>, comparators: seq<Expr>, ctx: Value)
    requires ops != [] && comparators != [] && Eval(py, first, ctx).Ok?
    ensures EvalLinks(py, Eval(py, first, ctx).value, ops, comparators, ctx) == EvalAnd(py, LinkByLink(first, ops, comparators), ctx)
    decreases |ops|
  {
    var left := Eval(py, first, ctx).value;
    var es := LinkByLink(first, ops, comparators);
    EvalOneLink(py, left, ops[0], comparators[0], ctx);
    assert es[0] == Compare(first, [ops[0]], [comparators[0]]);
    assert es[1..] == LinkByLink(comparators[0], ops[1..], comparators[1..]);
    if |ops| > 1 && |comparators| > 1 && Eval(py, comparators[0], ctx).Ok? {
      LinksAreConjunction(py, comparators[0], ops[1..], comparators[1..], ctx);
    }
  }

  /** A chained comparison has the value, and the error, of the conjunction of its links. */
  lemma ChainedComparison(py: Python, first: Expr, ops: seq<CompareOp>, comparators: seq<Expr>, ctx: Value)
    requires ops != [] && comparators != []
    ensures Eval(py, Compare(first, ops, comparators), ctx) == Eval(py, And(LinkByLink(first, ops, comparators)), ctx)
  {
    var es := LinkByLink(first, ops, comparators);
    assert Eval(py, And(es), ctx) == EvalAnd(py, es, ctx);
    if Eval(py, first, ctx).Ok? {
      LinksAreConjunction(py, first, ops, comparators, ctx);
    } else {
      assert es[0] == Compare(first, [ops[0]], [comparators[0]]);
      assert Eval(py, es[0], ctx) == Eval(py, first, ctx);
    }
  }

  // ------------------------------------------------------------------ negation

  function Negated(es: seq<Expr>): seq<Expr> {
    if es == [] then [] else [Unary(Not, es[0])] + Negated(es[1..])
  }

  lemma {:induction false} NegatedAt(es: seq<Expr>)
    ensures |Negated(es)| == |es|
    ensures es != [] ==> Negated(es)[0] == Unary(Not, es[0]) && Negated(es)[1..] == Negated(es[1..])
  {
    if es != [] {
      NegatedAt(es[1..]);
    }
  }

  lemma EvalConnectives(py: Python, es: seq<Expr>, ctx: Value)
    ensures Eval(py, And(es), ctx) == EvalAnd(py, es, ctx) && Eval(py, Or(es), ctx) == EvalOr(py, es, ctx)
  {
  }

  lemma EvalNot(py: Python, e: Expr, ctx: Value)
    ensures Eval(py, Unary(Not, e), ctx) ==
            var v := Eval(py, e, ctx); if v.Err? then v else Ok(Bool(!Truthy(v.value)))
  {
  }

  /** "not (a and b ...)" and "(not a) or (not b) ..." agree, errors included: what is evaluated is the same. */
  lemma {:induction false} NotAndIsOrNot(py: Python, es: seq<Expr>, ctx: Value)
    ensures Eval(py, Unary(Not, And(es)), ctx) == Eval(py, Or(Negated(es)), ctx)
    decreases |es|
  {
    hide Eval, Negated;
    NegatedAt(es);
    EvalNot(py, And(es), ctx);
    EvalConnectives(py, es, ctx);
    EvalConnectives(py, Negated(es), ctx);
    if es != [] {
      EvalNot(py, es[0], ctx);
      if |es| > 1 {
        NotAndIsOrNot(py, es[1..], ctx);
        EvalNot(py, And(es[1..]), ctx);
        EvalConnectives(py, es[1..], ctx);
        EvalConnectives(py, Negated(es[1..]), ctx);
      }
    }
  }

  lemma {:induction false} NotOrIsAndNot(py: Python, es: seq<Expr>, ctx: Value)
    ensures Eval(py, Unary(Not, Or(es)), ctx) == Eval(py, And(Negated(es)), ctx)
    decreases |es|
  {
    hide Eval, Negated;
    NegatedAt(es);
    EvalNot(py, Or(es), ctx);
    EvalConnectives(py, es, ctx);
    EvalConnectives(py, Negated(es), ctx);
    if es != [] {
      EvalNot(py, es[0], ctx);
      if |es| > 1 {
        NotOrIsAndNot(py, es[1..], ctx);
        EvalNot(py, Or(es[1..]), ctx);
        EvalConnectives(py, es[1..], ctx);
        EvalConnectives(py, Negated(es[1..]), ctx);
      }
    }
  }

  // ------------------------------------------------------------------ every kind of node

  /** What counts as false. */
  lemma FalseValues(v: Value)
    ensures !Truthy(v) <==> v in {Value.None, Bool(false), Number(0.0), Text(""), List([]), Tuple([]), Dict([])}
  {
  }

  /** Leaves. */
  lemma LeafValues(py: Python, value: Value, id: string, ctx: Value)
    ensures Eval(py, Constant(value), ctx) == Ok(value)
    ensures Eval(py, Name(id), ctx) == Ok(ResolvePath(ctx, id))
    ensures Eval(py, Unsupported, ctx).Err?
  {
  }

  /** Two operands are evaluated from left to right, and the first error wins. */
  lemma BinaryValue(py: Python, op: BinaryOp, left: Expr, right: Expr, ctx: Value)
    ensures var (l, r, v) := (Eval(py, left, ctx), Eval(py, right, ctx), Eval(py, Binary(op, left, right), ctx));
            && (op.OtherBinary? ==> v.Err?)
            && (!op.OtherBinary? && l.Err? ==> v == l)
            && (!op.OtherBinary? && l.Ok? && r.Err? ==> v == r)
            && (!op.OtherBinary? && l.Ok? && r.Ok? ==> v == py.binary(op, l.value, r.value))
  {
  }

  /** Below None there is None, but only if the key can be evaluated. */
  lemma SubscriptValue(py: Python, base: Expr, key: Expr, ctx: Value)
    ensures var (b, k, v) := (Eval(py, base, ctx), Eval(py, key, ctx), Eval(py, Subscript(base, key), ctx));
            && (b.Err? ==> v == b)
            && (b.Ok? && k.Err? ==> v == k)
            && (b == Ok(Value.None) && k.Ok? ==> v == Ok(Value.None))
            && (b.Ok? && !b.value.None? && k.Ok? ==> v == Ok(py.item(b.value, k.value)))
  {
  }

  lemma AttributeValue(py: Python, base: Expr, attr: string, ctx: Value)
    ensures var (b, v) := (Eval(py, base, ctx), Eval(py, Attribute(base, attr), ctx));
            && (b.Err? ==> v == b)
            && (b.Ok? ==> v == Ok(ResolvePath(b.value, attr)))
  {
  }

  lemma UnaryValue(py: Python, op: UnaryOp, operand: Expr, ctx: Value)
    ensures var (o, v) := (Eval(py, operand, ctx), Eval(py, Unary(op, operand), ctx));
            && (op.OtherUnary? ==> v.Err?)
            && (!op.OtherUnary? && o.Err? ==> v == o)
            && (op.Not? && o.Ok? ==> v == Ok(Bool(!Truthy(o.value))))
            && ((op.Minus? || op.Plus?) && o.Ok? ==> v == py.unary(op, o.value))
  {
  }

  lemma CompareIsLinks(py: Python, first: Expr, ops: seq<CompareOp>, comparators: seq<Expr>, ctx: Value)
    ensures var l := Eval(py, first, ctx);
            Eval(py, Compare(first, ops, comparators), ctx) == if l.Err? then l else EvalLinks(py, l.value, ops, comparators, ctx)
  {
  }

  /** A comparison of two operands; longer ones are conjunctions of these. */
  lemma OneLinkValue(py: Python, first: Expr, op: CompareOp, second: Expr, ctx: Value)
    ensures var (l, r, v) := (Eval(py, first, ctx), Eval(py, second, ctx), Eval(py, Compare(first, [op], [second]), ctx));
            && (l.Err? ==> v == l)
            && (l.Ok? && r.Err? ==> v == r)
            && (l.Ok? && r.Ok? ==>
                  var holds := py.compare(op, l.value, r.value);
                  v == if holds.Err? then Err(holds.error) else Ok(Bool(holds.value)))
  {
    CompareIsLinks(py, first, [op], [second], ctx);
    if Eval(py, first, ctx).Ok? {
      EvalOneLink(py, Eval(py, first, ctx).value, op, second, ctx);
    }
    hide Eval, EvalLinks;
  }

  /** Operand k is the first to settle a conjunction (or a disjunction): it raises, or its truth is the given one. */
  ghost predicate SettledBy(py: Python, es: seq<Expr>, ctx: Value, truth: bool, k: nat)
    requires k < |es|
  {
    && (forall i :: 0 <= i < k ==> Eval(py, es[i], ctx).Ok? && Truthy(Eval(py, es[i], ctx).value) != truth)
    && (Eval(py, es[k], ctx).Err? || Truthy(Eval(py, es[k], ctx).value) == truth)
  }

  lemma SettledLater(py: Python, es: seq<Expr>, ctx: Value, truth: bool, k: nat)
    requires k + 1 < |es|
    ensures SettledBy(py, es, ctx, truth, k + 1) <==>
            Eval(py, es[0], ctx).Ok? && Truthy(Eval(py, es[0], ctx).value) != truth && SettledBy(py, es[1..], ctx, truth, k)
  {
    hide Eval, Truthy;
    assert forall i :: 0 < i < |es| ==> es[i] == es[1..][i - 1];
    assert es[1..][k] == es[k + 1];
    if SettledBy(py, es[1..], ctx, truth, k) && Eval(py, es[0], ctx).Ok? && Truthy(Eval(py, es[0], ctx).value) != truth {
      forall i | 0 <= i < k + 1 ensures Eval(py, es[i], ctx).Ok? && Truthy(Eval(py, es[i], ctx).value) != truth {
        assert i > 0 ==> es[i] == es[1..][i - 1];
      }
    }
    if SettledBy(py, es, ctx, truth, k + 1) {
      forall i | 0 <= i < k ensures Eval(py, es[1..][i], ctx).Ok? && Truthy(Eval(py, es[1..][i], ctx).value) != truth {
        assert es[1..][i] == es[i + 1];
      }
    }
  }

  /** A conjunction is the operand that settles it by being false, or else its last one. */
  lemma {:induction false} AndValue(py: Python, es: seq<Expr>, ctx: Value, k: nat)
    requires k < |es| && (SettledBy(py, es, ctx, false, k) || (k == |es| - 1 && NothingSettles(py, es, ctx, false)))
    ensures Eval(py, And(es), ctx) == Eval(py, es[k], ctx)
    decreases |es|
  {
    EvalConnectives(py, es, ctx);
    hide Eval;
    if k > 0 {
      SettledLater(py, es, ctx, false, k - 1);
      NothingSettlesLater(py, es, ctx, false);
      AndValue(py, es[1..], ctx, k - 1);
      EvalConnectives(py, es[1..], ctx);
    }
  }

  /** A disjunction is the operand that settles it by being true, or else its last one. */
  lemma {:induction false} OrValue(py: Python, es: seq<Expr>, ctx: Value, k: nat)
    requires k < |es| && (SettledBy(py, es, ctx, true, k) || (k == |es| - 1 && NothingSettles(py, es, ctx, true)))
    ensures Eval(py, Or(es), ctx) == Eval(py, es[k], ctx)
    decreases |es|
  {
    EvalConnectives(py, es, ctx);
    hide Eval;
    if k > 0 {
      SettledLater(py, es, ctx, true, k - 1);
      NothingSettlesLater(py, es, ctx, true);
      OrValue(py, es[1..], ctx, k - 1);
      EvalConnectives(py, es[1..], ctx);
    }
  }

  ghost predicate NothingSettles(py: Python, es: seq<Expr>, ctx: Value, truth: bool) {
    forall k :: 0 <= k < |es| ==> Eval(py, es[k], ctx).Ok? && Truthy(Eval(py, es[k], ctx).value) != truth
  }

  lemma NothingSettlesLater(py: Python, es: seq<Expr>, ctx: Value, truth: bool)
    requires es != []
    ensures NothingSettles(py, es, ctx, truth) ==>
              Eval(py, es[0], ctx).Ok? && Truthy(Eval(py, es[0], ctx).value) != truth && NothingSettles(py, es[1..], ctx, truth)
  {
    hide Eval, Truthy;
    assert forall i :: 0 <= i < |es| - 1 ==> es[1..][i] == es[i + 1];
  }

  /** Of a display's elements, the first that raises. */
  ghost predicate FirstToRaise(py: Python, es: seq<Expr>, ctx: Value, k: nat)
    requires k < |es|
  {
    (forall i :: 0 <= i < k ==> Eval(py, es[i], ctx).Ok?) && Eval(py, es[k], ctx).Err?
  }

  lemma {:induction false} ElementsValue(py: Python, es: seq<Expr>, ctx: Value)
    ensures var vs := EvalAll(py, es, ctx);
            && (vs.Ok? ==> |vs.value| == |es| && forall i :: 0 <= i < |es| ==> Eval(py, es[i], ctx) == Ok(vs.value[i]))
            && (vs.Err? ==> exists k :: 0 <= k < |es| && FirstToRaise(py, es, ctx, k) && Eval(py, es[k], ctx) == Err(vs.error))
  {
    hide Eval;
    if es != [] {
      ElementsValue(py, es[1..], ctx);
      var (v, rest) := (Eval(py, es[0], ctx), EvalAll(py, es[1..], ctx));
      if v.Err? {
        assert FirstToRaise(py, es, ctx, 0);
      } else if rest.Err? {
        var k :| 0 <= k < |es[1..]| && FirstToRaise(py, es[1..], ctx, k) && Eval(py, es[1..][k], ctx) == Err(rest.error);
        assert es[1..][k] == es[k + 1];
        forall i | 0 <= i < k + 1 ensures Eval(py, es[i], ctx).Ok? {
          assert i > 0 ==> es[i] == es[1..][i - 1];
        }
        assert FirstToRaise(py, es, ctx, k + 1);
      } else {
        forall i | 0 < i < |es| ensures Eval(py, es[i], ctx) == Ok(rest.value[i - 1]) {
          assert es[i] == es[1..][i - 1];
        }
      }
    }
  }

  /** Lists and tuples hold the values of their elements, or raise what the first of them does. */
  lemma DisplayValue(py: Python, es: seq<Expr>, ctx: Value)
    ensures var (l, t) := (Eval(py, ListDisplay(es), ctx), Eval(py, TupleDisplay(es), ctx));
            && (l.Ok? ==> l.value.List? && |l.value.items| == |es|
                          && forall i :: 0 <= i < |es| ==> Eval(py, es[i], ctx) == Ok(l.value.items[i]))
            && (l.Ok? ==> t == Ok(Tuple(l.value.items)))
            && (l.Err? ==> t == l && exists k :: 0 <= k < |es| && FirstToRaise(py, es, ctx, k) && Eval(py, es[k], ctx) == l)
  {
    ElementsValue(py, es, ctx);
    DisplaysAreAll(py, es, ctx);
    hide Eval;
  }

  lemma DisplaysAreAll(py: Python, es: seq<Expr>, ctx: Value)
    ensures var vs := EvalAll(py, es, ctx);
            && Eval(py, ListDisplay(es), ctx) == (if vs.Err? then Err(vs.error) else Ok(List(vs.value)))
            && Eval(py, TupleDisplay(es), ctx) == (if vs.Err? then Err(vs.error) else Ok(Tuple(vs.value)))
  {
  }

  /** The entry can be evaluated and takes one dictionary to the next. */
  ghost predicate Stores(py: Python, entry: Entry, ctx: Value, before: Value, after: Value) {
    var (k, v) := (Eval(py, entry.key, ctx), Eval(py, entry.value, ctx));
    k.Ok? && v.Ok? && py.store(before, k.value, v.value) == Ok(after)
  }

  /** A dictionary before any and after each of the entries. */
  ghost predicate StoredInOrder(py: Python, entries: seq<Entry>, ctx: Value, dicts: seq<Value>) {
    && |dicts| == |entries| + 1
    && forall i, j :: 0 <= i && j == i + 1 && j < |dicts| ==> Stores(py, entries[i], ctx, dicts[i], dicts[j])
  }

  lemma StoredOneMore(py: Python, entries: seq<Entry>, ctx: Value, done: Value, dicts: seq<Value>)
    requires entries != [] && StoredInOrder(py, entries[1..], ctx, dicts) && Stores(py, entries[0], ctx, done, dicts[0])
    ensures StoredInOrder(py, entries, ctx, [done] + dicts)
  {
    hide Stores;
    var all := [done] + dicts;
    forall i, j | 0 <= i && j == i + 1 && j < |all| ensures Stores(py, entries[i], ctx, all[i], all[j]) {
      if i > 0 {
        assert entries[i] == entries[1..][i - 1] && all[i] == dicts[i - 1] && all[j] == dicts[i];
      }
    }
  }

  lemma {:induction false} EntriesStored(py: Python, done: Value, entries: seq<Entry>, ctx: Value) returns (dicts: seq<Value>)
    requires EvalEntries(py, done, entries, ctx).Ok?
    ensures StoredInOrder(py, entries, ctx, dicts) && dicts[0] == done
    ensures EvalEntries(py, done, entries, ctx) == Ok(dicts[|entries|])
    decreases |entries|
  {
    hide Eval;
    if entries == [] {
      dicts := [done];
    } else {
      var more := py.store(done, Eval(py, entries[0].key, ctx).value, Eval(py, entries[0].value, ctx).value).value;
      var rest := EntriesStored(py, more, entries[1..], ctx);
      StoredOneMore(py, entries, ctx, done, rest);
      dicts := [done] + rest;
    }
  }

  /** A dictionary display stores its entries in order into an empty dictionary. */
  lemma DictionaryValue(py: Python, entries: seq<Entry>, ctx: Value) returns (dicts: seq<Value>)
    requires Eval(py, DictDisplay(entries), ctx).Ok?
    ensures StoredInOrder(py, entries, ctx, dicts) && dicts[0] == Dict([])
    ensures Eval(py, DictDisplay(entries), ctx) == Ok(dicts[|entries|])
  {
    DictionaryIsEntries(py, entries, ctx);
    hide Eval;
    dicts := EntriesStored(py, Dict([]), entries, ctx);
  }

  lemma DictionaryIsEntries(py: Python, entries: seq<Entry>, ctx: Value)
    ensures Eval(py, DictDisplay(entries), ctx) == EvalEntries(py, Dict([]), entries, ctx)
  {
  }

  /** An entry that raises, in its key, in its value or on being stored, ends the display with that error. */
  lemma {:induction false} DictionaryRaises(py: Python, done: Value, entries: seq<Entry>, ctx: Value, k: nat, dicts: seq<Value>, error: string)
    requires k < |entries| && StoredInOrder(py, entries[..k], ctx, dicts) && dicts[0] == done
    requires EntryRaises(py, dicts[k], entries[k], ctx, error)
    ensures EvalEntries(py, done, entries, ctx) == Err(error)
    decreases k
  {
    hide Eval;
    if k > 0 {
      assert entries[..k][0] == entries[0] && entries[..k][1..] == entries[1..][..k - 1];
      StoredRest(py, entries[..k], ctx, dicts);
      DictionaryRaises(py, dicts[1], entries[1..], ctx, k - 1, dicts[1..], error);
    }
  }

  lemma StoredRest(py: Python, entries: seq<Entry>, ctx: Value, dicts: seq<Value>)
    requires entries != [] && StoredInOrder(py, entries, ctx, dicts)
    ensures StoredInOrder(py, entries[1..], ctx, dicts[1..]) && Stores(py, entries[0], ctx, dicts[0], dicts[1])
  {
    hide Stores;
    var (es, ds) := (entries[1..], dicts[1..]);
    forall i, j | 0 <= i && j == i + 1 && j < |ds| ensures Stores(py, es[i], ctx, ds[i], ds[j]) {
      assert es[i] == entries[i + 1] && ds[i] == dicts[i + 1] && ds[j] == dicts[j + 1];
    }
  }

  ghost predicate EntryRaises(py: Python, dict: Value, entry: Entry, ctx: Value, error: string) {
    var (k, v) := (Eval(py, entry.key, ctx), Eval(py, entry.value, ctx));
    if k.Err? then k == Err(error)
    else if v.Err? then v == Err(error)
    else py.store(dict, k.value, v.value) == Err(error)
  }

  // ------------------------------------------------------------------ the code

  method EvalNode(py: Python, e: Expr, ctx: Value) returns (r: Evaluated)
    ensures r == Eval(py, e, ctx)
    decreases e, 1
  {
    match e {
      case Constant(value) => return Ok(value);
      case Name(id) => return Ok(ResolvePath(ctx, id));
      case Attribute(base, attr) =>
        var b := EvalNode(py, base, ctx);
        if b.Err? { return b; }
        return Ok(ResolvePath(b.value, attr));
      case Subscript(base, key) =>
        var b := EvalNode(py, base, ctx);
        if b.Err? { return b; }
        var k := EvalNode(py, key, ctx);
        if k.Err? { return k; }
        return Ok(if b.value.None? then Value.None else py.item(b.value, k.value));
      case And(operands) => r := EvalConjunction(py, e, operands, ctx);
      case Or(operands) => r := EvalDisjunction(py, e, operands, ctx);
      case Unary(op, operand) =>
        if op.OtherUnary? { return UNSUPPORTED; }
        var v := EvalNode(py, operand, ctx);
        if v.Err? { return v; }
        return if op.Not? then Ok(Bool(!Truthy(v.value))) else py.unary(op, v.value);
      case Binary(op, left, right) =>
        if op.OtherBinary? { return UNSUPPORTED; }
        var l := EvalNode(py, left, ctx);
        if l.Err? { return l; }
        var s := EvalNode(py, right, ctx);
        if s.Err? { return s; }
        return py.binary(op, l.value, s.value);
      case Compare(first, ops, comparators) =>
        var l := EvalNode(py, first, ctx);
        if l.Err? { return l; }
        r := EvalComparison(py, e, l.value, ops, comparators, ctx);
      case ListDisplay(elements) =>
        var vs := EvalElements(py, e, elements, ctx);
        return if vs.Err? then Err(vs.error) else Ok(List(vs.value));
      case TupleDisplay(elements) =>
        var vs := EvalElements(py, e, elements, ctx);
        return if vs.Err? then Err(vs.error) else Ok(Tuple(vs.value));
      case DictDisplay(entries) => r := EvalDictionary(py, e, entries, ctx);
      case Unsupported => return UNSUPPORTED;
    }
  }

  method EvalConjunction(py: Python, ghost parent: Expr, es: seq<Expr>, ctx: Value) returns (result: Evaluated)
    requires forall i :: 0 <= i < |es| ==> es[i] < parent
    ensures result == EvalAnd(py, es, ctx)
    decreases parent, 0
  {
    result := Ok(Bool(true));
    for i := 0 to |es|
      invariant if i < |es| then EvalAnd(py, es, ctx) == EvalAnd(py, es[i..], ctx) else result == EvalAnd(py, es, ctx)
    {
      result := EvalNode(py, es[i], ctx);
      assert es[i..][0] == es[i] && es[i..][1..] == es[i + 1..];
      if result.Err? || !Truthy(result.value) {
        return;
      }
    }
  }

  method EvalDisjunction(py: Python, ghost parent: Expr, es: seq<Expr>, ctx: Value) returns (result: Evaluated)
    requires forall i :: 0 <= i < |es| ==> es[i] < parent
    ensures result == EvalOr(py, es, ctx)
    decreases parent, 0
  {
    result := Ok(Bool(false));
    for i := 0 to |es|
      invariant if i < |es| then EvalOr(py, es, ctx) == EvalOr(py, es[i..], ctx) else result == EvalOr(py, es, ctx)
    {
      result := EvalNode(py, es[i], ctx);
      assert es[i..][0] == es[i] && es[i..][1..] == es[i + 1..];
      if result.Err? || Truthy(result.value) {
        return;
      }
    }
  }

  method EvalComparison(py: Python, ghost parent: Expr, first: Value, ops: seq<CompareOp>, comparators: seq<Expr>, ctx: Value)
    returns (result: Evaluated)
    requires forall i :: 0 <= i < |comparators| ==> comparators[i] < parent
    ensures result == EvalLinks(py, first, ops, comparators, ctx)
    decreases parent, 0
  {
    var left := first;
    var i := 0;
    while i < |ops| && i < |comparators|
      invariant i <= |ops| && i <= |comparators|
      invariant EvalLinks(py, first, ops, comparators, ctx) == EvalLinks(py, left, ops[i..], comparators[i..], ctx)
    {
      assert ops[i..][1..] == ops[i + 1..] && comparators[i..][1..] == comparators[i + 1..];
      var right := EvalNode(py, comparators[i], ctx);
      if right.Err? {
        return right;
      }
      var holds := py.compare(ops[i], left, right.value);
      if holds.Err? {
        return Err(holds.error);
      }
      if !holds.value {
        return Ok(Bool(false));
      }
      left := right.value;
      i := i + 1;
    }
    return Ok(Bool(true));
  }

  method EvalDictionary(py: Python, ghost parent: Expr, entries: seq<Entry>, ctx: Value) returns (result: Evaluated)
    requires forall i :: 0 <= i < |entries| ==> entries[i].key < parent && entries[i].value < parent
    ensures result == EvalEntries(py, Dict([]), entries, ctx)
    decreases parent, 0
  {
    hide Eval;
    var done := Dict([]);
    for i := 0 to |entries|
      invariant EvalEntries(py, Dict([]), entries, ctx) == EvalEntries(py, done, entries[i..], ctx)
    {
      assert entries[i..][1..] == entries[i + 1..];
      var k := EvalNode(py, entries[i].key, ctx);
      if k.Err? {
        return k;
      }
      var v := EvalNode(py, entries[i].value, ctx);
      if v.Err? {
        return v;
      }
      var more := py.store(done, k.value, v.value);
      if more.Err? {
        return more;
      }
      done := more.value;
    }
    return Ok(done);
  }

  lemma NothingToEvaluate(py: Python, ctx: Value)
    ensures EvalAll(py, [], ctx) == Ok([])
  {
  }

  lemma NextElement(py: Python, es: seq<Expr>, i: nat, ctx: Value)
    requires i < |es|
    ensures var (v, rest) := (Eval(py, es[i], ctx), EvalAll(py, es[i + 1..], ctx));
            EvalAll(py, es[i..], ctx) ==
            if v.Err? then Err(v.error) else if rest.Err? then rest else Ok([v.value] + rest.value)
  {
    hide Eval;
    assert es[i..][0] == es[i] && es[i..][1..] == es[i + 1..];
  }

  method EvalElements(py: Python, ghost parent: Expr, es: seq<Expr>, ctx: Value) returns (values: Result<seq<Value>, string>)
    requires forall i :: 0 <= i < |es| ==> es[i] < parent
    ensures values == EvalAll(py, es, ctx)
    decreases parent, 0
  {
    hide Eval, EvalAll;
    var done: seq<Value> := [];
    NothingToEvaluate(py, ctx);
    assert EvalAll(py, es, ctx).Ok? ==> [] + EvalAll(py, es, ctx).value == EvalAll(py, es, ctx).value;
    assert es[0..] == es;
    for i := 0 to |es|
      invariant EvalAll(py, es, ctx) ==
                var rest := EvalAll(py, es[i..], ctx); if rest.Err? then rest else Ok(done + rest.value)
    {
      NextElement(py, es, i, ctx);
      var v := EvalNode(py, es[i], ctx);
      if v.Err? {
        return Err(v.error);
      }
      ghost var rest := EvalAll(py, es[i + 1..], ctx);
      assert rest.Ok? ==> done + ([v.value] + rest.value) == done + [v.value] + rest.value;
      done := done + [v.value];
    }
    assert es[|es|..] == [] && done + [] == done;
    return Ok(done);
  }
}
