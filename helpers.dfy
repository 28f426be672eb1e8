/**
 * The post-construction helpers of the hand-written parser: trimming the
 * quotes off a string token's range, setting the role (`ExprContext`) of an
 * expression, overwriting the range of a node, and deciding whether an
 * expression may stand on the left of `=` or of an augmented assignment.
 *
 * Where the code is unfinished, the model keeps the code as written and
 * states the intended behaviour as a separate member:
 * - `SetExprCtx` sets the role of the node alone; `SetExprCtxDeep` also
 *   recurses into list and tuple elements, as the doc comment describes.
 * - `IsValidAssignmentTarget` panics on lists and tuples, which its
 *   precondition excludes; `IsValidAssignmentTargetAll` accepts a list or
 *   tuple whose elements are all valid, as the commented-out line intends.
 * - `SetExprRange` panics on the variants it does not list, which its
 *   precondition excludes.
 */
module Helpers {
  import opened Text
  import opened Ast

  // ---------------------------------------------------------------------
  // remove_str_quotes
  // ---------------------------------------------------------------------

  /** Length of one string delimiter: `"""`/`'''` or `"`/`'`. */
  function QuoteSize(isTripleQuote: bool): (q: TextSize)
    ensures q == 1 || q == 3
  {
    if isTripleQuote then 3 else 1
  }

  /**
   * The range of a string token without its prefix and quotes. The token
   * must be long enough to hold the prefix and both delimiters; otherwise
   * the range arithmetic panics.
   */
  function RemoveStrQuotes(strRange: TextRange, prefixSize: TextSize, isTripleQuote: bool): (r: TextRange)
    requires prefixSize + 2 * QuoteSize(isTripleQuote) <= Len(strRange)
    ensures QuoteSize(isTripleQuote) == (if isTripleQuote then 3 else 1)
    ensures r.start == strRange.start + prefixSize + QuoteSize(isTripleQuote)
    ensures r.end == strRange.end - QuoteSize(isTripleQuote)
    ensures Len(r) == Len(strRange) - prefixSize - 2 * QuoteSize(isTripleQuote)
    ensures ContainsRange(strRange, r)
  {
    var quoteSize := QuoteSize(isTripleQuote);
    SubEnd(AddStart(strRange, quoteSize + prefixSize), quoteSize)
  }

  /**
   * Read against the source text: if the token's text is a prefix, an
   * opening delimiter, a body and a closing delimiter, the trimmed range
   * covers exactly the body. Offsets index the text's units (UTF-8 bytes
   * in the parser), so the unit type is left generic.
   */
  lemma RemoveStrQuotesSelectsBody<T>(
    text: seq<T>, strRange: TextRange, isTripleQuote: bool,
    prefix: seq<T>, delimiter: seq<T>, body: seq<T>)
    requires strRange.end <= |text|
    requires |delimiter| == QuoteSize(isTripleQuote)
    requires text[strRange.start..strRange.end] == prefix + delimiter + body + delimiter
    ensures |prefix| <= MAX_TEXT_SIZE
    ensures |prefix| + 2 * QuoteSize(isTripleQuote) <= Len(strRange)
    ensures var r := RemoveStrQuotes(strRange, |prefix|, isTripleQuote);
            r.end <= |text| && text[r.start..r.end] == body
  {
    var token := text[strRange.start..strRange.end];
    assert |token| == Len(strRange);
    var r := RemoveStrQuotes(strRange, |prefix|, isTripleQuote);
    var from := |prefix| + |delimiter|;
    assert r.start == strRange.start + from && r.end == r.start + |body|;
    forall k | 0 <= k < |body| ensures text[r.start + k] == body[k] {
      assert text[r.start + k] == token[from + k];
    }
  }

  // ---------------------------------------------------------------------
  // set_expr_ctx, as written and as documented
  // ---------------------------------------------------------------------

  /**
   * Sets the role of a node that can denote a storage location; every other
   * node is left as it is. The elements of a list or tuple and the value of
   * a starred expression keep their roles. The first two postconditions
   * are corollaries of the update equalities, spelled out for readers.
   */
  function SetExprCtx(expr: Expr, ctx: ExprContext): (r: Expr)
    ensures r.range == expr.range && r.HasCtx() == expr.HasCtx()
    ensures expr.HasCtx() ==> r.ctx == ctx
    ensures expr.HasCtx() ==> r == expr.(ctx := ctx)
    ensures !expr.HasCtx() ==> r == expr
  {
    match expr
    case Name(range, _) => Name(range, ctx)
    case Attribute(range, _) => Attribute(range, ctx)
    case Subscript(range, _) => Subscript(range, ctx)
    case Starred(range, _, value) => Starred(range, ctx, value)
    case List(range, _, elts) => List(range, ctx, elts)
    case Tuple(range, _, elts) => Tuple(range, ctx, elts)
    case _ => expr
  }

  /** Setting the same role twice is the same as setting it once. */
  lemma SetExprCtxIdempotent(expr: Expr, ctx: ExprContext)
    ensures SetExprCtx(SetExprCtx(expr, ctx), ctx) == SetExprCtx(expr, ctx)
  {
  }

  /** Of two successive role assignments only the second is visible. */
  lemma SetExprCtxLastWins(expr: Expr, first: ExprContext, second: ExprContext)
    ensures SetExprCtx(SetExprCtx(expr, first), second) == SetExprCtx(expr, second)
  {
  }

  /**
   * Every role-capable node reachable from `expr` through list and tuple
   * elements has role `ctx`.
   */
  predicate CtxReaches(expr: Expr, ctx: ExprContext)
    decreases expr
  {
    && (expr.HasCtx() ==> expr.ctx == ctx)
    && (expr.IsSequence() ==> forall i :: 0 <= i < |expr.elts| ==> CtxReaches(expr.elts[i], ctx))
  }

  /**
   * `b` differs from `a` at most in the roles of the nodes reachable through
   * list and tuple elements: same variants, same ranges, same lengths, and
   * a starred node's value is untouched.
   */
  predicate SameModuloCtx(a: Expr, b: Expr)
    decreases a
  {
    match a
    case List(range, _, elts) =>
      && b.List? && b.range == range && |b.elts| == |elts|
      && forall i :: 0 <= i < |elts| ==> SameModuloCtx(elts[i], b.elts[i])
    case Tuple(range, _, elts) =>
      && b.Tuple? && b.range == range && |b.elts| == |elts|
      && forall i :: 0 <= i < |elts| ==> SameModuloCtx(elts[i], b.elts[i])
    case Name(range, _) => b.Name? && b.range == range
    case Attribute(range, _) => b.Attribute? && b.range == range
    case Subscript(range, _) => b.Subscript? && b.range == range
    case Starred(range, _, value) => b.Starred? && b.range == range && b.value == value
    case _ => a == b
  }

  /**
   * The documented behaviour: sets the role of the node and, for a list or
   * tuple, of all its elements, recursively. As in the commented-out code,
   * it does not descend into the value of a starred expression.
   */
  function SetExprCtxDeep(expr: Expr, ctx: ExprContext): (r: Expr)
    ensures SameModuloCtx(expr, r)
    ensures CtxReaches(r, ctx)
    ensures !expr.IsSequence() ==> r == SetExprCtx(expr, ctx)
    decreases expr
  {
    match expr
    case List(range, _, elts) =>
      List(range, ctx, seq(|elts|, i requires 0 <= i < |elts| => SetExprCtxDeep(elts[i], ctx)))
    case Tuple(range, _, elts) =>
      Tuple(range, ctx, seq(|elts|, i requires 0 <= i < |elts| => SetExprCtxDeep(elts[i], ctx)))
    case _ => SetExprCtx(expr, ctx)
  }

  lemma {:induction false} SameModuloCtxReflexive(expr: Expr)
    ensures SameModuloCtx(expr, expr)
    decreases expr
  {
    if expr.IsSequence() {
      forall i | 0 <= i < |expr.elts| ensures SameModuloCtx(expr.elts[i], expr.elts[i]) {
        SameModuloCtxReflexive(expr.elts[i]);
      }
    }
  }

  lemma {:induction false} SameModuloCtxTransitive(a: Expr, b: Expr, c: Expr)
    requires SameModuloCtx(a, b) && SameModuloCtx(b, c)
    ensures SameModuloCtx(a, c)
    decreases a
  {
    if a.IsSequence() {
      forall i | 0 <= i < |a.elts| ensures SameModuloCtx(a.elts[i], c.elts[i]) {
        SameModuloCtxTransitive(a.elts[i], b.elts[i], c.elts[i]);
      }
    }
  }

  /**
   * The two postconditions of `SetExprCtxDeep` determine its result: only
   * one tree differs from `expr` in roles alone and has `ctx` everywhere.
   */
  lemma {:induction false} SetExprCtxDeepUnique(expr: Expr, ctx: ExprContext, a: Expr, b: Expr)
    requires SameModuloCtx(expr, a) && CtxReaches(a, ctx)
    requires SameModuloCtx(expr, b) && CtxReaches(b, ctx)
    ensures a == b
    decreases expr
  {
    if expr.IsSequence() {
      forall i | 0 <= i < |expr.elts| ensures a.elts[i] == b.elts[i] {
        SetExprCtxDeepUnique(expr.elts[i], ctx, a.elts[i], b.elts[i]);
      }
      assert a.elts == b.elts;
    }
  }

  /** A tree is left unchanged by the deep setter exactly when it already has the role everywhere. */
  lemma {:induction false} SetExprCtxDeepFixpoint(expr: Expr, ctx: ExprContext)
    ensures SetExprCtxDeep(expr, ctx) == expr <==> CtxReaches(expr, ctx)
  {
    if CtxReaches(expr, ctx) {
      SameModuloCtxReflexive(expr);
      SetExprCtxDeepUnique(expr, ctx, SetExprCtxDeep(expr, ctx), expr);
    }
  }

  /** Of two successive deep role assignments only the second is visible. */
  lemma {:induction false} SetExprCtxDeepLastWins(expr: Expr, first: ExprContext, second: ExprContext)
    ensures SetExprCtxDeep(SetExprCtxDeep(expr, first), second) == SetExprCtxDeep(expr, second)
  {
    var once := SetExprCtxDeep(expr, first);
    var twice := SetExprCtxDeep(once, second);
    SameModuloCtxTransitive(expr, once, twice);
    SetExprCtxDeepUnique(expr, second, twice, SetExprCtxDeep(expr, second));
  }

  /** Setting the same role deeply twice is the same as setting it once. */
  lemma {:induction false} SetExprCtxDeepIdempotent(expr: Expr, ctx: ExprContext)
    ensures SetExprCtxDeep(SetExprCtxDeep(expr, ctx), ctx) == SetExprCtxDeep(expr, ctx)
  {
    SetExprCtxDeepFixpoint(SetExprCtxDeep(expr, ctx), ctx);
  }

  /**
   * The nested example `(x, [y, z])` stored into: the deep setter gives all
   * five role-capable nodes (the tuple, `x`, the list, `y`, `z`) the role Store, while the setter as written
   * leaves the inner list and names loaded.
   */
  lemma RoleExampleNestedTuple(rg: TextRange)
    ensures var inner := List(rg, Load, [Name(rg, Load), Name(rg, Load)]);
            var outer := Tuple(rg, Load, [Name(rg, Load), inner]);
            && SetExprCtxDeep(outer, Store)
               == Tuple(rg, Store, [Name(rg, Store), List(rg, Store, [Name(rg, Store), Name(rg, Store)])])
            && SetExprCtx(outer, Store) == Tuple(rg, Store, [Name(rg, Load), inner])
  {
    var inner := List(rg, Load, [Name(rg, Load), Name(rg, Load)]);
    var outer := Tuple(rg, Load, [Name(rg, Load), inner]);
    SetExprCtxDeepUnique(outer, Store, SetExprCtxDeep(outer, Store),
      Tuple(rg, Store, [Name(rg, Store), List(rg, Store, [Name(rg, Store), Name(rg, Store)])]));
  }

  // ---------------------------------------------------------------------
  // set_expr_range
  // ---------------------------------------------------------------------

  /**
   * Overwrites the range of a node; nothing else changes. The variants the
   * code does not list (gathered in `Other`) reach `todo!()`. The
   * postconditions after the update equality are its corollaries, spelled
   * out for readers.
   */
  function SetExprRange(expr: Expr, range: TextRange): (r: Expr)
    requires !expr.Other?
    ensures r.range == range
    ensures r == expr.(range := range)
    ensures r.HasCtx() == expr.HasCtx() && (expr.HasCtx() ==> r.ctx == expr.ctx)
    ensures expr.Starred? ==> r.Starred? && r.value == expr.value
    ensures expr.IsSequence() ==> r.List? == expr.List? && r.elts == expr.elts
  {
    match expr
    case Name(_, ctx) => Name(range, ctx)
    case Set(_) => Set(range)
    case Call(_) => Call(range)
    case Dict(_) => Dict(range)
    case List(_, ctx, elts) => List(range, ctx, elts)
    case NamedExpr(_) => NamedExpr(range)
    case Yield(_) => Yield(range)
    case Await(_) => Await(range)
    case Slice(_) => Slice(range)
    case Tuple(_, ctx, elts) => Tuple(range, ctx, elts)
    case BoolOp(_) => BoolOp(range)
    case IfExp(_) => IfExp(range)
    case Lambda(_) => Lambda(range)
    case Compare(_) => Compare(range)
    case UnaryOp(_) => UnaryOp(range)
    case FString(_) => FString(range)
    case SetComp(_) => SetComp(range)
    case Starred(_, ctx, value) => Starred(range, ctx, value)
    case BinOp(_) => BinOp(range)
    case DictComp(_) => DictComp(range)
    case ListComp(_) => ListComp(range)
    case Attribute(_, ctx) => Attribute(range, ctx)
    case GeneratorExp(_) => GeneratorExp(range)
    case Subscript(_, ctx) => Subscript(range, ctx)
    case YieldFrom(_) => YieldFrom(range)
    case FormattedValue(_) => FormattedValue(range)
  }

  /** The range setter and the role setter touch disjoint fields, so they commute. */
  lemma SetExprRangeCommutesWithCtx(expr: Expr, range: TextRange, ctx: ExprContext)
    requires !expr.Other?
    ensures SetExprRange(SetExprCtx(expr, ctx), range) == SetExprCtx(SetExprRange(expr, range), ctx)
  {
  }

  // ---------------------------------------------------------------------
  // is_valid_assignment_target, is_valid_aug_assignment_target
  // ---------------------------------------------------------------------

  /**
   * An augmented assignment (`+=` and the like) targets a single storage
   * location: a name, an attribute or a subscript. Such a target can be
   * given a role and is never a destructuring pattern.
   */
  function IsValidAugAssignmentTarget(expr: Expr): (b: bool)
    ensures b <==> expr.HasCtx() && !expr.Starred? && !expr.IsSequence()
  {
    expr.Name? || expr.Attribute? || expr.Subscript?
  }

  /** The expression under any number of `*` wrappers. */
  function Unstar(expr: Expr): (base: Expr)
    ensures !base.Starred?
    decreases expr
  {
    if expr.Starred? then Unstar(expr.value) else expr
  }

  /**
   * The target check as written. A list or tuple, bare or under stars,
   * reaches `todo!()`, which the precondition excludes. An expression is then
   * valid exactly when, with its stars removed, it is a single location.
   */
  function IsValidAssignmentTarget(expr: Expr): (b: bool)
    requires !Unstar(expr).IsSequence()
    ensures b <==> IsValidAugAssignmentTarget(Unstar(expr))
    decreases expr
  {
    match expr
    case Starred(_, _, value) => IsValidAssignmentTarget(value)
    case List(_, _, _) => assert false; false
    case Tuple(_, _, _) => assert false; false
    case Name(_, _) => true
    case Attribute(_, _) => true
    case Subscript(_, _) => true
    case _ => false
  }

  /**
   * The intended target check: a list or tuple is valid when every element
   * is (an empty one is valid). Every valid target can be given a role.
   */
  function IsValidAssignmentTargetAll(expr: Expr): (b: bool)
    ensures IsValidAugAssignmentTarget(expr) ==> b
    ensures b ==> expr.HasCtx()
    decreases expr
  {
    match expr
    case Starred(_, _, value) => IsValidAssignmentTargetAll(value)
    case List(_, _, elts) => forall i :: 0 <= i < |elts| ==> IsValidAssignmentTargetAll(elts[i])
    case Tuple(_, _, elts) => forall i :: 0 <= i < |elts| ==> IsValidAssignmentTargetAll(elts[i])
    case _ => IsValidAugAssignmentTarget(expr)
  }

  /** The concatenation of a sequence of sequences. */
  function Flatten<T>(parts: seq<seq<T>>): (flat: seq<T>)
    ensures |parts| == 0 ==> flat == []
    decreases |parts|
  {
    if |parts| == 0 then [] else parts[0] + Flatten(parts[1..])
  }

  lemma {:induction false} InFlatten<T>(parts: seq<seq<T>>, x: T)
    ensures x in Flatten(parts) <==> exists i :: 0 <= i < |parts| && x in parts[i]
    decreases |parts|
  {
    if |parts| > 0 {
      InFlatten(parts[1..], x);
      if x in Flatten(parts[1..]) {
        var i :| 0 <= i < |parts[1..]| && x in parts[1..][i];
        assert x in parts[i + 1];
      }
      if exists i :: 0 <= i < |parts| && x in parts[i] {
        var i :| 0 <= i < |parts| && x in parts[i];
        if i > 0 {
          assert x in parts[1..][i - 1];
        }
      }
    }
  }

  /**
   * The leaves of a destructuring pattern, left to right: stars are looked
   * through, lists and tuples are expanded, anything else is a leaf.
   */
  function TargetLeaves(expr: Expr): seq<Expr>
    decreases expr
  {
    match expr
    case Starred(_, _, value) => TargetLeaves(value)
    case List(_, _, elts) => Flatten(seq(|elts|, i requires 0 <= i < |elts| => TargetLeaves(elts[i])))
    case Tuple(_, _, elts) => Flatten(seq(|elts|, i requires 0 <= i < |elts| => TargetLeaves(elts[i])))
    case _ => [expr]
  }

  /** A target is valid exactly when every leaf of its pattern is a single storage location. */
  lemma {:induction false} AssignmentTargetLeaves(expr: Expr)
    ensures IsValidAssignmentTargetAll(expr)
            <==> forall x | x in TargetLeaves(expr) :: IsValidAugAssignmentTarget(x)
    decreases expr
  {
    match expr
    case Starred(_, _, value) => AssignmentTargetLeaves(value);
    case List(_, _, elts) => ElementLeaves(expr);
    case Tuple(_, _, elts) => ElementLeaves(expr);
    case _ =>
  }

  lemma {:induction false} ElementLeaves(expr: Expr)
    requires expr.IsSequence()
    ensures IsValidAssignmentTargetAll(expr)
            <==> forall x | x in TargetLeaves(expr) :: IsValidAugAssignmentTarget(x)
    decreases expr, 0
  {
    var elts := expr.elts;
    var parts := seq(|elts|, i requires 0 <= i < |elts| => TargetLeaves(elts[i]));
    assert TargetLeaves(expr) == Flatten(parts);
    forall i | 0 <= i < |elts|
      ensures IsValidAssignmentTargetAll(elts[i])
              <==> forall x | x in parts[i] :: IsValidAugAssignmentTarget(x)
    {
      AssignmentTargetLeaves(elts[i]);
    }
    forall x | true ensures x in Flatten(parts) <==> exists i :: 0 <= i < |parts| && x in parts[i] {
      InFlatten(parts, x);
    }
  }

  /** Where the check as written is defined, it agrees with the intended one. */
  lemma {:induction false} AssignmentTargetAgrees(expr: Expr)
    requires !Unstar(expr).IsSequence()
    ensures IsValidAssignmentTarget(expr) == IsValidAssignmentTargetAll(expr)
    decreases expr
  {
    if expr.Starred? {
      AssignmentTargetAgrees(expr.value);
    }
  }

  /** A single storage location is a valid target of a plain assignment too. */
  lemma AugTargetIsAssignmentTarget(expr: Expr)
    requires IsValidAugAssignmentTarget(expr)
    ensures !Unstar(expr).IsSequence() && IsValidAssignmentTarget(expr)
    ensures IsValidAssignmentTargetAll(expr)
  {
  }

  /** Validity does not depend on roles. */
  lemma {:induction false} AssignmentTargetIgnoresCtx(a: Expr, b: Expr)
    requires SameModuloCtx(a, b)
    ensures IsValidAssignmentTargetAll(a) == IsValidAssignmentTargetAll(b)
    decreases a
  {
    if a.IsSequence() {
      forall i | 0 <= i < |a.elts|
        ensures IsValidAssignmentTargetAll(a.elts[i]) == IsValidAssignmentTargetAll(b.elts[i])
      {
        AssignmentTargetIgnoresCtx(a.elts[i], b.elts[i]);
      }
    }
  }

  /** Setting roles, shallowly or deeply, does not change validity under either check. */
  lemma {:induction false} SetExprCtxKeepsValidity(expr: Expr, ctx: ExprContext)
    ensures IsValidAssignmentTargetAll(SetExprCtxDeep(expr, ctx)) == IsValidAssignmentTargetAll(expr)
    ensures IsValidAssignmentTargetAll(SetExprCtx(expr, ctx)) == IsValidAssignmentTargetAll(expr)
    ensures !Unstar(expr).IsSequence() ==>
              && !Unstar(SetExprCtx(expr, ctx)).IsSequence()
              && IsValidAssignmentTarget(SetExprCtx(expr, ctx)) == IsValidAssignmentTarget(expr)
  {
    AssignmentTargetIgnoresCtx(expr, SetExprCtxDeep(expr, ctx));
  }

  /** Setting the range does not change validity under either check. */
  lemma SetExprRangeKeepsValidity(expr: Expr, range: TextRange)
    requires !expr.Other?
    ensures IsValidAssignmentTargetAll(SetExprRange(expr, range)) == IsValidAssignmentTargetAll(expr)
    ensures !Unstar(expr).IsSequence() ==>
              && !Unstar(SetExprRange(expr, range)).IsSequence()
              && IsValidAssignmentTarget(SetExprRange(expr, range)) == IsValidAssignmentTarget(expr)
  {
  }


  /**
   * `(a, [b, *c])` is a valid target; with a call in place of `c` it is
   * not. `a.b` and `a[0]` are valid augmented targets; `(a, b)`, `[a, b]`
   * and `*a` are not.
   */
  lemma TargetExamples(rg: TextRange)
    ensures var a, b, c := Name(rg, Load), Name(rg, Load), Name(rg, Load);
            && IsValidAssignmentTargetAll(Tuple(rg, Load, [a, List(rg, Load, [b, Starred(rg, Load, c)])]))
            && !IsValidAssignmentTargetAll(Tuple(rg, Load, [a, List(rg, Load, [b, Starred(rg, Load, Call(rg))])]))
    ensures var a, b := Name(rg, Load), Name(rg, Load);
            && IsValidAugAssignmentTarget(Attribute(rg, Load))
            && IsValidAugAssignmentTarget(Subscript(rg, Load))
            && !IsValidAugAssignmentTarget(Tuple(rg, Load, [a, b]))
            && !IsValidAugAssignmentTarget(List(rg, Load, [a, b]))
            && !IsValidAugAssignmentTarget(Starred(rg, Load, a))
  {
    var a, b, c := Name(rg, Load), Name(rg, Load), Name(rg, Load);
    var bad := List(rg, Load, [b, Starred(rg, Load, Call(rg))]);
    assert !IsValidAssignmentTargetAll(bad.elts[1]);
    var whole := Tuple(rg, Load, [a, bad]);
    assert !IsValidAssignmentTargetAll(whole.elts[1]);
  }

  // ---------------------------------------------------------------------
  // The helpers' in-place interface
  // ---------------------------------------------------------------------

  /**
   * An exclusively borrowed expression node (`&mut Expr`): the setters
   * overwrite one field of the node it holds.
   */
  class ExprRef {
    var expr: Expr

    constructor (expr: Expr)
      ensures this.expr == expr
    {
      this.expr := expr;
    }

    /** `set_expr_ctx` on the held node. */
    method SetCtx(ctx: ExprContext)
      modifies this
      ensures expr == SetExprCtx(old(expr), ctx)
      ensures expr.range == old(expr).range
    {
      if expr.HasCtx() {
        expr := expr.(ctx := ctx);
      }
    }

    /** `set_expr_range` on the held node. */
    method SetRange(range: TextRange)
      requires !expr.Other?
      modifies this
      ensures expr == SetExprRange(old(expr), range)
      ensures old(expr).HasCtx() ==> expr.ctx == old(expr).ctx
    {
      expr := expr.(range := range);
    }
  }
}
