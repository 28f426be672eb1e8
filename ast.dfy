/**
 * The part of the parser's expression tree that its post-construction
 * helpers look at.
 *
 * Every node records its source range. The six variants that can denote a
 * storage location (Name, Attribute, Subscript, Starred, List, Tuple) also
 * record whether they are loaded, stored or deleted. List and Tuple own
 * their elements in source order, and Starred owns the starred value. All
 * other fields of the nodes are abstracted away. `Other` stands for every
 * variant the range setter does not list (the invalid placeholder and the
 * literals among them).
 */
module Ast {
  import opened Text

  /** The role of an expression at its use site. */
  datatype ExprContext = Load | Store | Del

  datatype Expr =
    | Name(range: TextRange, ctx: ExprContext)
    | Attribute(range: TextRange, ctx: ExprContext)
    | Subscript(range: TextRange, ctx: ExprContext)
    | Starred(range: TextRange, ctx: ExprContext, value: Expr)
    | List(range: TextRange, ctx: ExprContext, elts: seq<Expr>)
    | Tuple(range: TextRange, ctx: ExprContext, elts: seq<Expr>)
    | Set(range: TextRange)
    | Call(range: TextRange)
    | Dict(range: TextRange)
    | NamedExpr(range: TextRange)
    | Yield(range: TextRange)
    | Await(range: TextRange)
    | Slice(range: TextRange)
    | BoolOp(range: TextRange)
    | IfExp(range: TextRange)
    | Lambda(range: TextRange)
    | Compare(range: TextRange)
    | UnaryOp(range: TextRange)
    | FString(range: TextRange)
    | SetComp(range: TextRange)
    | BinOp(range: TextRange)
    | DictComp(range: TextRange)
    | ListComp(range: TextRange)
    | GeneratorExp(range: TextRange)
    | YieldFrom(range: TextRange)
    | FormattedValue(range: TextRange)
    | Other(range: TextRange)
  {
    /** The variants that carry an `ExprContext`. */
    predicate HasCtx()
    {
      Name? || Attribute? || Subscript? || Starred? || List? || Tuple?
    }

    /** The variants that own a sequence of elements. */
    predicate IsSequence()
    {
      List? || Tuple?
    }

    /** The variants that denote exactly one storage location. */
    predicate IsSingleLocation()
    {
      Name? || Attribute? || Subscript?
    }
  }
}
