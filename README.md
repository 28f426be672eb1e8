# Post-construction helpers of the hand-written Python parser

This project models `crates/ruff_python_parser/src/parser2/helpers.rs`, the
helpers the recursive-descent parser calls right after it builds an
expression node:

- `remove_str_quotes` narrows a string token's `TextRange` to the text
  between its quotes, dropping the string prefix and the delimiters
  (three characters each for a triple-quoted string, one otherwise);
- `set_expr_ctx` sets the `ExprContext` (Load, Store or Del) of the six
  variants that can denote a storage location;
- `set_expr_range` overwrites the range of a node, one match arm per variant;
- `is_valid_assignment_target` and `is_valid_aug_assignment_target` decide
  whether an expression may stand on the left of `=` or of `+=`.

Files:

- `text.dfy` (module `Text`): `TextSize` as an unsigned 32-bit offset, and
  `TextRange` as a pair of offsets whose start never exceeds its end. The
  `add_start` and `sub_end` operations have preconditions that exclude the
  panics of `ruff_text_size`: a start past the end, and overflow or underflow
  (a panic with overflow checks on, a wrap-around otherwise).
- `ast.dfy` (module `Ast`): `ExprContext`, and `Expr` with a `range` on every
  variant and a `ctx` on Name, Attribute, Subscript, Starred, List and Tuple.
  List and Tuple carry `elts` and Starred carries `value`. The 26 variants
  that `set_expr_range` lists are separate constructors. `Other` stands for
  every variant it does not list (the commented-out `Invalid` and `Literal`
  among them).
- `helpers.dfy` (module `Helpers`): the operations, the lemmas about them,
  and `ExprRef`, a mutable holder for a node (`&mut Expr`) whose two methods
  update the node in place.

The code is unfinished in three places. The model keeps the code as written.
Where the intent is recorded (a doc comment, a commented-out line), it is
modelled as a separate member:

- `set_expr_ctx` recurses into nothing. Its doc comment (lines 10-12) and
  the commented-out lines 21 and 25 say it should recurse into list and
  tuple elements. `SetExprCtx` models the code; `SetExprCtxDeep` models
  that intent. Like the commented-out code, the deep version does not
  descend into a starred expression's value.
- `is_valid_assignment_target` reaches `todo!()` on a list or tuple (line
  69). That includes one under any number of stars, since Starred recurses
  into its value. `IsValidAssignmentTarget` requires that this never
  happens. `IsValidAssignmentTargetAll` is the "all elements valid" check
  that the comment at line 70 intends.
- `set_expr_range` reaches `todo!()` on every variant it does not list
  (line 61). `SetExprRange` requires that its argument is not `Other`.

Finished, `set_expr_ctx` would recurse into list and tuple elements, and
`is_valid_assignment_target` and `set_expr_range` would have no `todo!()`.
The model follows the code as written.

## Model

| member | source | states |
|---|---|---|
| `Text.AddStart` | crates/ruff_python_parser/src/parser2/helpers.rs:7 | moving the start right by `amount` keeps the end, moves the start by exactly `amount`, and stays inside the original range; the start may not pass the end |
| `Text.SubEnd` | crates/ruff_python_parser/src/parser2/helpers.rs:7 | moving the end left by `amount` keeps the start, moves the end by exactly `amount`, and stays inside the original range; there is no underflow and the end may not pass the start |
| `Helpers.QuoteSize` | crates/ruff_python_parser/src/parser2/helpers.rs:6 | a delimiter is 1 or 3 characters long |
| `Helpers.RemoveStrQuotes` | crates/ruff_python_parser/src/parser2/helpers.rs:4-8 | the delimiter is 3 iff the string is triple-quoted, else 1; the new start is start + prefix + delimiter; the new end is end - delimiter; the length shrinks by prefix + 2 * delimiter; the result lies inside the token's range; the token must be at least prefix + 2 * delimiter long |
| `Helpers.RemoveStrQuotesSelectsBody` | crates/ruff_python_parser/src/parser2/helpers.rs:4-8 | if a token's source text is prefix, delimiter, body, delimiter, then the trimmed range selects exactly the body in the source text |
| `Helpers.SetExprCtx` | crates/ruff_python_parser/src/parser2/helpers.rs:13-29 | on the six role-capable variants, the result has role `ctx` and differs from the input only in its role, so a Starred's value and a List's or Tuple's elements are untouched; every other variant is returned unchanged; the range is always kept |
| `Helpers.SetExprCtxIdempotent` | crates/ruff_python_parser/src/parser2/helpers.rs:13-29 | setting the same role twice is the same as setting it once |
| `Helpers.SetExprCtxLastWins` | crates/ruff_python_parser/src/parser2/helpers.rs:13-29 | after two role assignments, only the second one is visible |
| `Helpers.SetExprCtxDeep` | crates/ruff_python_parser/src/parser2/helpers.rs:10-26 | intended deep version: the result differs from the input only in the roles of nodes reachable through list and tuple elements, and every such role-capable node has role `ctx`; non-role-capable nodes are unchanged; on anything but a list or tuple it equals the shallow setter |
| `Helpers.SetExprCtxDeepUnique` | crates/ruff_python_parser/src/parser2/helpers.rs:10-12 | at most one tree differs from the input only in reachable roles and has `ctx` everywhere, so the deep setter's two postconditions fully determine its result |
| `Helpers.SetExprCtxDeepFixpoint` | crates/ruff_python_parser/src/parser2/helpers.rs:10-26 | the deep setter leaves a tree unchanged if and only if every reachable role-capable node already has that role |
| `Helpers.SetExprCtxDeepLastWins` | crates/ruff_python_parser/src/parser2/helpers.rs:10-26 | after two deep role assignments, only the second one is visible |
| `Helpers.SetExprCtxDeepIdempotent` | crates/ruff_python_parser/src/parser2/helpers.rs:10-26 | applying the deep setter twice with the same role is the same as applying it once |
| `Helpers.RoleExampleNestedTuple` | crates/ruff_python_parser/src/parser2/helpers.rs:10-26 | storing into a tuple that holds a name and a list of two names: the deep setter gives all five role-capable nodes (the tuple, its name, the list and the list's two names) Store; the code as written changes only the outer tuple |
| `Helpers.SetExprRange` | crates/ruff_python_parser/src/parser2/helpers.rs:31-62 | for every listed variant, the result has the new range and differs from the input in nothing else: same variant, same role, same starred value, same elements; unlisted variants are excluded because they reach `todo!()` |
| `Helpers.SetExprRangeCommutesWithCtx` | crates/ruff_python_parser/src/parser2/helpers.rs:13-62 | setting the range and setting the role touch different fields, so the order of the two does not matter |
| `Helpers.IsValidAugAssignmentTarget` | crates/ruff_python_parser/src/parser2/helpers.rs:77-79 | the augmented-assignment targets are exactly the role-capable variants that are not a Starred, List or Tuple |
| `Helpers.Unstar` | crates/ruff_python_parser/src/parser2/helpers.rs:67 | looking through any number of stars yields a non-starred expression |
| `Helpers.IsValidAssignmentTarget` | crates/ruff_python_parser/src/parser2/helpers.rs:65-75 | as written: defined only when stripping the stars leaves no list or tuple (otherwise `todo!()`); then, an expression is valid iff stripping its stars leaves a Name, Attribute or Subscript |
| `Helpers.IsValidAssignmentTargetAll` | crates/ruff_python_parser/src/parser2/helpers.rs:65-75 | intended version, total on every variant: every augmented-assignment target is valid, and every valid target is a role-capable variant |
| `Helpers.AssignmentTargetLeaves` | crates/ruff_python_parser/src/parser2/helpers.rs:65-75 | a target is valid iff every leaf of its destructuring pattern is a Name, Attribute or Subscript (stars looked through, lists and tuples expanded); so an empty list or tuple is valid |
| `Helpers.AssignmentTargetAgrees` | crates/ruff_python_parser/src/parser2/helpers.rs:65-75 | wherever the check as written is defined, it agrees with the intended one |
| `Helpers.AugTargetIsAssignmentTarget` | crates/ruff_python_parser/src/parser2/helpers.rs:65-79 | every augmented-assignment target is a valid plain assignment target, under both versions of the check |
| `Helpers.AssignmentTargetIgnoresCtx` | crates/ruff_python_parser/src/parser2/helpers.rs:65-75 | two trees that differ only in reachable roles are equally valid targets under the intended check |
| `Helpers.SetExprCtxKeepsValidity` | crates/ruff_python_parser/src/parser2/helpers.rs:13-29 | setting roles, shallowly or deeply, does not change whether an expression is a valid target under the intended check; setting them shallowly keeps the check as written defined and its result unchanged |
| `Helpers.SetExprRangeKeepsValidity` | crates/ruff_python_parser/src/parser2/helpers.rs:31-62 | setting the range does not change whether an expression is a valid target under the intended check; it also keeps the check as written defined and its result unchanged |
| `Helpers.TargetExamples` | crates/ruff_python_parser/src/parser2/helpers.rs:65-79 | `(a, [b, *c])` is a valid target; it becomes invalid when `c` is replaced by a call; `a.b` and `a[0]` are valid augmented targets; `(a, b)`, `[a, b]` and `*a` are not |
| `Helpers.ExprRef.SetCtx` | crates/ruff_python_parser/src/parser2/helpers.rs:13-29 | in place: the node held becomes `SetExprCtx` of the old node; its range is kept |
| `Helpers.ExprRef.SetRange` | crates/ruff_python_parser/src/parser2/helpers.rs:31-62 | in place: the node held becomes `SetExprRange` of the old node; its role is kept |

`Text.Len`, `Text.ContainsRange`, `Helpers.SameModuloCtx`, `Helpers.CtxReaches`, `Helpers.TargetLeaves`,
`Helpers.Flatten` and the lemmas about them (`SameModuloCtxReflexive`,
`SameModuloCtxTransitive`, `InFlatten`, `ElementLeaves`) are reference
definitions and proof steps for the rows above.

## Left out

- The internals of `ruff_python_ast` and `ruff_text_size` (lines 1-2). Every
  node field except `range`, `ctx`, the List/Tuple elements and the Starred
  value is abstracted away. `TextSize` is modelled as a natural number of at
  most 2^32 - 1. Its overflow and underflow (a panic with overflow checks
  on, a wrap-around otherwise), and `TextRange`'s start-after-end panic,
  are excluded by preconditions.
- The `todo!()` panics at lines 61 and 69 are preconditions, not behaviour.
  A range setter that is total over every variant is not modelled: the code has only the commented-out `Invalid` and
  `Literal` arms (lines 33, 50), and `Other` merges all unlisted variants.
- The doc comment (lines 10-12) says nothing about a Starred node's value.
  The deep setter follows the commented-out lines 21 and 25, which only
  descend into list and tuple elements.
- There is no in-place method for the deep setter, because the code has no
  such operation. Its recursion exists only in commented-out lines.
- The surrounding recursive-descent parser, the tokenizer and error
  recovery. They call these helpers and are not part of this model.
