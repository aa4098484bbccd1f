# python-abc in Dafny

A model of the engine of python-abc, which measures Python source with Fitzpatrick's ABC
software metric: the number of Assignments, Branches (calls) and Conditions. The engine has
two parts:

- The ABC **vector** holds the three counters, the source line that owns them and a
  back-reference to the syntax node that produced them. The package copy
  (python_abc/vector.py) and the older dataclass copy (vector.py at the repository root)
  both appear here.
- The **classifier and fold** live in python_abc/calculate.py.
  - The classifier is a single-dispatch rule table. It turns each syntax-tree node into a
    list of unit or empty vectors, each tagged with its line.
  - `handle_else` is the heuristic that places the condition of an `else`/`elif` on a line.
  - `calculate_abc` walks every node of the tree. It adds each vector that carries a line to
    the file's total and appends the vector's notation (`a`, `b`, `c`) to that line's
    decoration.

The modules follow that structure:

| file | module | models |
|---|---|---|
| wrappers.dfy | Wrappers | `Option` and `Result` |
| ast.dfy | Ast | the node kinds and fields the rules read; every other kind is `Other` (with a line) or `Positionless` |
| vector.dfy | AbcVector | python_abc/vector.py: the vector datatype, `+`, truthiness, `str`, `as_notation`, the four constructors |
| dataclass_vector.dfy | DataclassVector | vector.py: `metric_fields`, the type-checked `+` and the field-driven truthiness |
| calculate.dfy | Classifier | the rule table, `handle_else`, and `ast_assign` with its loops as a method |
| accumulate.dfy | Accumulation | the walk loop of `calculate_abc` as a method, and what its report means |
| line_table.dfy | LineAttribution | a table of how many A, B and C units each node kind puts on a given line, and the proof that the classifier and the decorations follow it |
| scenarios.dfy | Scenarios | worked examples taken from the repository's tests |

The dataclass copy stores the same five fields as the package copy, so both share one
`Vector` datatype. Its `__str__`, `as_notation` and four constructors are the package
copy's text and are modelled by the same members of AbcVector. Its `+` and `bool` go
through `metric_fields`; these are modelled separately and proved equal to the package
copy's.

A Python `lineno=None` argument, and a node without a `lineno`, are both modelled as line 0.
This is faithful because the source tests the argument for truthiness, and 0 and None are
both false.

The tree walk is given to `CalculateAbc` as the sequence of nodes that `ast.walk` yields.
Parsing and the walk order belong to the parser. `TotalIndependentOfWalkOrder` and
`DecorationIndependentOfWalkOrder` show that the total, and the letters on each line, do
not depend on that order. The order of letters inside one line's decoration does depend on
it. So does which missing line `MissingLine` names, when several vectors name lines the
source does not have.

When a vector names a line the source does not have, the dictionary lookup in the source
raises `KeyError`. The model returns this as the `MissingLine` outcome, naming the first
such line.

## Model

| member | source | states |
|---|---|---|
| AbcVector.Add | python_abc/vector.py:26-32 | each counter of `x + y` is the sum of the operands' counters; the line is the left operand's; the node is dropped |
| AbcVector.AddCommutesOnCounters | python_abc/vector.py:26-32 | `x + y` and `y + x` agree on the counters, and are equal when the lines agree |
| AbcVector.AddAssociative | python_abc/vector.py:26-32 | `(x + y) + z == x + (y + z)`, line and node included |
| AbcVector.ZeroIsIdentityOnCounters | python_abc/vector.py:26-32 | an all-zero vector is a two-sided identity on the counters; on the right it keeps the left line and only drops the node |
| AbcVector.TruthyIffWeight | python_abc/vector.py:34-35 | a vector is truthy iff A+B+C > 0, and falsy iff its counters are all zero |
| AbcVector.TruthyAdd | python_abc/vector.py:26-35 | a sum is truthy iff one of its operands is |
| AbcVector.Notation | python_abc/vector.py:40-42 | `as_notation` has length A+B+C; position i holds `a` below A, `b` below A+B, `c` after; its letter counts are the counters |
| AbcVector.NotationSorted | python_abc/vector.py:40-42 | the notation is in letter order |
| AbcVector.NotationAdditive | python_abc/vector.py:26-42 | the letter counts of the notation of `x + y` are those of `x` plus those of `y` |
| AbcVector.NatToString | python_abc/vector.py:37-38 | the decimal rendering of a counter is non-empty, all digits, has no leading zero and has that counter's value |
| AbcVector.ToString | python_abc/vector.py:37-38 | `str(v)` is `<`, A, `, `, B, `, `, C, `>`, with each counter written in decimal digits, without a leading zero, with that counter's value |
| AbcVector.DecimalIsUnique | python_abc/vector.py:37-38 | a number has one decimal spelling without a leading zero, the one `str` gives |
| AbcVector.ToStringIsTheOnlyLayout | python_abc/vector.py:37-38 | any `<p, q, t>` whose parts spell the three counters in decimal is `str(v)` itself |
| AbcVector.ToStringDeterminesCounters | python_abc/vector.py:37-38 | two vectors with the same `str` have the same three counters: the rendering loses nothing |
| AbcVector.SquaredMagnitude | python_abc/vector.py:44-62 | A² + B² + C² is zero exactly when the vector is falsy |
| AbcVector.Empty | python_abc/vector.py:71-73 | `empty` has zero counters and is falsy; its line is the given one if non-zero, else the node's line, else 0; it keeps the node |
| AbcVector.Assignment | python_abc/vector.py:76-78 | `assignment` is the unit (1, 0, 0) and truthy; its line is the given one if non-zero, else the node's; it keeps the node |
| AbcVector.Branch | python_abc/vector.py:81-83 | `branch` is the unit (0, 1, 0), with the same line and node rules |
| AbcVector.Condition | python_abc/vector.py:86-88 | `condition` is the unit (0, 0, 1), with the same line and node rules |
| AbcVector.ConstructorNotations | python_abc/vector.py:71-88 | the notation of `empty` is empty; those of `assignment`, `branch` and `condition` are `a`, `b` and `c` |
| AbcVector.SumAppend | python_abc/vector.py:26-32 | summing a concatenation of vectors from `Vector(0, 0, 0)` adds the two sums |
| AbcVector.SumOfAssignmentUnits | python_abc/vector.py:76-78 | a sum of assignment units has A equal to their number, and B = C = 0 |
| AbcVector.SumOfConditionUnits | python_abc/vector.py:86-88 | a sum of condition units has C equal to their number, and A = B = 0 |
| DataclassVector.KeepMetrics | vector.py:19-24 | the kept fields are exactly the declared fields that are metric names |
| DataclassVector.MetricFields | vector.py:18-24 | `metric_fields` is `assignment`, `branch`, `condition` in that order; `lineno` and `node` are not among them |
| DataclassVector.Plus | vector.py:26-37 | a non-Vector operand fails with the `TypeError` message naming both types and gives no vector; a Vector operand succeeds and the result equals the package copy's `x + y` |
| DataclassVector.AnyPositive | vector.py:39-42 | the `any(...)` over the given metric fields holds iff one of those fields is positive |
| DataclassVector.IsTruthy | vector.py:39-42 | the dataclass's `bool(v)` holds iff the package copy's does, that is iff some counter is positive |
| Classifier.HandleElse | python_abc/calculate.py:14-39 | no else clause gives `empty(node)`; otherwise a condition unit on the clause's first element; an `elif` keeps its own line; any other first element is placed one line above itself, unless it shares the owner's line, where its own line is kept; the line is always at least 1 |
| Classifier.ElementVectorsAt | python_abc/calculate.py:59-62 | a destructured tuple gives one assignment per element, element i's at position i |
| Classifier.BoundByAnyMeansSomeTarget | python_abc/calculate.py:58-64 | the recursive "some target binds x" agrees with the existential over the targets |
| Classifier.TargetVectorsShape | python_abc/calculate.py:59-64 | a target gives one assignment per tuple element, or one for itself, each bound by that target and on the bound node's line |
| Classifier.AssignVectorsShape | python_abc/calculate.py:56-66 | `ast_assign` gives as many vectors as names bound, each an assignment unit for a name some target binds, on that name's line |
| Classifier.AstAssign | python_abc/calculate.py:56-66 | the nested loops build exactly the target-by-target list |
| Classifier.LeafConditions | python_abc/calculate.py:86-92 | the comprehension gives one condition per operand that is neither a boolean operation nor a comparison, on that operand's line, and nothing else |
| Classifier.LeafConditionsCover | python_abc/calculate.py:88-91 | every such operand does get its condition |
| Classifier.ElseRuleLines | python_abc/calculate.py:44-51 | `ast_for` and `ast_while`, like `ast_try` at lines 123-127, give exactly `[handle_else(node)]` |
| Classifier.ConditionalRuleLines | python_abc/calculate.py:105-120 | `ast_if` and `ast_ifexp` give two vectors exactly when the test is an implicit truth test; then the first is a condition unit for the test, on the test's own line; the last is always `handle_else(node)` |
| Classifier.AssignRuleLines | python_abc/calculate.py:55-66 | `ast_assign` gives one vector per name bound, each an assignment unit for a name some target binds, on that name's line |
| Classifier.BoolOpRuleLines | python_abc/calculate.py:86-92 | `ast_boolop` gives exactly the leaf conditions when there is a leaf operand, and otherwise one empty vector on the operation's own line |
| Classifier.AssertRuleLines | python_abc/calculate.py:130-136 | `assert name` gives one condition unit for the name, on the name's line; any other assertion gives one empty vector on the assertion's line |
| Classifier.UnitRuleLines | python_abc/calculate.py:69-102 | an annotated or augmented assignment gives one assignment unit, a call one branch unit, a comparison or `except` clause one condition unit, each on the node's own line |
| Classifier.Classify | python_abc/calculate.py:8-136 | every rule gives a non-empty list, except an assignment binding no name; every vector is a unit or an empty one; every node that has a line gives vectors that have one |
| Classifier.SumOfOne | python_abc/vector.py:26-32 | summing a single vector adds it to `Vector(0, 0, 0)` |
| Classifier.ConditionalCounts | python_abc/calculate.py:105-120 | an `if`/conditional expression counts C = [the test is an implicit truth test] + [there is an else clause], and no A or B |
| Classifier.AssignCounts | python_abc/calculate.py:56-66 | an assignment counts A = the number of names bound, and no B or C |
| Classifier.BoolOpCounts | python_abc/calculate.py:86-92 | a boolean operation counts C = its number of leaf operands, and no A or B |
| Classifier.DefaultRuleIsEmpty | python_abc/calculate.py:8-11 | a node kind without a rule of its own gives exactly `[empty(node)]` |
| Classifier.ClassifyCounts | python_abc/calculate.py:8-136 | summing what a node gives yields that node kind's row of the rule table |
| Classifier.ClassifyNode | python_abc/calculate.py:155 | the dispatch as the walk calls it, with the `Assign` loops run, gives exactly the rule table's list |
| Accumulation.LineCount | python_abc/calculate.py:144-147 | `source.split("\n")` has one more line than the source has line breaks |
| Accumulation.Total | python_abc/calculate.py:161-162 | the running total, started at `Vector(0, 0, 0)` on line 142, carries no line and no node |
| Accumulation.Decorations | python_abc/calculate.py:145-147 | there is a decoration for every source line 1 to the line count, and for no other key |
| Accumulation.AccumulateVectors | python_abc/calculate.py:160-163 | the inner loop either files every vector of a node, leaving the total and decorations of the longer prefix, or stops at the first vector whose line the source lacks |
| Accumulation.CalculateAbc | python_abc/calculate.py:142-163 | when every line named is a source line, the result is the total of all the walk's vectors that carry a line, and each line's decoration is the notations of its vectors in walk order; otherwise the result is `MissingLine` naming the first vector whose line is not a source line |
| Accumulation.TotalAppend | python_abc/calculate.py:160-162 | the total over two runs of vectors is the sum of their totals |
| Accumulation.TotalOfLinedVectors | python_abc/calculate.py:161-162 | skipping vectors without a line loses nothing when those vectors are empty |
| Accumulation.NodeTotal | python_abc/calculate.py:155-162 | what one node adds to the file's total is its row of the rule table |
| Accumulation.WalkLettersPermutation | python_abc/calculate.py:154 | gathering per-node letters does not depend on the order of the walk |
| Accumulation.WalkTotalFollowsTable | python_abc/calculate.py:154-162 | the file's total is the rule table summed over the walked nodes |
| Accumulation.LettersDetermineTotal | python_abc/vector.py:9-24 | two vectors with the same letters, line and node are equal |
| Accumulation.TotalIndependentOfWalkOrder | python_abc/calculate.py:154-162 | walking the same nodes in any order gives the same total |
| Accumulation.DecorationAppend | python_abc/calculate.py:163 | a line's decoration over two runs of vectors is the first run's followed by the second's |
| Accumulation.DecorationOnlyGrows | python_abc/calculate.py:163 | a line's decoration after more vectors extends its earlier value: it only ever grows by appending |
| Accumulation.DecorationFollowsNodes | python_abc/calculate.py:154-163 | a line's letters are those each walked node puts on that line, gathered node by node |
| Accumulation.DecorationIndependentOfWalkOrder | python_abc/calculate.py:154-163 | walking the same nodes in any order puts the same letters on every line |
| Accumulation.DecorationLetters | python_abc/calculate.py:163 | a line's decoration holds exactly the letters of that line's vectors |
| Accumulation.DecorationsAccountForTotal | python_abc/calculate.py:154-163 | read together, the decorations of the source's lines hold exactly the total's letters, per letter, and their lengths add up to A+B+C |
| Accumulation.TotalLetters | python_abc/calculate.py:154-163 | the letters over lines 1 to the line count are the total's letters |
| LineAttribution.HandleElseOnLine | python_abc/calculate.py:26-39 | `handle_else` puts one C on the line the table names for the else clause and nothing on any other line: an `elif`, or a head on the owner's line, keeps its own line; any other head names the line above, and line 0 then means the head's own line; without an else clause it puts nothing anywhere |
| LineAttribution.ElementsOnLine | python_abc/calculate.py:59-62 | a destructured tuple puts on each line one A per element on that line |
| LineAttribution.TargetsOnLine | python_abc/calculate.py:58-66 | an assignment puts on each line one A per name it binds on that line |
| LineAttribution.LeavesOnLineLetters | python_abc/calculate.py:87-92 | the leaf conditions put on each line one C per leaf operand on that line |
| LineAttribution.ClassifyFollowsLineTable | python_abc/calculate.py:8-136 | for every node and every line, the letters the node's vectors put on that line are exactly the table's: an implicit test on the test's line, an else clause on the line `handle_else` names, destructured names and leaf operands on their own lines, every other unit on the node's line |
| LineAttribution.DecorationFollowsLineTable | python_abc/calculate.py:154-163 | each line's decoration holds exactly the letters the per-line table gives that line, gathered over the walked nodes |
| Scenarios.DestructuringAssignsEachName | tests/test_calculate_assignment.py:14 | `a, b, c = d` gives three assignment units on the statement's line, written `aaa` |
| Scenarios.ImplicitTestCounts | tests/test_calculate_condition.py:52-54 | `if a: pass` counts one condition for the test; `if True: pass` counts nothing |
| Scenarios.ElseCountedOnItsOwnLine | tests/test_calculate_condition.py:89-118 | a `for`, `while` or `try` whose else body starts below the `else:` line counts one condition, on the `else:` line |
| Scenarios.ElseOnOneLineIsMisplaced | python_abc/calculate.py:20-24 | `while True: pass` / `else: pass` puts the condition on the `while` line, the misattribution the heuristic's documentation warns about |
| Scenarios.ElifKeepsItsLine | tests/test_radon_test_cases.py:10-19 | for `if a: pass` / `elif b: pass`, the outer `if` counts its test and the `elif` on their own lines; the inner `if` counts its test |
| Scenarios.ElifWalk | tests/test_radon_test_cases.py:10-19 | walking those two nodes decorates the first line `c` and the second `cc`, with total <0, 0, 3> |
| Scenarios.ConditionalExpressionCountsTwice | tests/test_radon_test_cases.py:74 | `c if a else b` on one line counts two conditions on that line |
| Scenarios.AssertCountsOnlyBareNames | tests/test_calculate_condition.py:119-122 | `assert a` counts a condition; `assert a > b` leaves the count to the comparison, which counts one |
| Scenarios.NestedBoolOpsCountLeaves | tests/test_radon_test_cases.py:38-51 | in `a and b or c and d` the `or` counts nothing and each `and` counts its two names |

## Left out

- Parsing and the walk: `ast.parse` and `ast.walk` are library calls. The walk is a parameter of `CalculateAbc`, and every node is assumed to carry a line wherever a rule reads one, as the parser guarantees.
- The node model keeps only what the rules inspect. A tuple nested inside a tuple target counts as one assignment, as in the source, and nothing below it is modelled.
- The magnitude: `get_magnitude_value` and `magnitude` use floating-point `sqrt` and rounding. Only the integer A² + B² + C² is modelled.
- `str(v)`: Python's `int.__str__` is modelled for natural numbers only, because the counters are never negative.
- The debug dump, the verbose rendering with its sorting and column padding, and the `print` calls are output only. The per-line decoration map they read is modelled.
- python_abc/__main__.py: the command line, file discovery, the worker pool and the printing of results are not part of this model.
- Vector.node: kept as an optional value. Object identity is not modelled.
- The dataclass copy's `metric_fields` is computed from a fixed list of declared field names. Python's `dataclasses.fields` reflection is not modelled.
- Classifier.Classify: the list is non-empty for every node except an assignment that binds no name, such as `() = []`, where the source's `ast_assign` returns an empty list. The contract states that exception instead of claiming non-emptiness everywhere.
