/**
  The node classifier of python_abc/calculate.py: a rule per node kind, each turning one
  syntax-tree node into a list of unit or empty ABC vectors, each tagged with the line
  that owns it. The walk over the tree visits every node on its own, so a rule counts
  only what no other node's visit will count.
*/
module Classifier {
  import opened Wrappers
  import opened Ast
  import opened AbcVector

  // ---------------------------------------------------------------- positions the rules read

  /** An assignment target the rule will read a line from: each element of a tuple, or the target itself. */
  predicate TargetPositioned(t: Node) {
    if t.Tuple? then forall e :: e in t.elts ==> HasLineno(e) else HasLineno(t)
  }

  /** The first element of the node's else clause (for a conditional expression, its alternative). */
  function ElseHead(n: Node): Option<Node> {
    if n.For? || n.While? || n.Try? || n.If? then (if n.orelse == [] then None else Some(n.orelse[0]))
    else if n.IfExp? then Some(n.alternative)
    else None
  }

  /**
    The nodes whose `lineno` a rule reads carry one. The parser gives a line to every
    statement and expression, so every node of a parsed tree meets this.
  */
  predicate WellPositioned(n: Node) {
    && (ElseHead(n).Some? ==> HasLineno(ElseHead(n).value))
    && (n.Assign? ==> forall t :: t in n.targets ==> TargetPositioned(t))
    && (n.BoolOp? ==> forall v :: v in n.values ==> HasLineno(v))
    && (n.If? || n.IfExp? ==> HasLineno(n.test))
  }

  // ---------------------------------------------------------------- else clauses

  /**
    `handle_else`: no else clause gives an empty vector; otherwise a condition on the first
    element of the clause. An `elif` (the first element is an `If`) keeps its own line; any
    other first element stands one line below its `else:`, so the line above it is taken,
    unless that element sits on the owner's own line, where its line is kept.
  */
  function HandleElse(n: Node): (v: Vector)
    requires ElseHead(n).Some? ==> HasLineno(ElseHead(n).value)
    ensures ElseHead(n).None? ==> v == Empty(n, 0)
    ensures ElseHead(n).Some? ==>
              var head := ElseHead(n).value;
              && v.assignment == 0 && v.branch == 0 && v.condition == 1
              && v.node == Some(head)
              && (head.If? ==> v.lineno == head.lineno)
              && (!head.If? && head.lineno == n.lineno ==> v.lineno == head.lineno)
              && (!head.If? && head.lineno != n.lineno && head.lineno > 1 ==> v.lineno == head.lineno - 1)
              && (!head.If? && head.lineno != n.lineno && head.lineno == 1 ==> v.lineno == 1)
              && v.lineno >= 1
  {
    match ElseHead(n)
    case None => Empty(n, 0)
    case Some(head) =>
      var lineno := if !head.If? then (if head.lineno != n.lineno then head.lineno - 1 else head.lineno) else head.lineno;
      Condition(head, lineno)
  }

  // ---------------------------------------------------------------- assignments

  /** One assignment per element of a destructured tuple, in order. */
  function ElementVectors(elts: seq<Node>): seq<Vector>
    requires forall e :: e in elts ==> HasLineno(e)
  {
    if elts == [] then [] else ElementVectors(elts[..|elts| - 1]) + [Assignment(elts[|elts| - 1], 0)]
  }

  lemma {:induction false} ElementVectorsAt(elts: seq<Node>)
    requires forall e :: e in elts ==> HasLineno(e)
    ensures |ElementVectors(elts)| == |elts|
    ensures forall i :: 0 <= i < |elts| ==> ElementVectors(elts)[i] == Assignment(elts[i], 0)
  {
    if elts != [] {
      var init := elts[..|elts| - 1];
      assert forall e :: e in init ==> e in elts;
      ElementVectorsAt(init);
    }
  }

  /** `x` is bound by target `t`: an element of it when it is a tuple, else `t` itself. */
  predicate BoundBy(t: Node, x: Node) {
    if t.Tuple? then x in t.elts else x == t
  }

  /** Some target of `targets` binds `x`. */
  predicate BoundByAny(targets: seq<Node>, x: Node) {
    targets != [] && (BoundBy(targets[|targets| - 1], x) || BoundByAny(targets[..|targets| - 1], x))
  }

  lemma {:induction false} BoundByAnyMeansSomeTarget(targets: seq<Node>, x: Node)
    ensures BoundByAny(targets, x) <==> exists t :: t in targets && BoundBy(t, x)
  {
    if targets != [] {
      var init, last := targets[..|targets| - 1], targets[|targets| - 1];
      BoundByAnyMeansSomeTarget(init, x);
      assert forall t :: t in targets <==> t in init || t == last;
    }
  }

  /** `v` is an assignment unit, on the line of a node that one of `targets` binds. */
  predicate AssignmentFrom(targets: seq<Node>, v: Vector) {
    && v.assignment == 1 && v.branch == 0 && v.condition == 0
    && v.node.Some? && BoundByAny(targets, v.node.value)
    && v.lineno == LinenoOrZero(v.node.value) >= 1
  }

  /** What one assignment target contributes. */
  function TargetVectors(t: Node): seq<Vector>
    requires TargetPositioned(t)
  {
    if t.Tuple? then ElementVectors(t.elts) else [Assignment(t, 0)]
  }

  lemma TargetVectorsShape(t: Node)
    requires TargetPositioned(t)
    ensures |TargetVectors(t)| == if t.Tuple? then |t.elts| else 1
    ensures forall v :: v in TargetVectors(t) ==> AssignmentFrom([t], v)
  {
    var r := TargetVectors(t);
    assert [t][..0] == [];
    if t.Tuple? {
      ElementVectorsAt(t.elts);
    }
    forall v | v in r ensures AssignmentFrom([t], v) {
      if t.Tuple? {
        var i :| 0 <= i < |r| && r[i] == v;
        assert v == Assignment(t.elts[i], 0);
      }
    }
  }

  /** The vectors of an `Assign`, target by target. */
  function AssignVectors(targets: seq<Node>): seq<Vector>
    requires forall t :: t in targets ==> TargetPositioned(t)
  {
    if targets == [] then [] else AssignVectors(targets[..|targets| - 1]) + TargetVectors(targets[|targets| - 1])
  }

  /**
    An `Assign` gives one assignment unit per non-tuple target and one per element of each
    tuple target, each on its own node's line, and nothing else.
  */
  lemma {:induction false} AssignVectorsShape(targets: seq<Node>)
    requires forall t :: t in targets ==> TargetPositioned(t)
    ensures |AssignVectors(targets)| == DestructuredCount(targets)
    ensures forall v :: v in AssignVectors(targets) ==> AssignmentFrom(targets, v)
  {
    if targets != [] {
      var init, t := targets[..|targets| - 1], targets[|targets| - 1];
      assert forall x :: x in init ==> x in targets;
      AssignVectorsShape(init);
      var r0, r1 := AssignVectors(init), TargetVectors(t);
      TargetVectorsShape(t);
      forall v | v in r0 ensures AssignmentFrom(targets, v) {
        assert targets[..|targets| - 1] == init;
      }
      forall v | v in r1 ensures AssignmentFrom(targets, v) {
        assert AssignmentFrom([t], v);
        BoundByAnyMeansSomeTarget([t], v.node.value);
        assert BoundBy(t, v.node.value);
      }
    }
  }

  /** How many names an `Assign` binds: each element of a tuple target, and each other target once. */
  function DestructuredCount(targets: seq<Node>): nat {
    if targets == [] then 0
    else DestructuredCount(targets[..|targets| - 1]) + (if targets[|targets| - 1].Tuple? then |targets[|targets| - 1].elts| else 1)
  }

  /** `ast_assign`: the nested loops that append to a local list. */
  method AstAssign(targets: seq<Node>) returns (vectors: seq<Vector>)
    requires forall t :: t in targets ==> TargetPositioned(t)
    ensures vectors == AssignVectors(targets)
  {
    vectors := [];
    for k := 0 to |targets|
      invariant vectors == AssignVectors(targets[..k])
    {
      var target := targets[k];
      AssignVectorsStep(targets, k);
      ghost var done := targets[..k];
      if target.Tuple? {
        for e := 0 to |target.elts|
          invariant vectors == AssignVectors(done) + ElementVectors(target.elts[..e])
        {
          ElementVectorsStep(target.elts, e);
          vectors := vectors + [Assignment(target.elts[e], 0)];
        }
        assert target.elts[..|target.elts|] == target.elts;
        assert vectors == AssignVectors(done) + TargetVectors(target);
      } else {
        vectors := vectors + [Assignment(target, 0)];
        assert vectors == AssignVectors(done) + TargetVectors(target);
      }
    }
    assert targets[..|targets|] == targets;
  }

  lemma AssignVectorsStep(targets: seq<Node>, k: nat)
    requires forall t :: t in targets ==> TargetPositioned(t)
    requires k < |targets|
    ensures targets[k] in targets && TargetPositioned(targets[k])
    ensures forall t :: t in targets[..k] ==> TargetPositioned(t)
    ensures forall t :: t in targets[..k + 1] ==> TargetPositioned(t)
    ensures AssignVectors(targets[..k + 1]) == AssignVectors(targets[..k]) + TargetVectors(targets[k])
  {
    assert targets[..k + 1][..k] == targets[..k];
    assert forall t :: t in targets[..k + 1] ==> t in targets;
  }

  lemma ElementVectorsStep(elts: seq<Node>, e: nat)
    requires forall x :: x in elts ==> HasLineno(x)
    requires e < |elts|
    ensures HasLineno(elts[e])
    ensures forall x :: x in elts[..e] ==> HasLineno(x)
    ensures ElementVectors(elts[..e + 1]) == ElementVectors(elts[..e]) + [Assignment(elts[e], 0)]
  {
    assert elts[..e + 1][..e] == elts[..e];
    assert forall x :: x in elts[..e + 1] ==> x in elts;
  }


  // ---------------------------------------------------------------- boolean operations

  /** An operand that no nested visit will count: neither a boolean operation nor a comparison. */
  predicate IsLeafOperand(v: Node) {
    !(v.BoolOp? || v.Compare?)
  }

  /** How many operands are leaves. */
  function LeafCount(values: seq<Node>): nat {
    if values == [] then 0 else LeafCount(values[..|values| - 1]) + (if IsLeafOperand(values[|values| - 1]) then 1 else 0)
  }

  /** The comprehension of `ast_boolop`: a condition per leaf operand, in operand order. */
  function LeafConditions(values: seq<Node>): (r: seq<Vector>)
    requires forall v :: v in values ==> HasLineno(v)
    ensures |r| == LeafCount(values)
    ensures forall v :: v in r ==>
              && v.assignment == 0 && v.branch == 0 && v.condition == 1
              && v.node.Some? && v.node.value in values && IsLeafOperand(v.node.value)
              && v.lineno == LinenoOrZero(v.node.value) >= 1
  {
    if values == [] then []
    else
      var init, last := values[..|values| - 1], values[|values| - 1];
      assert forall x :: x in init ==> x in values;
      LeafConditions(init) + if IsLeafOperand(last) then [Condition(last, 0)] else []
  }

  /** Every leaf operand gets its condition. */
  lemma {:induction false} LeafConditionsCover(values: seq<Node>, x: Node)
    requires forall v :: v in values ==> HasLineno(v)
    requires x in values && IsLeafOperand(x)
    ensures Condition(x, 0) in LeafConditions(values)
  {
    var init, last := values[..|values| - 1], values[|values| - 1];
    if x != last {
      assert x in init;
      LeafConditionsCover(init, x);
    }
  }

  // ---------------------------------------------------------------- the rule table

  /** A test that is not a boolean operation, a comparison or a literal is an implicit truth test. */
  predicate IsImplicitTest(test: Node) {
    !(test.BoolOp? || test.Compare? || test.Constant?)
  }

  /** The kinds without a rule of their own, for which the default rule applies. */
  predicate HasDefaultRule(n: Node) {
    n.Name? || n.Tuple? || n.Constant? || n.Other? || n.Positionless?
  }

  /** Every vector is a unit or an empty one, and all but an unattributed node's carry a line. */
  predicate UnitsOnLines(n: Node, r: seq<Vector>) {
    forall v :: v in r ==> Weight(v) <= 1 && (n.Positionless? || v.lineno >= 1)
  }

  /** `ast_for`, `ast_while`, `ast_try`: only the else clause counts. */
  function ElseRule(n: Node): (r: seq<Vector>)
    requires ElseHead(n).Some? ==> HasLineno(ElseHead(n).value)
    requires !n.Positionless?
    ensures |r| == 1 && UnitsOnLines(n, r)
  {
    [HandleElse(n)]
  }

  /** `ast_if`, `ast_ifexp`: an implicit truth test counts as a condition, then the else clause. */
  function ConditionalRule(n: Node): (r: seq<Vector>)
    requires n.If? || n.IfExp?
    requires HasLineno(n.test) && (ElseHead(n).Some? ==> HasLineno(ElseHead(n).value))
    ensures 1 <= |r| <= 2 && UnitsOnLines(n, r)
  {
    var orElse := HandleElse(n);
    assert Weight(orElse) <= 1 && orElse.lineno >= 1;
    if IsImplicitTest(n.test) then [Condition(n.test, 0), orElse] else [orElse]
  }

  /** `ast_assign`: an assignment per name bound, a destructuring target binding each of its elements. */
  function AssignRule(n: Node): (r: seq<Vector>)
    requires n.Assign? && forall t :: t in n.targets ==> TargetPositioned(t)
    ensures |r| == DestructuredCount(n.targets) && UnitsOnLines(n, r)
  {
    AssignVectorsShape(n.targets);
    AssignVectors(n.targets)
  }

  /** `ast_boolop`: a condition per leaf operand, or an empty vector when there is none. */
  function BoolOpRule(n: Node): (r: seq<Vector>)
    requires n.BoolOp? && forall v :: v in n.values ==> HasLineno(v)
    ensures |r| >= 1 && UnitsOnLines(n, r)
  {
    var leaves := LeafConditions(n.values);
    if leaves == [] then [Empty(n, 0)] else leaves
  }

  /** `ast_assert`: a bare name asserted is a tacit condition; any other test is counted on its own visit. */
  function AssertRule(n: Node): (r: seq<Vector>)
    requires n.Assert?
    ensures |r| == 1 && UnitsOnLines(n, r)
  {
    if n.test.Name? then [Condition(n.test, 0)] else [Empty(n, 0)]
  }

  /**
    `calculate_abc_for_node`. Every vector is a unit or an empty one, and every rule gives at
    least one, except an assignment that binds no name at all (`() = []`), which gives none.
  */
  function Classify(n: Node): (r: seq<Vector>)
    requires WellPositioned(n)
    ensures |r| >= 1 || (n.Assign? && DestructuredCount(n.targets) == 0)
    ensures UnitsOnLines(n, r)
  {
    if n.For? || n.While? || n.Try? then ElseRule(n)
    else if n.Assign? then AssignRule(n)
    else if n.AnnAssign? || n.AugAssign? then [Assignment(n, 0)]
    else if n.Call? then [Branch(n, 0)]
    else if n.BoolOp? then BoolOpRule(n)
    else if n.Compare? || n.ExceptHandler? then [Condition(n, 0)]
    else if n.If? || n.IfExp? then ConditionalRule(n)
    else if n.Assert? then AssertRule(n)
    else [Empty(n, 0)]
  }

  // ---------------------------------------------------------------- which line each rule uses

  /** A loop's or `try`'s one vector is `handle_else`'s. */
  lemma ElseRuleLines(n: Node)
    requires (n.For? || n.While? || n.Try?) && WellPositioned(n)
    ensures Classify(n) == [HandleElse(n)]
  {
    assert Classify(n) == ElseRule(n);
  }

  /**
    An `if` or conditional expression counts its test exactly when the test is an implicit
    truth test, on the test's own line; its last vector is `handle_else`'s.
  */
  lemma ConditionalRuleLines(n: Node)
    requires (n.If? || n.IfExp?) && WellPositioned(n)
    ensures var r := Classify(n);
            && (|r| == 2 <==> IsImplicitTest(n.test)) && 1 <= |r| <= 2
            && (|r| == 2 ==>
                  && r[0].assignment == 0 && r[0].branch == 0 && r[0].condition == 1
                  && r[0].lineno == n.test.lineno && r[0].node == Some(n.test))
            && r[|r| - 1] == HandleElse(n)
  {
    assert !(n.For? || n.While? || n.Try? || n.Assign? || n.AnnAssign? || n.AugAssign? || n.Call?);
    assert !(n.BoolOp? || n.Compare? || n.ExceptHandler?);
    assert Classify(n) == ConditionalRule(n);
  }

  /** Every vector of an assignment is an assignment unit for a name its targets bind, on that name's line. */
  lemma AssignRuleLines(n: Node)
    requires n.Assign? && WellPositioned(n)
    ensures |Classify(n)| == DestructuredCount(n.targets)
    ensures forall v :: v in Classify(n) ==> AssignmentFrom(n.targets, v)
  {
    assert Classify(n) == AssignRule(n);
    AssignVectorsShape(n.targets);
  }

  /** A boolean operation gives its leaf conditions, or one empty vector on its own line when it has none. */
  lemma BoolOpRuleLines(n: Node)
    requires n.BoolOp? && WellPositioned(n)
    ensures LeafCount(n.values) > 0 ==> Classify(n) == LeafConditions(n.values)
    ensures LeafCount(n.values) == 0 ==>
              var r := Classify(n); |r| == 1 && Weight(r[0]) == 0 && r[0].lineno == n.lineno && r[0].node == Some(n)
  {
    assert !(n.For? || n.While? || n.Try? || n.Assign? || n.AnnAssign? || n.AugAssign? || n.Call?);
    assert Classify(n) == BoolOpRule(n);
    var leaves := LeafConditions(n.values);
    assert leaves == [] <==> LeafCount(n.values) == 0;
  }

  /** `assert name` counts a condition on the name's line; any other assertion an empty vector on its own. */
  lemma AssertRuleLines(n: Node)
    requires n.Assert? && WellPositioned(n)
    ensures var r := Classify(n);
            && |r| == 1
            && (n.test.Name? ==>
                  && r[0].assignment == 0 && r[0].branch == 0 && r[0].condition == 1
                  && r[0].lineno == n.test.lineno && r[0].node == Some(n.test))
            && (!n.test.Name? ==> Weight(r[0]) == 0 && r[0].lineno == n.lineno && r[0].node == Some(n))
  {
    assert !(n.For? || n.While? || n.Try? || n.Assign? || n.AnnAssign? || n.AugAssign? || n.Call?);
    assert !(n.BoolOp? || n.Compare? || n.ExceptHandler? || n.If? || n.IfExp?);
    assert Classify(n) == AssertRule(n);
  }

  /**
    The kinds that count one unit of themselves: assignments with an annotation or an
    operator count an A, calls a B, comparisons and `except` clauses a C, each on the node's line.
  */
  lemma UnitRuleLines(n: Node)
    requires (n.AnnAssign? || n.AugAssign? || n.Call? || n.Compare? || n.ExceptHandler?) && WellPositioned(n)
    ensures var r := Classify(n);
            && |r| == 1 && r[0].lineno == n.lineno && r[0].node == Some(n)
            && r[0].assignment == (if n.AnnAssign? || n.AugAssign? then 1 else 0)
            && r[0].branch == (if n.Call? then 1 else 0)
            && r[0].condition == (if n.Compare? || n.ExceptHandler? then 1 else 0)
  {
    assert !(n.For? || n.While? || n.Try? || n.Assign?);
    if n.AnnAssign? || n.AugAssign? {
      assert Classify(n) == [Assignment(n, 0)];
    } else if n.Call? {
      assert Classify(n) == [Branch(n, 0)];
    } else {
      assert !n.BoolOp?;
      assert Classify(n) == [Condition(n, 0)];
    }
  }

  /** What each kind of node adds to (A, B, C), read off the metric's definition. */
  function RuleCounts(n: Node): (nat, nat, nat) {
    if n.For? || n.While? || n.Try? then (0, 0, if n.orelse != [] then 1 else 0)
    else if n.Assign? then (DestructuredCount(n.targets), 0, 0)
    else if n.AnnAssign? || n.AugAssign? then (1, 0, 0)
    else if n.Call? then (0, 1, 0)
    else if n.BoolOp? then (0, 0, LeafCount(n.values))
    else if n.Compare? || n.ExceptHandler? then (0, 0, 1)
    else if n.If? then (0, 0, (if IsImplicitTest(n.test) then 1 else 0) + (if n.orelse != [] then 1 else 0))
    else if n.IfExp? then (0, 0, (if IsImplicitTest(n.test) then 1 else 0) + 1)
    else if n.Assert? then (0, 0, if n.test.Name? then 1 else 0)
    else (0, 0, 0)
  }

  lemma SumOfOne(x: Vector)
    ensures Sum([x]) == Add(Origin, x)
  {
    assert [x][..0] == [];
  }

  lemma SumOfTwo(x: Vector, y: Vector)
    ensures Sum([x, y]) == Add(Add(Origin, x), y)
  {
    assert [x, y][..1] == [x];
    SumOfOne(x);
  }

  lemma ConditionalCounts(n: Node)
    requires n.If? || n.IfExp?
    requires HasLineno(n.test) && (ElseHead(n).Some? ==> HasLineno(ElseHead(n).value))
    ensures var t := Sum(ConditionalRule(n)); t.assignment == 0 && t.branch == 0
    ensures Sum(ConditionalRule(n)).condition
            == (if IsImplicitTest(n.test) then 1 else 0) + (if ElseHead(n).Some? then 1 else 0)
  {
    var orElse := HandleElse(n);
    if IsImplicitTest(n.test) {
      SumOfTwo(Condition(n.test, 0), orElse);
    } else {
      SumOfOne(orElse);
    }
  }

  lemma AssignCounts(targets: seq<Node>)
    requires forall t :: t in targets ==> TargetPositioned(t)
    ensures var t := Sum(AssignVectors(targets));
            t.assignment == DestructuredCount(targets) && t.branch == 0 && t.condition == 0
  {
    AssignVectorsShape(targets);
    SumOfAssignmentUnits(AssignVectors(targets));
  }

  lemma BoolOpCounts(n: Node)
    requires n.BoolOp? && forall v :: v in n.values ==> HasLineno(v)
    ensures var t := Sum(BoolOpRule(n)); t.assignment == 0 && t.branch == 0 && t.condition == LeafCount(n.values)
  {
    var leaves := LeafConditions(n.values);
    if leaves != [] {
      SumOfConditionUnits(leaves);
    } else {
      SumOfOne(Empty(n, 0));
    }
  }

  /** A node the table does not name, the unattributed one among them, gives one empty vector. */
  lemma DefaultRuleIsEmpty(n: Node)
    requires HasDefaultRule(n)
    ensures WellPositioned(n) && Classify(n) == [Empty(n, 0)]
  {
    assert WellPositioned(n);
    assert !(n.For? || n.While? || n.Try? || n.Assign? || n.AnnAssign? || n.AugAssign? || n.Call?);
    assert !(n.BoolOp? || n.Compare? || n.ExceptHandler? || n.If? || n.IfExp? || n.Assert?);
  }

  predicate CountsMatch(n: Node)
    requires WellPositioned(n)
  {
    var t := Sum(Classify(n));
    (t.assignment, t.branch, t.condition) == RuleCounts(n)
  }

  lemma AssignNodeCounts(n: Node)
    requires n.Assign? && WellPositioned(n)
    ensures CountsMatch(n)
  {
    assert Classify(n) == AssignRule(n);
    AssignCounts(n.targets);
  }

  lemma BoolOpNodeCounts(n: Node)
    requires n.BoolOp? && WellPositioned(n)
    ensures CountsMatch(n)
  {
    assert !(n.For? || n.While? || n.Try? || n.Assign? || n.AnnAssign? || n.AugAssign? || n.Call?);
    assert Classify(n) == BoolOpRule(n);
    BoolOpCounts(n);
  }

  lemma ConditionalNodeCounts(n: Node)
    requires (n.If? || n.IfExp?) && WellPositioned(n)
    ensures CountsMatch(n)
  {
    assert !(n.For? || n.While? || n.Try? || n.Assign? || n.AnnAssign? || n.AugAssign? || n.Call?);
    assert !(n.BoolOp? || n.Compare? || n.ExceptHandler?);
    assert Classify(n) == ConditionalRule(n);
    ConditionalCounts(n);
  }

  lemma ElseNodeCounts(n: Node)
    requires (n.For? || n.While? || n.Try?) && WellPositioned(n)
    ensures CountsMatch(n)
  {
    assert Classify(n) == ElseRule(n) == [HandleElse(n)];
    SumOfOne(HandleElse(n));
  }

  lemma AssertNodeCounts(n: Node)
    requires n.Assert? && WellPositioned(n)
    ensures CountsMatch(n)
  {
    AssertRuleLines(n);
    var v := Classify(n)[0];
    assert Classify(n) == [v];
    SumOfOne(v);
  }

  lemma UnitNodeCounts(n: Node)
    requires (n.AnnAssign? || n.AugAssign? || n.Call? || n.Compare? || n.ExceptHandler?) && WellPositioned(n)
    ensures CountsMatch(n)
  {
    assert !(n.For? || n.While? || n.Try? || n.Assign?);
    if n.AnnAssign? || n.AugAssign? {
      assert Classify(n) == [Assignment(n, 0)];
      SumOfOne(Assignment(n, 0));
    } else if n.Call? {
      assert Classify(n) == [Branch(n, 0)];
      SumOfOne(Branch(n, 0));
    } else {
      assert !n.BoolOp?;
      assert Classify(n) == [Condition(n, 0)];
      SumOfOne(Condition(n, 0));
    }
  }

  lemma DefaultNodeCounts(n: Node)
    requires HasDefaultRule(n)
    ensures WellPositioned(n) && CountsMatch(n)
  {
    DefaultRuleIsEmpty(n);
    assert !(n.For? || n.While? || n.Try? || n.Assign? || n.AnnAssign? || n.AugAssign? || n.Call?);
    assert !(n.BoolOp? || n.Compare? || n.ExceptHandler? || n.If? || n.IfExp? || n.Assert?);
    assert RuleCounts(n) == (0, 0, 0);
    SumOfOne(Empty(n, 0));
  }

  /** The rules add up to the table: what a node contributes to the file's total. */
  lemma ClassifyCounts(n: Node)
    requires WellPositioned(n)
    ensures var t := Sum(Classify(n)); (t.assignment, t.branch, t.condition) == RuleCounts(n)
  {
    if n.Assign? {
      AssignNodeCounts(n);
    } else if n.BoolOp? {
      BoolOpNodeCounts(n);
    } else if n.If? || n.IfExp? {
      ConditionalNodeCounts(n);
    } else if n.For? || n.While? || n.Try? {
      ElseNodeCounts(n);
    } else if n.Assert? {
      AssertNodeCounts(n);
    } else if HasDefaultRule(n) {
      DefaultNodeCounts(n);
    } else {
      UnitNodeCounts(n);
    }
  }

  /** `calculate_abc_for_node` as the walk calls it: the `Assign` rule runs its loops. */
  method ClassifyNode(n: Node) returns (vectors: seq<Vector>)
    requires WellPositioned(n)
    ensures vectors == Classify(n)
  {
    if n.Assign? {
      vectors := AstAssign(n.targets);
    } else {
      vectors := Classify(n);
    }
  }
}
