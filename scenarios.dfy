/**
  Worked examples of the metric on small programs, each node placed on the lines the
  parser gives it. `Other` stands for nodes no rule names (`Pass`, `Expr` and the like) and
  `Positionless` for the nodes that carry no line (`Load`, `Store`, operators).
*/
module Scenarios {
  import opened Wrappers
  import opened Ast
  import opened AbcVector
  import opened Classifier
  import opened Accumulation

  /** `a, b, c = d`: one assignment per destructured name, each on that name's line, written `aaa`. */
  lemma DestructuringAssignsEachName(n: Node, line: LineNo)
    requires n == Assign(line, [Tuple(line, [Name(line), Name(line), Name(line)])])
    ensures WellPositioned(n)
    ensures Classify(n) == [Assignment(Name(line), 0), Assignment(Name(line), 0), Assignment(Name(line), 0)]
    ensures Notation(Assignment(Name(line), 0)) == "a" && Assignment(Name(line), 0).lineno == line
  {
    var a, elts := Assignment(Name(line), 0), [Name(line), Name(line), Name(line)];
    DestructuredTuple(n, n.targets[0], elts);
    assert Classify(n) == [a, a, a] by {
      assert Classify(n)[0] == a && Classify(n)[1] == a && Classify(n)[2] == a;
    }
    ConstructorNotations(Name(line), 0);
  }

  /** An assignment to one tuple gives an assignment per element. */
  lemma DestructuredTuple(n: Node, target: Node, elts: seq<Node>)
    requires n.Assign? && n.targets == [target] && target.Tuple? && target.elts == elts
    requires forall e :: e in elts ==> HasLineno(e)
    ensures WellPositioned(n)
    ensures |Classify(n)| == |elts| && forall i :: 0 <= i < |elts| ==> Classify(n)[i] == Assignment(elts[i], 0)
  {
    assert WellPositioned(n);
    SingleTarget(n);
    ElementVectorsAt(elts);
  }

  lemma SingleTarget(n: Node)
    requires n.Assign? && |n.targets| == 1 && WellPositioned(n)
    ensures TargetPositioned(n.targets[0]) && Classify(n) == TargetVectors(n.targets[0])
  {
    var target := n.targets[0];
    assert target in n.targets;
    assert Classify(n) == AssignRule(n) == AssignVectors([target]);
    assert [target][..0] == [];
  }

  /** `if a: pass` counts the implicit truth test; `if True: pass` counts nothing. */
  lemma ImplicitTestCounts(n: Node, m: Node, line: LineNo)
    requires n == If(line, Name(line), []) && m == If(line, Constant(line), [])
    ensures WellPositioned(n) && Classify(n) == [Condition(Name(line), 0), Empty(n, 0)]
    ensures WellPositioned(m) && Classify(m) == [Empty(m, 0)]
  {
    assert WellPositioned(n) && WellPositioned(m);
    assert Classify(n) == ConditionalRule(n);
    assert Classify(m) == ConditionalRule(m);
  }

  /**
    `for ...:` / `else:` laid out one statement per line: the body of the `else` starts on the
    line below the `else:`, so the condition is counted on the `else:` line itself.
  */
  lemma ElseCountedOnItsOwnLine(n: Node, owner: LineNo, body: LineNo)
    requires n == For(owner, [Other(body)]) || n == While(owner, [Other(body)]) || n == Try(owner, [Other(body)])
    requires body > owner + 1
    ensures WellPositioned(n) && Classify(n) == [Condition(Other(body), body - 1)]
    ensures Classify(n)[0].lineno == body - 1
  {
    assert WellPositioned(n);
    assert n.For? || n.While? || n.Try?;
    assert Classify(n) == ElseRule(n);
  }

  /**
    `while True: pass` / `else: pass`: the layout the attribution relies on is broken, and the
    condition lands on the `while` line, one above the `else`.
  */
  lemma ElseOnOneLineIsMisplaced(n: Node, owner: LineNo)
    requires n == While(owner, [Other(owner + 1)])
    ensures WellPositioned(n) && Classify(n)[0].lineno == owner
  {
    assert WellPositioned(n);
    assert Classify(n) == ElseRule(n);
  }

  /**
    `if a: pass` / `elif b: pass`: the `elif` is a nested `If` heading the else branch, so its
    condition stays on the `elif` line, beside the truth test of `b`.
  */
  lemma ElifKeepsItsLine(outer: Node, inner: Node, first: LineNo, second: LineNo)
    requires inner == If(second, Name(second), []) && outer == If(first, Name(first), [inner])
    requires first < second
    ensures WellPositioned(outer) && WellPositioned(inner)
    ensures Classify(outer) == [Condition(Name(first), 0), Condition(inner, second)]
    ensures Classify(inner) == [Condition(Name(second), 0), Empty(inner, 0)]
  {
    assert WellPositioned(outer) && WellPositioned(inner);
    assert Classify(outer) == ConditionalRule(outer);
    assert Classify(inner) == ConditionalRule(inner);
  }

  /**
    `c if a else b` on one line: the truth test of `a` and the alternative each count a
    condition, and the alternative, sharing the expression's line, keeps it.
  */
  lemma ConditionalExpressionCountsTwice(n: Node, line: LineNo)
    requires n == IfExp(line, Name(line), Name(line))
    ensures WellPositioned(n)
    ensures Classify(n) == [Condition(Name(line), 0), Condition(Name(line), line)]
    ensures forall v :: v in Classify(n) ==> v.lineno == line && Notation(v) == "c"
  {
    assert WellPositioned(n);
    assert Classify(n) == ConditionalRule(n);
    ConstructorNotations(Name(line), 0);
    ConstructorNotations(Name(line), line);
  }

  /** `assert a` is a tacit condition; `assert a > b` leaves the count to the comparison. */
  lemma AssertCountsOnlyBareNames(n: Node, m: Node, line: LineNo)
    requires n == Assert(line, Name(line)) && m == Assert(line, Compare(line))
    ensures WellPositioned(n) && Classify(n) == [Condition(Name(line), 0)]
    ensures WellPositioned(m) && Classify(m) == [Empty(m, 0)]
    ensures Classify(Compare(line)) == [Condition(Compare(line), 0)]
  {
    assert WellPositioned(n) && WellPositioned(m);
    assert Classify(n) == AssertRule(n);
    assert Classify(m) == AssertRule(m);
  }

  /**
    `a and b or c and d`: the `or` has only `and`s as operands and counts nothing itself;
    each `and` counts its two names.
  */
  lemma NestedBoolOpsCountLeaves(n: Node, left: Node, right: Node, line: LineNo)
    requires left == BoolOp(line, [Name(line), Name(line)]) && right == BoolOp(line, [Name(line), Name(line)])
    requires n == BoolOp(line, [left, right])
    ensures WellPositioned(n) && WellPositioned(left)
    ensures Classify(n) == [Empty(n, 0)]
    ensures Classify(left) == [Condition(Name(line), 0), Condition(Name(line), 0)]
  {
    assert WellPositioned(n) && WellPositioned(left);
    assert Classify(n) == BoolOpRule(n);
    assert Classify(left) == BoolOpRule(left);
    assert LeafConditions(n.values) == [] by {
      assert n.values[..1] == [left] && [left][..0] == [];
    }
    assert LeafConditions(left.values) == [Condition(Name(line), 0), Condition(Name(line), 0)] by {
      assert left.values[..1] == [Name(line)] && [Name(line)][..0] == [];
    }
  }

  /** The prefix of `k` vectors extends the prefix of `k - 1` by one decoration step. */
  lemma DecorationPrefixStep(vs: seq<Vector>, k: nat, line: int)
    requires 0 < k <= |vs|
    ensures DecorationAt(vs[..k], line) == DecorationAt(vs[..k - 1], line) + OnLine(vs[k - 1], line)
  {
    assert vs[..k][..k - 1] == vs[..k - 1];
  }

  /** The prefix of `k` vectors extends the prefix of `k - 1` by one step of the total. */
  lemma TotalPrefixStep(vs: seq<Vector>, k: nat)
    requires 0 < k <= |vs|
    ensures Total(vs[..k]) == if vs[k - 1].lineno == 0 then Total(vs[..k - 1]) else Add(Total(vs[..k - 1]), vs[k - 1])
  {
    assert vs[..k][..k - 1] == vs[..k - 1];
  }

  /** A line's decoration over two vectors. */
  lemma DecorationOfTwo(vs: seq<Vector>, line: int)
    requires |vs| == 2
    ensures DecorationAt(vs, line) == OnLine(vs[0], line) + OnLine(vs[1], line)
  {
    DecorationPrefixStep(vs, 1, line);
    assert vs[..0] == [] && vs[..2] == vs;
  }

  /** A line's decoration over four vectors. */
  lemma DecorationOfFour(vs: seq<Vector>, line: int)
    requires |vs| == 4
    ensures DecorationAt(vs, line) == OnLine(vs[0], line) + OnLine(vs[1], line) + (OnLine(vs[2], line) + OnLine(vs[3], line))
  {
    var xs, ys := vs[..2], vs[2..];
    assert vs == xs + ys;
    DecorationAppend(xs, ys, line);
    DecorationOfTwo(xs, line);
    DecorationOfTwo(ys, line);
  }

  /** The total of four vectors that all carry a line. */
  lemma TotalOfFour(vs: seq<Vector>)
    requires |vs| == 4 && forall k :: 0 <= k < 4 ==> vs[k].lineno != 0
    ensures Total(vs) == Add(Add(Add(Add(Origin, vs[0]), vs[1]), vs[2]), vs[3])
  {
    assert vs[..0] == [] && vs[..4] == vs;
    TotalPrefixStep(vs, 1);
    TotalPrefixStep(vs, 2);
    TotalPrefixStep(vs, 3);
    TotalPrefixStep(vs, 4);
  }

  /** A vector that counts one condition and nothing else is written `c`. */
  lemma OneConditionNotation(v: Vector)
    requires v.assignment == 0 && v.branch == 0 && v.condition == 1
    ensures Notation(v) == "c"
  {
  }

  /** Three single conditions and an empty vector, the first on line `first`, the rest on `second`. */
  lemma ConditionsReport(vs: seq<Vector>, first: LineNo, second: LineNo)
    requires |vs| == 4 && first < second
    requires vs[0].lineno == first && vs[1].lineno == second && vs[2].lineno == second && vs[3].lineno == second
    requires forall k :: 0 <= k < 3 ==> vs[k].assignment == 0 && vs[k].branch == 0 && vs[k].condition == 1
    requires vs[3].assignment == 0 && vs[3].branch == 0 && vs[3].condition == 0
    ensures LinesKnown(vs, second)
    ensures DecorationAt(vs, first) == "c" && DecorationAt(vs, second) == "cc"
    ensures Total(vs) == Vector(0, 0, 3, 0, None)
  {
    OneConditionNotation(vs[0]);
    OneConditionNotation(vs[1]);
    OneConditionNotation(vs[2]);
    assert Notation(vs[3]) == "";
    DecorationOfFour(vs, first);
    DecorationOfFour(vs, second);
    TotalOfFour(vs);
  }

  /** The vectors the two `If` nodes of an `if`/`elif` chain contribute, in walk order. */
  lemma ElifContributions(outer: Node, inner: Node, first: LineNo, second: LineNo)
    requires inner == If(second, Name(second), []) && outer == If(first, Name(first), [inner])
    requires first < second
    ensures WalkPositioned([outer, inner])
    ensures Contributions([outer, inner])
         == [Condition(Name(first), 0), Condition(inner, second), Condition(Name(second), 0), Empty(inner, 0)]
  {
    ElifKeepsItsLine(outer, inner, first, second);
    var walk := [outer, inner];
    ContributionsStep(walk, 0);
    ContributionsStep(walk, 1);
    assert walk[..0] == [] && walk[..2] == walk;
  }

  /**
    The two `If` nodes of `if a: pass` / `elif b: pass` walked together: the first line
    reads `c`, the second `cc`, and the file's vector is <0, 0, 3>. (The names and `pass`
    statements of the walk add empty vectors only.)
  */
  lemma ElifWalk(outer: Node, inner: Node, first: LineNo, second: LineNo)
    requires inner == If(second, Name(second), []) && outer == If(first, Name(first), [inner])
    requires first < second
    ensures WalkPositioned([outer, inner])
    ensures var vs := Contributions([outer, inner]);
            && LinesKnown(vs, second)
            && DecorationAt(vs, first) == "c" && DecorationAt(vs, second) == "cc"
            && Total(vs) == Vector(0, 0, 3, 0, None)
  {
    ElifContributions(outer, inner, first, second);
    ConditionsReport(Contributions([outer, inner]), first, second);
  }
}
