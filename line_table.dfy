/**
  Which line each unit of the rule table (python_abc/calculate.py) is counted on, stated
  kind by kind as a count of units per line, without building any vector; and the proof
  that the classifier and the walk's decorations follow it.
*/
module LineAttribution {
  import opened Wrappers
  import opened Ast
  import opened AbcVector
  import opened Classifier
  import opened Accumulation

  // ---------------------------------------------------------------- the table

  /** 1 when `x` carries line `line`, else 0. */
  function On(x: Node, line: int): nat {
    if HasLineno(x) && x.lineno == line then 1 else 0
  }

  /** How many of `xs` sit on `line`. */
  function NodesOnLine(xs: seq<Node>, line: int): nat {
    if xs == [] then 0 else NodesOnLine(xs[..|xs| - 1], line) + On(xs[|xs| - 1], line)
  }

  /** How many leaf operands of `values` sit on `line`. */
  function LeavesOnLine(values: seq<Node>, line: int): nat {
    if values == [] then 0
    else
      var last := values[|values| - 1];
      LeavesOnLine(values[..|values| - 1], line) + if IsLeafOperand(last) then On(last, line) else 0
  }

  /** How many names the targets bind on `line`: every element of a tuple target, any other target itself. */
  function NamesOnLine(targets: seq<Node>, line: int): nat {
    if targets == [] then 0
    else
      var t := targets[|targets| - 1];
      NamesOnLine(targets[..|targets| - 1], line) + if t.Tuple? then NodesOnLine(t.elts, line) else On(t, line)
  }

  /**
    The line an else clause is counted on, for a construct on line `owner` whose clause
    starts with `head`: an `elif` keeps its line, and so does a head on the owner's own
    line; any other head stands one line below its `else:`, which is the line named,
    except that a head on line 1 would name line 0, which means the head's own line.
  */
  function ElseLine(owner: int, head: Node): int
    requires HasLineno(head)
  {
    if head.If? || head.lineno == owner || head.lineno == 1 then head.lineno else head.lineno - 1
  }

  /** 1 when the node has an else clause and that clause is counted on `line`. */
  function ElseOnLine(n: Node, line: int): nat
    requires ElseHead(n).Some? ==> HasLineno(ElseHead(n).value)
  {
    match ElseHead(n)
    case None => 0
    case Some(head) => if ElseLine(n.lineno, head) == line then 1 else 0
  }

  /** What a node of each kind counts on `line`, as (A, B, C) on that line. */
  function LineUnits(n: Node, line: int): (u: Vector)
    requires WellPositioned(n)
    ensures u.lineno == line && u.node == None
  {
    if n.For? || n.While? || n.Try? then Vector(0, 0, ElseOnLine(n, line), line, None)
    else if n.Assign? then Vector(NamesOnLine(n.targets, line), 0, 0, line, None)
    else if n.AnnAssign? || n.AugAssign? then Vector(On(n, line), 0, 0, line, None)
    else if n.Call? then Vector(0, On(n, line), 0, line, None)
    else if n.BoolOp? then Vector(0, 0, LeavesOnLine(n.values, line), line, None)
    else if n.Compare? || n.ExceptHandler? then Vector(0, 0, On(n, line), line, None)
    else if n.If? || n.IfExp? then
      Vector(0, 0, (if IsImplicitTest(n.test) then On(n.test, line) else 0) + ElseOnLine(n, line), line, None)
    else if n.Assert? then Vector(0, 0, if n.test.Name? then On(n.test, line) else 0, line, None)
    else Vector(0, 0, 0, line, None)
  }

  /** The letters the table puts on `line` for node `n`; a node the rules cannot read puts none. */
  function LineTableLetters(n: Node, line: int): multiset<char> {
    if WellPositioned(n) then Letters(LineUnits(n, line)) else multiset{}
  }

  // ---------------------------------------------------------------- letters of a line, piece by piece

  lemma LettersOnLineAppend(xs: seq<Vector>, ys: seq<Vector>, line: int)
    ensures LettersOnLine(xs + ys, line) == LettersOnLine(xs, line) + LettersOnLine(ys, line)
  {
    DecorationLetters(xs + ys, line);
    DecorationLetters(xs, line);
    DecorationLetters(ys, line);
    DecorationAppend(xs, ys, line);
    var dx, dy := DecorationAt(xs, line), DecorationAt(ys, line);
    assert multiset(dx + dy) == multiset(dx) + multiset(dy);
  }

  /** One vector's letters on `line`: all of them when it is on that line, none otherwise. */
  lemma LettersOnLineOfOne(v: Vector, line: int)
    ensures LettersOnLine([v], line) == if v.lineno == line then Letters(v) else multiset{}
  {
    assert [v][..0] == [];
  }

  /** Letters depend on the counters alone. */
  lemma LettersOfCounters(x: Vector, y: Vector)
    requires SameCounters(x, y)
    ensures Letters(x) == Letters(y)
  {
  }

  /** The letters a single unit puts on `line`, as a count. */
  lemma UnitOnLine(v: Vector, u: Vector, line: int, k: nat)
    requires v.assignment == u.assignment * k && v.branch == u.branch * k && v.condition == u.condition * k
    requires k == if u.lineno == line then 1 else 0
    ensures LettersOnLine([u], line) == Letters(v)
  {
    LettersOnLineOfOne(u, line);
    if k == 0 {
      assert Letters(v) == Letters(Origin);
    } else {
      LettersOfCounters(u, v);
    }
  }

  /** A vector with no unit puts nothing on any line. */
  lemma EmptyOnLine(u: Vector, line: int)
    requires Weight(u) == 0
    ensures LettersOnLine([u], line) == Letters(Vector(0, 0, 0, line, None))
  {
    LettersOnLineOfOne(u, line);
    assert Letters(Vector(0, 0, 0, line, None)) == Letters(Origin);
    LettersOfCounters(u, Origin);
  }

  /** Two counts on the same line add up. */
  lemma CountsAdd(a0: nat, b0: nat, c0: nat, a1: nat, b1: nat, c1: nat, line: int)
    ensures Letters(Vector(a0, b0, c0, line, None)) + Letters(Vector(a1, b1, c1, line, None))
         == Letters(Vector(a0 + a1, b0 + b1, c0 + c1, line, None))
  {
    LettersAdd(Vector(a0, b0, c0, line, None), Vector(a1, b1, c1, line, None));
  }

  // ---------------------------------------------------------------- rule by rule

  /** `handle_else`'s vector lands on the line the table names for the else clause. */
  lemma HandleElseOnLine(n: Node, line: int)
    requires ElseHead(n).Some? ==> HasLineno(ElseHead(n).value)
    ensures LettersOnLine([HandleElse(n)], line) == Letters(Vector(0, 0, ElseOnLine(n, line), line, None))
  {
    var v := HandleElse(n);
    var k := ElseOnLine(n, line);
    if ElseHead(n).Some? {
      assert v.lineno == ElseLine(n.lineno, ElseHead(n).value);
      UnitOnLine(Vector(0, 0, k, line, None), v, line, k);
    } else {
      EmptyOnLine(v, line);
    }
  }

  lemma {:induction false} ElementsOnLine(elts: seq<Node>, line: int)
    requires forall e :: e in elts ==> HasLineno(e)
    ensures LettersOnLine(ElementVectors(elts), line) == Letters(Vector(NodesOnLine(elts, line), 0, 0, line, None))
  {
    if elts == [] {
      assert Letters(Vector(0, 0, 0, line, None)) == Letters(Origin);
    } else {
      var init, last := elts[..|elts| - 1], elts[|elts| - 1];
      assert forall e :: e in init ==> e in elts;
      ElementsOnLine(init, line);
      LettersOnLineAppend(ElementVectors(init), [Assignment(last, 0)], line);
      UnitOnLine(Vector(On(last, line), 0, 0, line, None), Assignment(last, 0), line, On(last, line));
      CountsAdd(NodesOnLine(init, line), 0, 0, On(last, line), 0, 0, line);
    }
  }

  lemma {:induction false} TargetsOnLine(targets: seq<Node>, line: int)
    requires forall t :: t in targets ==> TargetPositioned(t)
    ensures LettersOnLine(AssignVectors(targets), line) == Letters(Vector(NamesOnLine(targets, line), 0, 0, line, None))
  {
    if targets == [] {
      assert Letters(Vector(0, 0, 0, line, None)) == Letters(Origin);
    } else {
      var init, t := targets[..|targets| - 1], targets[|targets| - 1];
      assert forall x :: x in init ==> x in targets;
      assert t in targets;
      TargetsOnLine(init, line);
      LettersOnLineAppend(AssignVectors(init), TargetVectors(t), line);
      var k := if t.Tuple? then NodesOnLine(t.elts, line) else On(t, line);
      if t.Tuple? {
        ElementsOnLine(t.elts, line);
      } else {
        UnitOnLine(Vector(k, 0, 0, line, None), Assignment(t, 0), line, k);
      }
      CountsAdd(NamesOnLine(init, line), 0, 0, k, 0, 0, line);
    }
  }

  lemma {:induction false} LeavesOnLineLetters(values: seq<Node>, line: int)
    requires forall v :: v in values ==> HasLineno(v)
    ensures LettersOnLine(LeafConditions(values), line) == Letters(Vector(0, 0, LeavesOnLine(values, line), line, None))
  {
    if values == [] {
      assert Letters(Vector(0, 0, 0, line, None)) == Letters(Origin);
    } else {
      var init, last := values[..|values| - 1], values[|values| - 1];
      assert forall v :: v in init ==> v in values;
      LeavesOnLineLetters(init, line);
      var tail := if IsLeafOperand(last) then [Condition(last, 0)] else [];
      assert LeafConditions(values) == LeafConditions(init) + tail;
      LettersOnLineAppend(LeafConditions(init), tail, line);
      var k := if IsLeafOperand(last) then On(last, line) else 0;
      if IsLeafOperand(last) {
        UnitOnLine(Vector(0, 0, k, line, None), Condition(last, 0), line, k);
      } else {
        assert Letters(Vector(0, 0, 0, line, None)) == Letters(Origin);
      }
      CountsAdd(0, 0, LeavesOnLine(init, line), 0, 0, k, line);
    }
  }

  /** With no leaf operand, no leaf is on any line. */
  lemma {:induction false} NoLeafOnAnyLine(values: seq<Node>, line: int)
    requires LeafCount(values) == 0
    ensures LeavesOnLine(values, line) == 0
  {
    if values != [] {
      NoLeafOnAnyLine(values[..|values| - 1], line);
    }
  }

  lemma ElseKindFollowsTable(n: Node, line: int)
    requires (n.For? || n.While? || n.Try?) && WellPositioned(n)
    ensures LettersOnLine(Classify(n), line) == Letters(LineUnits(n, line))
  {
    ElseRuleLines(n);
    HandleElseOnLine(n, line);
  }

  lemma ConditionalLineUnits(n: Node, line: int)
    requires (n.If? || n.IfExp?) && WellPositioned(n)
    ensures LineUnits(n, line)
         == Vector(0, 0, (if IsImplicitTest(n.test) then On(n.test, line) else 0) + ElseOnLine(n, line), line, None)
  {
    assert !(n.For? || n.While? || n.Try? || n.Assign? || n.AnnAssign? || n.AugAssign? || n.Call?);
    assert !(n.BoolOp? || n.Compare? || n.ExceptHandler?);
  }

  /** A test's condition (when there is one) followed by the else clause's vector, counted on `line`. */
  lemma TestThenElseOnLine(r: seq<Vector>, test: Vector, orElse: Vector, counted: bool, k: nat, e: nat, line: int)
    requires r == if counted then [test, orElse] else [orElse]
    requires counted ==> test.assignment == 0 && test.branch == 0 && test.condition == 1
    requires counted ==> k == if test.lineno == line then 1 else 0
    requires LettersOnLine([orElse], line) == Letters(Vector(0, 0, e, line, None))
    ensures LettersOnLine(r, line) == Letters(Vector(0, 0, (if counted then k else 0) + e, line, None))
  {
    if counted {
      assert r == [test] + [orElse];
      LettersOnLineAppend([test], [orElse], line);
      UnitOnLine(Vector(0, 0, k, line, None), test, line, k);
      CountsAdd(0, 0, k, 0, 0, e, line);
    }
  }

  lemma ConditionalFollowsTable(n: Node, line: int)
    requires (n.If? || n.IfExp?) && WellPositioned(n)
    ensures LettersOnLine(Classify(n), line) == Letters(LineUnits(n, line))
  {
    ConditionalRuleLines(n);
    ConditionalLineUnits(n, line);
    HandleElseOnLine(n, line);
    var r := Classify(n);
    var counted := IsImplicitTest(n.test);
    assert r == if counted then [r[0], HandleElse(n)] else [HandleElse(n)];
    TestThenElseOnLine(r, r[0], HandleElse(n), counted, On(n.test, line), ElseOnLine(n, line), line);
  }

  lemma AssignFollowsTable(n: Node, line: int)
    requires n.Assign? && WellPositioned(n)
    ensures LettersOnLine(Classify(n), line) == Letters(LineUnits(n, line))
  {
    assert !(n.For? || n.While? || n.Try?);
    assert Classify(n) == AssignVectors(n.targets);
    TargetsOnLine(n.targets, line);
  }

  lemma BoolOpFollowsTable(n: Node, line: int)
    requires n.BoolOp? && WellPositioned(n)
    ensures LettersOnLine(Classify(n), line) == Letters(LineUnits(n, line))
  {
    BoolOpRuleLines(n);
    assert !(n.For? || n.While? || n.Try? || n.Assign? || n.AnnAssign? || n.AugAssign? || n.Call?);
    if LeafCount(n.values) > 0 {
      LeavesOnLineLetters(n.values, line);
    } else {
      NoLeafOnAnyLine(n.values, line);
      EmptyOnLine(Classify(n)[0], line);
      assert Classify(n) == [Classify(n)[0]];
    }
  }

  lemma AssertFollowsTable(n: Node, line: int)
    requires n.Assert? && WellPositioned(n)
    ensures LettersOnLine(Classify(n), line) == Letters(LineUnits(n, line))
  {
    AssertRuleLines(n);
    assert !(n.For? || n.While? || n.Try? || n.Assign? || n.AnnAssign? || n.AugAssign? || n.Call?);
    assert !(n.BoolOp? || n.Compare? || n.ExceptHandler? || n.If? || n.IfExp?);
    var v := Classify(n)[0];
    assert Classify(n) == [v];
    if n.test.Name? {
      var k := On(n.test, line);
      UnitOnLine(Vector(0, 0, k, line, None), v, line, k);
    } else {
      EmptyOnLine(v, line);
    }
  }

  lemma UnitKindFollowsTable(n: Node, line: int)
    requires (n.AnnAssign? || n.AugAssign? || n.Call? || n.Compare? || n.ExceptHandler?) && WellPositioned(n)
    ensures LettersOnLine(Classify(n), line) == Letters(LineUnits(n, line))
  {
    UnitRuleLines(n);
    var v := Classify(n)[0];
    assert Classify(n) == [v];
    assert !(n.For? || n.While? || n.Try? || n.Assign?);
    var k := On(n, line);
    if n.AnnAssign? || n.AugAssign? {
      UnitOnLine(Vector(k, 0, 0, line, None), v, line, k);
    } else if n.Call? {
      UnitOnLine(Vector(0, k, 0, line, None), v, line, k);
    } else {
      assert !n.BoolOp?;
      UnitOnLine(Vector(0, 0, k, line, None), v, line, k);
    }
  }

  lemma DefaultKindFollowsTable(n: Node, line: int)
    requires HasDefaultRule(n)
    ensures WellPositioned(n)
    ensures LettersOnLine(Classify(n), line) == Letters(LineUnits(n, line))
  {
    DefaultRuleIsEmpty(n);
    EmptyOnLine(Empty(n, 0), line);
    assert !(n.For? || n.While? || n.Try? || n.Assign? || n.AnnAssign? || n.AugAssign? || n.Call?);
    assert !(n.BoolOp? || n.Compare? || n.ExceptHandler? || n.If? || n.IfExp? || n.Assert?);
    assert LineUnits(n, line) == Vector(0, 0, 0, line, None);
  }

  /**
    Every node's vectors put on each line exactly the letters the table assigns that line:
    the implicit test of an `if` on the test's line, an else clause on the line `ElseLine`
    names, each destructured name and each leaf operand on its own line, and every other
    unit on the node's own line.
  */
  lemma ClassifyFollowsLineTable(n: Node, line: int)
    requires WellPositioned(n)
    ensures LettersOnLine(Classify(n), line) == LineTableLetters(n, line)
  {
    if n.For? || n.While? || n.Try? {
      ElseKindFollowsTable(n, line);
    } else if n.If? || n.IfExp? {
      ConditionalFollowsTable(n, line);
    } else if n.Assign? {
      AssignFollowsTable(n, line);
    } else if n.BoolOp? {
      BoolOpFollowsTable(n, line);
    } else if n.Assert? {
      AssertFollowsTable(n, line);
    } else if n.AnnAssign? || n.AugAssign? || n.Call? || n.Compare? || n.ExceptHandler? {
      UnitKindFollowsTable(n, line);
    } else {
      DefaultKindFollowsTable(n, line);
    }
  }

  /** A line's decoration holds exactly the letters the table gives that line, gathered over the walk. */
  lemma {:induction false} DecorationFollowsLineTable(walk: seq<Node>, line: int)
    requires WalkPositioned(walk)
    ensures multiset(DecorationAt(Contributions(walk), line)) == WalkLetters(walk, n => LineTableLetters(n, line))
  {
    if walk != [] {
      var init, last := walk[..|walk| - 1], walk[|walk| - 1];
      assert forall n :: n in init ==> n in walk;
      DecorationFollowsLineTable(init, line);
      var d0, d1 := DecorationAt(Contributions(init), line), DecorationAt(Classify(last), line);
      DecorationAppend(Contributions(init), Classify(last), line);
      assert multiset(d0 + d1) == multiset(d0) + multiset(d1);
      DecorationLetters(Classify(last), line);
      ClassifyFollowsLineTable(last, line);
    }
  }
}
