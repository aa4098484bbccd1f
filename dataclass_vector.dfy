/**
  The dataclass copy of the ABC vector (vector.py at the repository root). It stores the
  same five fields as python_abc/vector.py, so it shares the `Vector` datatype; what
  differs is that addition and truthiness go through the list of metric fields, found by
  name among the dataclass's declared fields, and that adding a value that is not a
  Vector raises `TypeError`. Its `__str__`, `as_notation` and the four constructors are
  textually those of the package copy and are modelled by the same members of AbcVector.
*/
module DataclassVector {
  import opened Wrappers
  import opened AbcVector

  /** `dataclasses.fields(Vector)`, by name, in declaration order */
  const DeclaredFields: seq<string> := ["assignment", "branch", "condition", "lineno", "node"]

  /** The names `metric_fields` keeps. */
  const MetricNames: seq<string> := ["assignment", "branch", "condition"]

  /** The fields of `fields` whose name is a metric name, in their order. */
  function KeepMetrics(fields: seq<string>): (r: seq<string>)
    ensures forall f :: f in r <==> f in fields && f in MetricNames
    ensures |r| <= |fields|
  {
    if fields == [] then []
    else
      var rest := KeepMetrics(fields[..|fields| - 1]);
      assert forall f :: f in fields <==> f in fields[..|fields| - 1] || f == fields[|fields| - 1];
      if fields[|fields| - 1] in MetricNames then rest + [fields[|fields| - 1]] else rest
  }

  /** Filtering the first two declared fields keeps both. */
  lemma KeepFirstTwo()
    ensures KeepMetrics(DeclaredFields[..2]) == ["assignment", "branch"]
  {
    var d := DeclaredFields;
    assert d[..1][..0] == [];
    assert KeepMetrics(d[..1]) == ["assignment"];
    assert d[..2][..1] == d[..1];
  }

  /** Filtering all declared fields keeps the three counters. */
  lemma KeepAllDeclared()
    ensures KeepMetrics(DeclaredFields) == MetricNames
  {
    var d := DeclaredFields;
    KeepFirstTwo();
    assert d[..3][..2] == d[..2];
    assert KeepMetrics(d[..3]) == MetricNames;
    assert d[..4][..3] == d[..3];
    assert KeepMetrics(d[..4]) == MetricNames;
    assert d[..4] == d[..|d| - 1];
  }

  /** `metric_fields`: the three counters in declaration order; `lineno` and `node` never take part. */
  function MetricFields(): (r: seq<string>)
    ensures r == ["assignment", "branch", "condition"]
    ensures "lineno" !in r && "node" !in r
  {
    KeepAllDeclared();
    KeepMetrics(DeclaredFields)
  }

  /** `getattr(v, name)` for a metric field name */
  function GetMetric(v: Vector, name: string): nat
    requires name in MetricNames
  {
    if name == "assignment" then v.assignment
    else if name == "branch" then v.branch
    else v.condition
  }

  /** The right operand of `+`: a Vector, or a value of some other type, named as `type(other)` prints it. */
  datatype Operand = VectorOperand(vector: Vector) | OtherOperand(typeName: string)

  datatype TypeError = TypeError(message: string)

  /** How `type(self)` prints for this class. */
  const SelfTypeName: string := "<class 'vector.Vector'>"

  /**
    `self + other`: a non-Vector operand raises `TypeError` and yields no vector; otherwise
    the metric fields are summed one by one, the line is `self`'s and the node is dropped.
  */
  function Plus(self: Vector, other: Operand): (r: Result<Vector, TypeError>)
    ensures r.Failure? <==> other.OtherOperand?
    ensures r.Failure? ==>
              r.error.message == "unsupported operand type(s) for +: \"" + SelfTypeName + "\" and \"" + other.typeName + "\""
    ensures r.Success? ==> r.value == Add(self, other.vector)
  {
    match other
    case OtherOperand(typeName) =>
      Failure(TypeError("unsupported operand type(s) for +: \"" + SelfTypeName + "\" and \"" + typeName + "\""))
    case VectorOperand(that) =>
      var fields := MetricFields();
      var sums := seq(|fields|, i requires 0 <= i < |fields| => GetMetric(self, fields[i]) + GetMetric(that, fields[i]));
      Success(Vector(sums[0], sums[1], sums[2], self.lineno, None))
  }

  /** `any(getattr(v, f) > 0 for f in fields)` */
  function AnyPositive(v: Vector, fields: seq<string>): (b: bool)
    requires forall f :: f in fields ==> f in MetricNames
    ensures b <==> exists f :: f in fields && GetMetric(v, f) > 0
  {
    if fields == [] then false
    else
      assert forall f :: f in fields <==> f == fields[0] || f in fields[1..];
      GetMetric(v, fields[0]) > 0 || AnyPositive(v, fields[1..])
  }

  /** `bool(v)`: some metric field is positive, which is exactly the package copy's truthiness. */
  function IsTruthy(v: Vector): (b: bool)
    ensures b <==> Truthy(v)
  {
    var fields := MetricFields();
    assert GetMetric(v, fields[0]) == v.assignment;
    assert GetMetric(v, fields[1]) == v.branch;
    assert GetMetric(v, fields[2]) == v.condition;
    AnyPositive(v, fields)
  }
}
