/**
  The ABC vector of python_abc/vector.py: Fitzpatrick's ABC software metric counts
  Assignments, Branches (calls) and Conditions. A vector holds the three counters, the
  source line that owns the contribution (0 when no line does) and a back-reference to
  the syntax node that produced it, which is kept for diagnostics only.
*/
module AbcVector {
  import opened Wrappers
  import opened Ast

  datatype Vector = Vector(assignment: nat, branch: nat, condition: nat, lineno: int, node: Option<Node>)

  /** `Vector(0, 0, 0)`: the starting value of a running total */
  const Origin: Vector := Vector(0, 0, 0, 0, None)

  /** a + b + c */
  function Weight(v: Vector): nat {
    v.assignment + v.branch + v.condition
  }

  /** The two vectors agree on the three counters (line and node aside). */
  predicate SameCounters(x: Vector, y: Vector) {
    x.assignment == y.assignment && x.branch == y.branch && x.condition == y.condition
  }

  // ---------------------------------------------------------------- addition

  /** `x + y`: component-wise on the counters; the line is the left operand's and the node is dropped. */
  function Add(x: Vector, y: Vector): (r: Vector)
    ensures r.assignment == x.assignment + y.assignment
    ensures r.branch == x.branch + y.branch
    ensures r.condition == x.condition + y.condition
    ensures r.lineno == x.lineno && r.node == None
  {
    Vector(x.assignment + y.assignment, x.branch + y.branch, x.condition + y.condition, x.lineno, None)
  }

  lemma AddCommutesOnCounters(x: Vector, y: Vector)
    ensures SameCounters(Add(x, y), Add(y, x))
    ensures x.lineno == y.lineno ==> Add(x, y) == Add(y, x)
  {
  }

  lemma AddAssociative(x: Vector, y: Vector, z: Vector)
    ensures Add(Add(x, y), z) == Add(x, Add(y, z))
  {
  }

  /** An all-zero vector is a two-sided identity on the counters. */
  lemma ZeroIsIdentityOnCounters(z: Vector, v: Vector)
    requires Weight(z) == 0
    ensures SameCounters(Add(z, v), v) && SameCounters(Add(v, z), v)
    ensures Add(v, z) == v.(node := None)
  {
  }

  // ---------------------------------------------------------------- truthiness

  /** `bool(v)` */
  predicate Truthy(v: Vector) {
    v.assignment > 0 || v.branch > 0 || v.condition > 0
  }

  lemma TruthyIffWeight(v: Vector)
    ensures Truthy(v) <==> Weight(v) > 0
    ensures !Truthy(v) <==> SameCounters(v, Origin)
  {
  }

  lemma TruthyAdd(x: Vector, y: Vector)
    ensures Truthy(Add(x, y)) <==> Truthy(x) || Truthy(y)
  {
  }

  // ---------------------------------------------------------------- notation

  /** `ch * n` */
  function Repeat(ch: char, n: nat): (s: string)
    ensures |s| == n
    ensures forall i :: 0 <= i < n ==> s[i] == ch
    ensures multiset(s) == multiset{}[ch := n]
  {
    if n == 0 then "" else Repeat(ch, n - 1) + [ch]
  }

  /** The letters of a vector's notation: `a` A times, `b` B times, `c` C times. */
  function Letters(v: Vector): multiset<char> {
    multiset{}['a' := v.assignment]['b' := v.branch]['c' := v.condition]
  }

  /** `v.as_notation` */
  function Notation(v: Vector): (s: string)
    ensures |s| == Weight(v)
    ensures forall i :: 0 <= i < |s| ==>
              s[i] == if i < v.assignment then 'a' else if i < v.assignment + v.branch then 'b' else 'c'
    ensures multiset(s) == Letters(v)
  {
    Repeat('a', v.assignment) + Repeat('b', v.branch) + Repeat('c', v.condition)
  }

  /** The notation is already in letter order, whatever order the contributions came in. */
  lemma NotationSorted(v: Vector)
    ensures forall i, j :: 0 <= i <= j < |Notation(v)| ==> Notation(v)[i] <= Notation(v)[j]
  {
  }

  /** The letter counts of the notation are additive over `+`. */
  lemma NotationAdditive(x: Vector, y: Vector)
    ensures multiset(Notation(Add(x, y))) == multiset(Notation(x)) + multiset(Notation(y))
  {
    var l, r := Letters(Add(x, y)), Letters(x) + Letters(y);
    forall ch ensures l[ch] == r[ch] {
    }
    assert l == r;
  }

  // ---------------------------------------------------------------- str(v)

  predicate IsDigit(ch: char) {
    '0' <= ch <= '9'
  }

  predicate AllDigits(s: string) {
    forall i :: 0 <= i < |s| ==> IsDigit(s[i])
  }

  /** The value of a string of decimal digits. */
  function DecimalValue(s: string): nat
    requires AllDigits(s)
  {
    if s == [] then 0 else 10 * DecimalValue(s[..|s| - 1]) + (s[|s| - 1] as int - '0' as int)
  }

  /** `str(n)` for a natural number: its decimal digits, without leading zeros. */
  function NatToString(n: nat): (s: string)
    ensures |s| >= 1 && AllDigits(s)
    ensures DecimalValue(s) == n
    ensures s[0] == '0' <==> n == 0
    ensures s[0] == '0' ==> s == "0"
  {
    if n < 10 then [('0' as int + n) as char]
    else
      var prefix, last := NatToString(n / 10), ('0' as int + n % 10) as char;
      assert (prefix + [last])[..|prefix|] == prefix;
      prefix + [last]
  }

  /** `s` is how Python writes `n`: its decimal digits, with no leading zero. */
  predicate IsDecimal(s: string, n: nat) {
    |s| >= 1 && AllDigits(s) && (s[0] == '0' ==> s == "0") && DecimalValue(s) == n
  }

  /** The layout `<p, q, t>`. */
  function Bracketed(p: string, q: string, t: string): string {
    "<" + (p + (", " + (q + (", " + (t + ">")))))
  }

  /** `str(v)`: `"<A, B, C>"`, each counter in decimal, separated by a comma and a space. */
  function ToString(v: Vector): (s: string)
    ensures exists p, q, t :: s == Bracketed(p, q, t)
              && IsDecimal(p, v.assignment) && IsDecimal(q, v.branch) && IsDecimal(t, v.condition)
    ensures |s| >= 8 && s[0] == '<' && s[|s| - 1] == '>'
  {
    Bracketed(NatToString(v.assignment), NatToString(v.branch), NatToString(v.condition))
  }

  /** A digit string that does not start with `0` has a positive value. */
  lemma {:induction false} LeadingDigitPositive(s: string)
    requires |s| >= 1 && AllDigits(s) && s[0] != '0'
    ensures DecimalValue(s) >= 1
  {
    if |s| > 1 {
      LeadingDigitPositive(s[..|s| - 1]);
    }
  }

  /** A number has one decimal spelling: the one `NatToString` gives. */
  lemma {:induction false} DecimalIsUnique(s: string, n: nat)
    requires IsDecimal(s, n)
    ensures s == NatToString(n)
  {
    if |s| > 1 {
      var prefix, last := s[..|s| - 1], s[|s| - 1];
      assert s[0] != '0';
      LeadingDigitPositive(prefix);
      assert n / 10 == DecimalValue(prefix) && n % 10 == last as int - '0' as int;
      DecimalIsUnique(prefix, n / 10);
      assert s == prefix + [last];
    }
  }

  /** The layout of `str(v)` is met by one string only. */
  lemma ToStringIsTheOnlyLayout(v: Vector, p: string, q: string, t: string)
    requires IsDecimal(p, v.assignment) && IsDecimal(q, v.branch) && IsDecimal(t, v.condition)
    ensures Bracketed(p, q, t) == ToString(v)
  {
    DecimalIsUnique(p, v.assignment);
    DecimalIsUnique(q, v.branch);
    DecimalIsUnique(t, v.condition);
  }

  /** The length of the run of digits that starts `s`. */
  function DigitRun(s: string): nat {
    if s == [] || !IsDigit(s[0]) then 0 else 1 + DigitRun(s[1..])
  }

  lemma {:induction false} DigitRunOfPrefix(p: string, r: string)
    requires AllDigits(p) && |r| >= 1 && !IsDigit(r[0])
    ensures DigitRun(p + r) == |p|
  {
    if p == [] {
      assert p + r == r;
    } else {
      assert (p + r)[1..] == p[1..] + r;
      DigitRunOfPrefix(p[1..], r);
    }
  }

  /** Two digit strings each followed by a non-digit split a string at the same place. */
  lemma DigitsSplitUniquely(p: string, r: string, q: string, t: string)
    requires AllDigits(p) && AllDigits(q)
    requires |r| >= 1 && !IsDigit(r[0]) && |t| >= 1 && !IsDigit(t[0])
    requires p + r == q + t
    ensures p == q && r == t
  {
    DigitRunOfPrefix(p, r);
    DigitRunOfPrefix(q, t);
    assert p == (p + r)[..|p|];
    assert q == (q + t)[..|q|];
    assert r == (p + r)[|p|..];
    assert t == (q + t)[|q|..];
  }

  /** `str(v)` determines the three counters, so the rendering loses nothing of them. */
  lemma {:induction false} ToStringDeterminesCounters(x: Vector, y: Vector)
    requires ToString(x) == ToString(y)
    ensures SameCounters(x, y)
  {
    var xa, xb, xc := NatToString(x.assignment), NatToString(x.branch), NatToString(x.condition);
    var ya, yb, yc := NatToString(y.assignment), NatToString(y.branch), NatToString(y.condition);
    var xr2, yr2 := ", " + (xc + ">"), ", " + (yc + ">");
    var xr1, yr1 := ", " + (xb + xr2), ", " + (yb + yr2);
    assert ToString(x)[1..] == xa + xr1;
    assert ToString(y)[1..] == ya + yr1;
    DigitsSplitUniquely(xa, xr1, ya, yr1);
    assert xr1[2..] == xb + xr2 && yr1[2..] == yb + yr2;
    DigitsSplitUniquely(xb, xr2, yb, yr2);
    assert xr2[2..] == xc + ">" && yr2[2..] == yc + ">";
    DigitsSplitUniquely(xc, ">", yc, ">");
  }

  // ---------------------------------------------------------------- magnitude

  lemma SquareOfPositive(n: nat)
    ensures n > 0 ==> n * n > 0
  {
    if n > 0 {
      assert n * n == n + n * (n - 1);
    }
  }

  /** A² + B² + C², the quantity whose square root is the vector's magnitude. */
  function SquaredMagnitude(v: Vector): (m: nat)
    ensures m == 0 <==> !Truthy(v)
  {
    SquareOfPositive(v.assignment);
    SquareOfPositive(v.branch);
    SquareOfPositive(v.condition);
    v.assignment * v.assignment + v.branch * v.branch + v.condition * v.condition
  }

  // ---------------------------------------------------------------- constructors

  /** `empty(node, lineno)`; `lineno` 0 stands for the omitted argument (None and 0 are both falsy). */
  function Empty(node: Node, lineno: int): (v: Vector)
    ensures Weight(v) == 0 && !Truthy(v)
    ensures lineno != 0 ==> v.lineno == lineno
    ensures lineno == 0 ==> v.lineno == LinenoOrZero(node)
    ensures v.node == Some(node)
  {
    Vector(0, 0, 0, if lineno != 0 then lineno else LinenoOrZero(node), Some(node))
  }

  /** `assignment(node, lineno)`; without a truthy `lineno` the node's own `lineno` is read. */
  function Assignment(node: Node, lineno: int): (v: Vector)
    requires lineno != 0 || HasLineno(node)
    ensures v.assignment == 1 && v.branch == 0 && v.condition == 0
    ensures Truthy(v)
    ensures v.lineno == if lineno != 0 then lineno else node.lineno
    ensures v.node == Some(node)
  {
    Vector(1, 0, 0, if lineno != 0 then lineno else node.lineno, Some(node))
  }

  /** `branch(node, lineno)` */
  function Branch(node: Node, lineno: int): (v: Vector)
    requires lineno != 0 || HasLineno(node)
    ensures v.assignment == 0 && v.branch == 1 && v.condition == 0
    ensures Truthy(v)
    ensures v.lineno == if lineno != 0 then lineno else node.lineno
    ensures v.node == Some(node)
  {
    Vector(0, 1, 0, if lineno != 0 then lineno else node.lineno, Some(node))
  }

  /** `condition(node, lineno)` */
  function Condition(node: Node, lineno: int): (v: Vector)
    requires lineno != 0 || HasLineno(node)
    ensures v.assignment == 0 && v.branch == 0 && v.condition == 1
    ensures Truthy(v)
    ensures v.lineno == if lineno != 0 then lineno else node.lineno
    ensures v.node == Some(node)
  {
    Vector(0, 0, 1, if lineno != 0 then lineno else node.lineno, Some(node))
  }

  /** The notation of the empty vector is empty, and each unit vector's is its single letter. */
  lemma ConstructorNotations(node: Node, lineno: int)
    requires lineno != 0 || HasLineno(node)
    ensures Notation(Empty(node, lineno)) == ""
    ensures Notation(Assignment(node, lineno)) == "a"
    ensures Notation(Branch(node, lineno)) == "b"
    ensures Notation(Condition(node, lineno)) == "c"
  {
  }

  // ---------------------------------------------------------------- running totals

  /** Folding `total += v` over `vs`, left to right, from `Vector(0, 0, 0)`. */
  function Sum(vs: seq<Vector>): (t: Vector)
    ensures t.lineno == 0 && t.node == None
  {
    if vs == [] then Origin else Add(Sum(vs[..|vs| - 1]), vs[|vs| - 1])
  }

  /** Summing a concatenation is adding the two sums. */
  lemma {:induction false} SumAppend(xs: seq<Vector>, ys: seq<Vector>)
    ensures Sum(xs + ys) == Add(Sum(xs), Sum(ys))
    decreases |ys|
  {
    if ys == [] {
      assert xs + ys == xs;
    } else {
      var ys', y := ys[..|ys| - 1], ys[|ys| - 1];
      var zs := xs + ys;
      assert zs[..|zs| - 1] == xs + ys' && zs[|zs| - 1] == y;
      assert Sum(zs) == Add(Sum(xs + ys'), y);
      SumAppend(xs, ys');
      assert Sum(ys) == Add(Sum(ys'), y);
    }
  }

  /** A sum of assignment units counts them. */
  lemma {:induction false} SumOfAssignmentUnits(vs: seq<Vector>)
    requires forall v :: v in vs ==> v.assignment == 1 && v.branch == 0 && v.condition == 0
    ensures Sum(vs).assignment == |vs| && Sum(vs).branch == 0 && Sum(vs).condition == 0
  {
    if vs != [] {
      assert forall v :: v in vs[..|vs| - 1] ==> v in vs;
      SumOfAssignmentUnits(vs[..|vs| - 1]);
    }
  }

  /** A sum of condition units counts them. */
  lemma {:induction false} SumOfConditionUnits(vs: seq<Vector>)
    requires forall v :: v in vs ==> v.assignment == 0 && v.branch == 0 && v.condition == 1
    ensures Sum(vs).assignment == 0 && Sum(vs).branch == 0 && Sum(vs).condition == |vs|
  {
    if vs != [] {
      assert forall v :: v in vs[..|vs| - 1] ==> v in vs;
      SumOfConditionUnits(vs[..|vs| - 1]);
    }
  }
}
